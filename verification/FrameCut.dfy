/**
 Frames that are cut short (noq-proto/src/frame.rs:1496-1792): more input never changes what was read or
 refused before it, so a list of frames that is cut anywhere yields the frames before the cut, and
 then, unless the cut is between two frames, the error that the input has ended.
 */
module FrameCuts {
  import opened Wrappers
  import opened Bytes
  import opened Net
  import opened VarInts
  import opened RangeSets
  import opened Acks
  import opened FrameTypes
  import opened Frames

  // ------------------------------------------------------------------ more input changes nothing

  /** Reading `s + more` gives what reading `s` gave, unless that ran out of input. */
  ghost predicate Extends<T>(short: Result<Decoded<T>, IterErr>, long: Result<Decoded<T>, IterErr>, more: seq<byte>) {
    match short
    case Ok(Decoded(v, rest)) => long == Ok(Decoded(v, rest + more))
    case Err(e) => e.UnexpectedEnd? || long == Err(e)
  }

  lemma VarExtends(s: seq<byte>, more: seq<byte>)
    ensures var r := DecodeVar(s); r.Some? ==> DecodeVar(s + more) == Some(Decoded(r.value.value, r.value.rest + more))
  {
    if DecodeVar(s).Some? {
      var k := LengthOf(s[0]);
      assert (s + more)[1..k] == s[1..k] && (s + more)[k..] == s[k..] + more;
    }
  }

  lemma BEExtends(s: seq<byte>, k: nat, more: seq<byte>)
    ensures |s| >= k ==> GetBE(s + more, k) == Some(Decoded(GetBE(s, k).value.value, s[k..] + more))
  {
    if |s| >= k {
      assert (s + more)[..k] == s[..k] && (s + more)[k..] == s[k..] + more;
    }
  }

  lemma BytesExtend(s: seq<byte>, more: seq<byte>)
    ensures Extends(ReadBytes(s), ReadBytes(s + more), more)
  {
    VarExtends(s, more);
    hide DecodeVar;
    if DecodeVar(s).Some? {
      var (n, rest) := (DecodeVar(s).value.value, DecodeVar(s).value.rest);
      if |rest| >= n {
        assert (rest + more)[..n] == rest[..n] && (rest + more)[n..] == rest[n..] + more;
      }
    }
  }

  lemma CidAndTokenExtend(s: seq<byte>, more: seq<byte>)
    ensures Extends(ReadCidAndToken(s), ReadCidAndToken(s + more), more)
  {
    if s != [] && 0 < s[0] <= MAX_CID_SIZE && |s| >= 1 + s[0] as nat + 16 {
      var end := 1 + s[0] as nat;
      assert (s + more)[1..end] == s[1..end] && (s + more)[end..end + 16] == s[end..end + 16];
      assert (s + more)[end + 16..] == s[end + 16..] + more;
    }
  }

  lemma NewCidExtends(s: seq<byte>, more: seq<byte>)
    ensures Extends(ReadNewCid(s), ReadNewCid(s + more), more)
  {
    hide DecodeVar, ReadCidAndToken;
    VarExtends(s, more);
    if DecodeVar(s).Some? {
      var s1 := DecodeVar(s).value.rest;
      VarExtends(s1, more);
      if DecodeVar(s1).Some? {
        CidAndTokenExtend(DecodeVar(s1).value.rest, more);
      }
    }
  }

  lemma BlockExtends(s: seq<byte>, largest: nat, last: bool, out: seq<Range>, more: seq<byte>)
    ensures match ReadBlock(s, largest, last, out)
            case Done(r) => r == Err(UnexpectedEnd) || (ReadBlock(s + more, largest, last, out).Done?
                            && Extends(r, ReadBlock(s + more, largest, last, out).result, more))
            case Next(rest, n, out') => ReadBlock(s + more, largest, last, out) == Next(rest + more, n, out')
  {
    hide DecodeVar, InsertSpec;
    VarExtends(s, more);
    if DecodeVar(s).Some? {
      VarExtends(DecodeVar(s).value.rest, more);
    }
  }

  lemma {:induction false} BlocksExtend(s: seq<byte>, largest: nat, n: nat, out: seq<Range>, more: seq<byte>)
    ensures Extends(ReadFrom(s, largest, n, out), ReadFrom(s + more, largest, n, out), more)
    decreases |s|
  {
    hide ReadBlock;
    BlockExtends(s, largest, n == 0, out, more);
    match ReadBlock(s, largest, n == 0, out)
    case Done(_) =>
    case Next(rest, largest', out') => BlocksExtend(rest, largest', n - 1, out', more);
  }

  lemma AckExtends(s: seq<byte>, more: seq<byte>)
    ensures Extends(ReadAck(s), ReadAck(s + more), more)
  {
    hide DecodeVar, ReadFrom;
    VarExtends(s, more);
    if DecodeVar(s).Some? {
      var (largest, s1) := (DecodeVar(s).value.value, DecodeVar(s).value.rest);
      VarExtends(s1, more);
      if DecodeVar(s1).Some? {
        var s2 := DecodeVar(s1).value.rest;
        VarExtends(s2, more);
        if DecodeVar(s2).Some? {
          BlocksExtend(DecodeVar(s2).value.rest, largest, DecodeVar(s2).value.value, [], more);
        }
      }
    }
  }

  lemma FieldExtends(k: Field, s: seq<byte>, more: seq<byte>)
    requires !k.RestField?
    ensures Extends(ReadField(k, s), ReadField(k, s + more), more)
  {
    VarExtends(s, more);
    BEExtends(s, 8, more);
    BEExtends(s, 16, more);
    BEExtends(s, 4, more);
    BEExtends(s, 2, more);
    hide DecodeVar, GetBE, ReadBytes, ReadAck, ReadNewCid;
    match k
    case BytesField => BytesExtend(s, more);
    case AckField => AckExtends(s, more);
    case CidField => NewCidExtends(s, more);
    case _ =>
  }

  lemma {:induction false} FieldsExtend(ks: seq<Field>, s: seq<byte>, more: seq<byte>)
    requires SelfDelimiting(ks)
    ensures Extends(ReadFields(ks, s), ReadFields(ks, s + more), more)
    decreases |ks|
  {
    hide ReadField;
    if ks != [] {
      FieldExtends(ks[0], s, more);
      if ReadField(ks[0], s).Ok? {
        FieldsExtend(ks[1..], ReadField(ks[0], s).value.rest, more);
      }
    }
  }

  /** What `try_next` makes of a frame that says where it ends does not depend on what follows it. */
  lemma TryNextExtends(s: seq<byte>, lastTy: MaybeFrame, more: seq<byte>)
    requires var d := DecodeMaybe(s); d.Some? && TypeToRead(d.value.value).Ok? ==> SelfDelimiting(Layout(TypeToRead(d.value.value).value))
    ensures Extends(TryNext(s, lastTy).0, TryNext(s + more, lastTy).0, more)
  {
    VarExtends(s, more);
    hide DecodeVar, ReadFields, Layout, SelfDelimiting, MaybeOf;
    if DecodeVar(s).Some? {
      var d := DecodeMaybe(s).value;
      if TypeToRead(d.value).Ok? {
        FieldsExtend(Layout(TypeToRead(d.value).value), d.rest, more);
      }
    }
  }

  // ------------------------------------------------------------------ one frame

  /** The first bytes of a frame carry its type, or not even that. */
  lemma CutType(f: Frame, n: nat)
    requires ValidFrame(f) && n < |EncodeFrame(f)|
    ensures var d := DecodeMaybe(EncodeFrame(f)[..n]); d.Some? ==> d.value.value == MaybeOf(ToU64(f.ty))
  {
    hide Layout, AllFit, EncodeFields, ToU64, MaybeOf;
    var e := EncodeFrame(f);
    VarExtends(e[..n], e[n..]);
    assert e[..n] + e[n..] == e;
    VarRoundTrip(ToU64(f.ty), EncodeFields(Layout(f.ty), f.values));
    hide DecodeVar, EncodeVar;
  }

  lemma KnownType(ty: FrameType)
    ensures TypeToRead(MaybeOf(ToU64(ty))) == Ok(ty)
  {
    hide ToU64, TryFrom;
    TypeOfId(ty);
  }

  /** Whatever type the first bytes of a frame show, it is one that says where it ends. */
  lemma CutDelimits(f: Frame, n: nat)
    requires ValidFrame(f) && SelfDelimiting(Layout(f.ty)) && n < |EncodeFrame(f)|
    ensures var d := DecodeMaybe(EncodeFrame(f)[..n]);
            d.Some? && TypeToRead(d.value.value).Ok? ==> SelfDelimiting(Layout(TypeToRead(d.value.value).value))
  {
    hide EncodeFrame, ValidFrame, Layout, SelfDelimiting, DecodeMaybe, TypeToRead;
    CutType(f, n);
    KnownType(f.ty);
  }

  /** What could not be read to the end can only have run out of input. */
  lemma OnlyTheEnd<T>(short: Result<Decoded<T>, IterErr>, long: Result<Decoded<T>, IterErr>, more: seq<byte>)
    requires Extends(short, long, more) && long.Ok? && long.value.rest == [] && more != []
    ensures short == Err(UnexpectedEnd)
  {
  }

  /** A frame that says where it ends and is cut short is refused for running out of input. */
  lemma CutFrameIsRefused(f: Frame, n: nat, lastTy: MaybeFrame)
    requires ValidFrame(f) && SelfDelimiting(Layout(f.ty)) && n < |EncodeFrame(f)|
    ensures TryNext(EncodeFrame(f)[..n], lastTy).0 == Err(UnexpectedEnd)
  {
    hide EncodeFrame, TryNext, ValidFrame, Layout, SelfDelimiting, DecodeMaybe, TypeToRead, MaybeOf, ToU64, Extends;
    var e := EncodeFrame(f);
    var s, more := e[..n], e[n..];
    CutDelimits(f, n);
    TryNextExtends(s, lastTy, more);
    FrameRoundTrip(f, [], lastTy);
    assert s + more == e && e + [] == e;
    OnlyTheEnd(TryNext(s, lastTy).0, TryNext(e, lastTy).0, more);
  }

  // ------------------------------------------------------------------ lists of frames

  ghost predicate AllDelimited(fs: seq<Frame>) {
    forall i :: 0 <= i < |fs| ==> ValidFrame(fs[i]) && SelfDelimiting(Layout(fs[i].ty))
  }

  /** `items` are the first `k` frames, and if `cut` one error that the input has ended. */
  ghost predicate Yields(items: seq<Item>, fs: seq<Frame>, k: nat, cut: bool) {
    && k <= |fs| && |items| == k + (if cut then 1 else 0)
    && (forall i :: 0 <= i < k ==> items[i] == Ok(fs[i]))
    && (cut ==> items[k].Err? && items[k].error.reason == UnexpectedEnd)
  }

  /** However a list of frames that say where they end is cut, what is left yields exactly the frames
      that lie wholly before the cut, and one error if the cut is not between two frames. */
  lemma {:induction false} CutListYieldsPrefix(fs: seq<Frame>, n: nat, lastTy: MaybeFrame) returns (k: nat)
    requires AllDelimited(fs) && Sequence(fs) && n <= |EncodeAll(fs)|
    ensures k <= |fs| && Sequence(fs[..k])
    ensures |EncodeAll(fs[..k])| <= n && (k < |fs| ==> n < |EncodeAll(fs[..k])| + |EncodeFrame(fs[k])|)
    ensures Yields(Items(EncodeAll(fs)[..n], lastTy), fs, k, n != |EncodeAll(fs[..k])|)
    decreases |fs|
  {
    hide TryNext, EncodeFrame, ValidFrame, Layout, SelfDelimiting;
    if fs == [] {
      k := 0;
      assert fs[..0] == [];
    } else {
      var e, rest := EncodeFrame(fs[0]), EncodeAll(fs[1..]);
      FrameIsNotEmpty(fs[0]);
      if n < |e| {
        k := 0;
        assert fs[..0] == [];
        assert (e + rest)[..n] == e[..n];
        CutFrameIsRefused(fs[0], n, lastTy);
      } else {
        var s := rest[..n - |e|];
        assert (e + rest)[..n] == e + s;
        FrameRoundTrip(fs[0], s, lastTy);
        var j := CutListYieldsPrefix(fs[1..], n - |e|, MaybeOf(ToU64(fs[0].ty)));
        k := j + 1;
        assert fs[..k] == [fs[0]] + fs[1..][..j];
        assert fs[..k][1..] == fs[1..][..j];
        ItemsStep(e + s, fs[0], s, lastTy, MaybeOf(ToU64(fs[0].ty)));
      }
    }
  }

  lemma ItemsStep(s: seq<byte>, f: Frame, rest: seq<byte>, lastTy: MaybeFrame, m: MaybeFrame)
    requires s != [] && TryNext(s, lastTy) == (Ok(Decoded(f, rest)), m)
    ensures Items(s, lastTy) == [Ok(f)] + Items(rest, m)
  {
    hide TryNext;
  }

  // ------------------------------------------------------------------ refusals by kind

  /** An identifier that no frame has ends the list with just that error, attributed to it. */
  lemma UnknownTypeIsRefused(v: VarInt, rest: seq<byte>, lastTy: MaybeFrame)
    requires TryFrom(v).None?
    ensures Items(EncodeVar(v) + rest, lastTy) == [Err(InvalidFrame(Unknown(v), InvalidFrameId))]
  {
    hide DecodeVar, EncodeVar, TryFrom;
    VarRoundTrip(v, rest);
    assert EncodeVar(v) + rest != [] by {
      assert DecodeVar(EncodeVar(v) + rest).Some?;
    }
  }

  /** NEW_CONNECTION_ID is malformed if and only if it retires past its own number or its CID has no or
      more than twenty bytes. */
  lemma NewCidMalformedIff(sequence: VarInt, retirePriorTo: VarInt, rest: seq<byte>)
    ensures ReadNewCid(EncodeVar(sequence) + (EncodeVar(retirePriorTo) + rest)) == Err(Malformed) <==>
            retirePriorTo > sequence || (rest != [] && (rest[0] == 0 || rest[0] > 20))
  {
    hide DecodeVar, EncodeVar;
    VarRoundTrip(sequence, EncodeVar(retirePriorTo) + rest);
    VarRoundTrip(retirePriorTo, rest);
  }
}
