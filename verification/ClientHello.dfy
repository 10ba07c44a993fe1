/**
 ALPN names of an incoming connection (noq-proto/src/endpoint.rs): CRYPTO frames put back together,
 and the ClientHello in them searched, section 4.1.2 of RFC 8446 and section 3.1 of RFC 7301.
 */
module ClientHello {
  import opened Wrappers
  import opened Bytes

  // ------------------------------------------------------------------ reassembly

  datatype CryptoFrame = CryptoFrame(offset: nat, data: seq<byte>) {
    function End(): nat {
      offset + |data|
    }
  }

  /** Stable insertion after the frames that do not start later. */
  function InsertByOffset(fs: seq<CryptoFrame>, f: CryptoFrame): seq<CryptoFrame> {
    if fs == [] || fs[|fs| - 1].offset <= f.offset then fs + [f]
    else InsertByOffset(fs[..|fs| - 1], f) + [fs[|fs| - 1]]
  }

  /** `sort_by_key` on the offset. */
  function SortByOffset(fs: seq<CryptoFrame>): seq<CryptoFrame> {
    if fs == [] then [] else InsertByOffset(SortByOffset(fs[..|fs| - 1]), fs[|fs| - 1])
  }

  ghost predicate Sorted(fs: seq<CryptoFrame>) {
    forall i, j :: 0 <= i < j < |fs| ==> fs[i].offset <= fs[j].offset
  }

  lemma {:induction false} InsertKeeps(fs: seq<CryptoFrame>, f: CryptoFrame)
    ensures forall g :: g in InsertByOffset(fs, f) <==> g in fs || g == f
    ensures |InsertByOffset(fs, f)| == |fs| + 1
  {
    if fs != [] && fs[|fs| - 1].offset > f.offset {
      InsertKeeps(fs[..|fs| - 1], f);
      assert fs == fs[..|fs| - 1] + [fs[|fs| - 1]];
    }
  }

  lemma SortedAppend(fs: seq<CryptoFrame>, f: CryptoFrame)
    requires Sorted(fs) && forall g :: g in fs ==> g.offset <= f.offset
    ensures Sorted(fs + [f])
  {
  }

  lemma {:induction false} InsertSorts(fs: seq<CryptoFrame>, f: CryptoFrame)
    requires Sorted(fs)
    ensures Sorted(InsertByOffset(fs, f))
  {
    if fs == [] || fs[|fs| - 1].offset <= f.offset {
      SortedAppend(fs, f);
    } else {
      var init, last := fs[..|fs| - 1], fs[|fs| - 1];
      InsertSorts(init, f);
      InsertKeeps(init, f);
      SortedAppend(InsertByOffset(init, f), last);
    }
  }

  lemma {:induction false} SortSorts(fs: seq<CryptoFrame>)
    ensures Sorted(SortByOffset(fs)) && (forall g :: g in SortByOffset(fs) <==> g in fs) && |SortByOffset(fs)| == |fs|
  {
    if fs != [] {
      var init, last := fs[..|fs| - 1], fs[|fs| - 1];
      SortSorts(init);
      InsertSorts(SortByOffset(init), last);
      InsertKeeps(SortByOffset(init), last);
      assert fs == init + [last];
    }
  }

  /** One turn of the loop, if the frame leaves no gap. */
  function Extended(buf: seq<byte>, f: CryptoFrame): seq<byte>
    requires f.offset <= |buf|
  {
    if f.End() > |buf| then buf + f.data[|buf| - f.offset..] else buf
  }

  function AssembleFrom(buf: seq<byte>, fs: seq<CryptoFrame>): (r: Option<seq<byte>>)
    decreases |fs|
  {
    if fs == [] then Some(buf)
    else if fs[0].offset > |buf| then None
    else AssembleFrom(Extended(buf, fs[0]), fs[1..])
  }

  function AssembleSpec(fs: seq<CryptoFrame>): (r: Option<seq<byte>>) {
    AssembleFrom([], SortByOffset(fs))
  }

  /** `assemble_crypto_frames`. */
  method Assemble(frames: seq<CryptoFrame>) returns (r: Option<seq<byte>>)
    ensures r == AssembleSpec(frames)
  {
    var fs := SortByOffset(frames);
    var buf, i := [], 0;
    while i < |fs|
      invariant i <= |fs|
      invariant AssembleFrom(buf, fs[i..]) == AssembleFrom([], fs)
    {
      var f := fs[i];
      assert fs[i..][1..] == fs[i + 1..];
      if f.offset > |buf| {
        return None;
      }
      if f.End() > |buf| {
        buf := buf + f.data[|buf| - f.offset..];
      }
      i := i + 1;
    }
    return Some(buf);
  }

  ghost predicate Covered(fs: seq<CryptoFrame>, x: nat) {
    exists f :: f in fs && f.offset <= x < f.End()
  }

  ghost predicate CoveredBelow(fs: seq<CryptoFrame>, n: nat) {
    forall x: nat :: x < n ==> Covered(fs, x)
  }

  /** Every byte below every frame is covered by some frame. */
  ghost predicate Gapless(fs: seq<CryptoFrame>) {
    forall f :: f in fs ==> CoveredBelow(fs, f.offset)
  }

  /** The frames `done` are in the buffer and reach its end. */
  ghost predicate Assembled(done: seq<CryptoFrame>, n: nat) {
    CoveredBelow(done, n) && forall f :: f in done ==> f.End() <= n
  }

  lemma CoveredMore(fs: seq<CryptoFrame>, more: seq<CryptoFrame>, n: nat)
    requires CoveredBelow(fs, n)
    ensures CoveredBelow(fs + more, n)
  {
    forall x: nat | x < n
      ensures Covered(fs + more, x)
    {
      assert Covered(fs, x);
      var f :| f in fs && f.offset <= x < f.End();
      assert f in fs + more;
    }
  }

  lemma ExtendedIsAssembled(done: seq<CryptoFrame>, buf: seq<byte>, f: CryptoFrame)
    requires Assembled(done, |buf|) && f.offset <= |buf|
    ensures Assembled(done + [f], |Extended(buf, f)|)
  {
    CoveredMore(done, [f], |buf|);
    forall x: nat | x < |Extended(buf, f)|
      ensures Covered(done + [f], x)
    {
      if x >= |buf| {
        assert f in done + [f];
      }
    }
  }

  /** Just past the buffer comes a gap, if the next frame starts later still. */
  lemma GapFound(done: seq<CryptoFrame>, n: nat, fs: seq<CryptoFrame>)
    requires Assembled(done, n) && fs != [] && Sorted(fs) && fs[0].offset > n
    ensures !Covered(done + fs, n)
  {
    forall f | f in done + fs && f.offset <= n
      ensures f.End() <= n
    {
      assert f in done || f in fs;
    }
  }

  lemma {:induction false} AssemblesFrom(done: seq<CryptoFrame>, buf: seq<byte>, fs: seq<CryptoFrame>)
    requires Assembled(done, |buf|) && Sorted(fs)
    ensures AssembleFrom(buf, fs).Some? <==> forall f :: f in fs ==> CoveredBelow(done + fs, f.offset)
    ensures AssembleFrom(buf, fs).Some? ==> Assembled(done + fs, |AssembleFrom(buf, fs).value|)
    decreases |fs|
  {
    hide Covered, Extended;
    if fs == [] {
      assert done + fs == done;
    } else if fs[0].offset > |buf| {
      GapFound(done, |buf|, fs);
      assert fs[0] in fs && !CoveredBelow(done + fs, fs[0].offset);
    } else {
      ExtendedIsAssembled(done, buf, fs[0]);
      AssemblesFrom(done + [fs[0]], Extended(buf, fs[0]), fs[1..]);
      assert (done + [fs[0]]) + fs[1..] == done + fs;
      CoveredMore(done, fs, |buf|);
      assert forall f :: f in fs <==> f == fs[0] || f in fs[1..];
    }
  }

  lemma SameFrames(a: seq<CryptoFrame>, b: seq<CryptoFrame>, n: nat)
    requires forall f :: f in a <==> f in b
    ensures CoveredBelow(a, n) <==> CoveredBelow(b, n)
  {
    assert forall x: nat :: Covered(a, x) <==> Covered(b, x);
  }

  /** Reassembly succeeds if and only if there is no gap, and then reaches exactly as far as the
      frames. */
  lemma AssemblesIffGapless(fs: seq<CryptoFrame>)
    ensures AssembleSpec(fs).Some? <==> Gapless(fs)
    ensures AssembleSpec(fs).Some? ==> Assembled(fs, |AssembleSpec(fs).value|)
  {
    var sorted := SortByOffset(fs);
    SortSorts(fs);
    AssemblesFrom([], [], sorted);
    assert [] + sorted == sorted;
    forall n: nat
      ensures CoveredBelow(sorted, n) <==> CoveredBelow(fs, n)
    {
      SameFrames(sorted, fs, n);
    }
  }

  /** Pieces of one stream. */
  ghost predicate PiecesOf(fs: seq<CryptoFrame>, stream: seq<byte>) {
    forall f :: f in fs ==> f.End() <= |stream| && f.data == stream[f.offset..f.End()]
  }

  lemma ExtendedIsPrefix(buf: seq<byte>, f: CryptoFrame, stream: seq<byte>)
    requires f.offset <= |buf| && buf <= stream && f.End() <= |stream| && f.data == stream[f.offset..f.End()]
    ensures Extended(buf, f) <= stream
  {
    if f.End() > |buf| {
      assert f.data[|buf| - f.offset..] == stream[|buf|..f.End()];
    }
  }

  lemma {:induction false} AssemblesPrefix(buf: seq<byte>, fs: seq<CryptoFrame>, stream: seq<byte>)
    requires buf <= stream && PiecesOf(fs, stream)
    ensures AssembleFrom(buf, fs).Some? ==> AssembleFrom(buf, fs).value <= stream
    decreases |fs|
  {
    if fs != [] && fs[0].offset <= |buf| {
      ExtendedIsPrefix(buf, fs[0], stream);
      AssemblesPrefix(Extended(buf, fs[0]), fs[1..], stream);
    }
  }

  /** Whatever the order and the overlaps, pieces that cover a stream give back the stream. */
  lemma PiecesReassemble(fs: seq<CryptoFrame>, stream: seq<byte>)
    requires PiecesOf(fs, stream) && CoveredBelow(fs, |stream|)
    ensures AssembleSpec(fs) == Some(stream)
  {
    forall f | f in fs
      ensures CoveredBelow(fs, f.offset)
    {
    }
    AssemblesIffGapless(fs);
    SortSorts(fs);
    AssemblesPrefix([], SortByOffset(fs), stream);
    var r := AssembleSpec(fs).value;
    assert r <= stream;
    assert |r| < |stream| ==> Covered(fs, |r|);
    assert |r| == |stream|;
    assert r == stream[..|r|];
    assert stream[..|stream|] == stream;
  }

  // ------------------------------------------------------------------ length prefixes

  function TakePrefixed(s: seq<byte>, k: nat): (r: Option<Decoded<seq<byte>>>)
    ensures r.Some? ==> |r.value.rest| + k <= |s|
  {
    match GetBE(s, k)
    case None => None
    case Some(Decoded(n, rest)) => Take(rest, n)
  }

  function Prefixed(d: seq<byte>, k: nat): seq<byte>
    requires |d| < Pow256(k)
  {
    BE(|d|, k) + d
  }

  lemma PrefixedRoundTrip(d: seq<byte>, k: nat, rest: seq<byte>)
    requires |d| < Pow256(k)
    ensures TakePrefixed(Prefixed(d, k) + rest, k) == Some(Decoded(d, rest))
  {
    hide BE, GetBE;
    Assoc3(BE(|d|, k), d, rest);
    GetBEOfBE(|d|, k, d + rest);
    TakeOfConcat(d, rest);
  }

  // ------------------------------------------------------------------ the ClientHello

  const ALPN: nat := 0x0010
  const FIXED_LEN: nat := 34

  /** The extensions up to the first ALPN. */
  function FindInExtensions(s: seq<byte>): (r: Option<seq<byte>>)
    decreases |s|
  {
    if s == [] then None
    else
      match GetBE(s, 2)
      case None => None
      case Some(Decoded(ty, s1)) =>
        match TakePrefixed(s1, 2)
        case None => None
        case Some(Decoded(data, rest)) =>
          if ty == ALPN then ListIn(data) else FindInExtensions(rest)
  }

  function ListIn(data: seq<byte>): (r: Option<seq<byte>>) {
    match TakePrefixed(data, 2)
    case None => None
    case Some(Decoded(list, _)) => Some(list)
  }

  function SkipPrefixed(s: seq<byte>, k: nat): (r: Option<seq<byte>>) {
    match TakePrefixed(s, k)
    case None => None
    case Some(Decoded(_, rest)) => Some(rest)
  }

  /** Version and random, session ID, cipher suites and compression methods are skipped. */
  function ExtensionsOf(body: seq<byte>): (r: Option<seq<byte>>) {
    if |body| < FIXED_LEN then None
    else
      match SkipPrefixed(body[FIXED_LEN..], 1)
      case None => None
      case Some(s1) =>
        match SkipPrefixed(s1, 2)
        case None => None
        case Some(s2) =>
          match SkipPrefixed(s2, 1)
          case None => None
          case Some(s3) =>
            match TakePrefixed(s3, 2)
            case None => None
            case Some(Decoded(extensions, _)) => Some(extensions)
  }

  function BodyOf(source: seq<byte>): (r: Option<seq<byte>>) {
    if source == [] || source[0] != 1 then None
    else
      match TakePrefixed(source[1..], 3)
      case None => None
      case Some(Decoded(body, _)) => Some(body)
  }

  function FindAlpnSpec(source: seq<byte>): (r: Option<seq<byte>>) {
    match BodyOf(source)
    case None => None
    case Some(body) =>
      match ExtensionsOf(body)
      case None => None
      case Some(extensions) => FindInExtensions(extensions)
  }

  /** `find_alpn_data`. */
  method FindAlpn(source: seq<byte>) returns (r: Option<seq<byte>>)
    ensures r == FindAlpnSpec(source)
  {
    hide GetBE, TakePrefixed, ExtensionsOf, BodyOf, ListIn;
    var body := BodyOf(source);
    if body.None? {
      return None;
    }
    var extensions := ExtensionsOf(body.value);
    if extensions.None? {
      return None;
    }
    var s := extensions.value;
    while s != []
      invariant FindInExtensions(s) == FindInExtensions(extensions.value)
      decreases |s|
    {
      var ty := GetBE(s, 2);
      if ty.None? {
        return None;
      }
      var data := TakePrefixed(ty.value.rest, 2);
      if data.None? {
        return None;
      }
      if ty.value.value == ALPN {
        return ListIn(data.value.value);
      }
      s := data.value.rest;
    }
    return None;
  }

  datatype Extension = Extension(ty: nat, data: seq<byte>)

  datatype Hello = Hello(fixed: seq<byte>, session: seq<byte>, ciphers: seq<byte>, compression: seq<byte>, extensions: seq<Extension>)

  ghost predicate ExtensionOk(e: Extension) {
    e.ty < Pow256(2) && |e.data| < Pow256(2)
  }

  function EncodeExtensions(es: seq<Extension>): seq<byte>
    requires forall i :: 0 <= i < |es| ==> ExtensionOk(es[i])
  {
    if es == [] then [] else assert ExtensionOk(es[0]); BE(es[0].ty, 2) + (Prefixed(es[0].data, 2) + EncodeExtensions(es[1..]))
  }

  ghost predicate HelloOk(h: Hello) {
    && |h.fixed| == FIXED_LEN && |h.session| < Pow256(1) && |h.ciphers| < Pow256(2) && |h.compression| < Pow256(1)
    && (forall i :: 0 <= i < |h.extensions| ==> ExtensionOk(h.extensions[i]))
    && |EncodeExtensions(h.extensions)| < Pow256(2)
    && |EncodeBody(h)| < Pow256(3)
  }

  function EncodeBody(h: Hello): seq<byte>
    requires |h.session| < Pow256(1) && |h.ciphers| < Pow256(2) && |h.compression| < Pow256(1)
    requires forall i :: 0 <= i < |h.extensions| ==> ExtensionOk(h.extensions[i])
    requires |EncodeExtensions(h.extensions)| < Pow256(2)
  {
    var extensions := Prefixed(EncodeExtensions(h.extensions), 2);
    h.fixed + (Prefixed(h.session, 1) + (Prefixed(h.ciphers, 2) + (Prefixed(h.compression, 1) + extensions)))
  }

  function EncodeHello(h: Hello): seq<byte>
    requires HelloOk(h)
  {
    [1] + Prefixed(EncodeBody(h), 3)
  }

  /** The protocol list of the first ALPN extension. */
  function FirstAlpn(es: seq<Extension>): (r: Option<seq<byte>>) {
    if es == [] then None else if es[0].ty == ALPN then ListIn(es[0].data) else FirstAlpn(es[1..])
  }

  lemma {:induction false} FindsFirstAlpn(es: seq<Extension>)
    requires forall i :: 0 <= i < |es| ==> ExtensionOk(es[i])
    ensures FindInExtensions(EncodeExtensions(es)) == FirstAlpn(es)
    decreases |es|
  {
    hide BE, GetBE, TakePrefixed, Prefixed, ListIn;
    if es != [] {
      var e, rest := es[0], EncodeExtensions(es[1..]);
      assert ExtensionOk(e);
      GetBEOfBE(e.ty, 2, Prefixed(e.data, 2) + rest);
      PrefixedRoundTrip(e.data, 2, rest);
      FindsFirstAlpn(es[1..]);
    }
  }

  lemma FindsExtensions(h: Hello)
    requires HelloOk(h)
    ensures ExtensionsOf(EncodeBody(h)) == Some(EncodeExtensions(h.extensions))
  {
    hide TakePrefixed, Prefixed, EncodeExtensions;
    var es := EncodeExtensions(h.extensions);
    var s3 := Prefixed(es, 2);
    var s2 := Prefixed(h.compression, 1) + s3;
    var s1 := Prefixed(h.ciphers, 2) + s2;
    assert EncodeBody(h)[FIXED_LEN..] == Prefixed(h.session, 1) + s1;
    PrefixedRoundTrip(h.session, 1, s1);
    PrefixedRoundTrip(h.ciphers, 2, s2);
    PrefixedRoundTrip(h.compression, 1, s3);
    PrefixedRoundTrip(es, 2, []);
    assert s3 + [] == s3;
  }

  /** In any well-formed ClientHello, followed by anything, the search finds the protocol list of the
      first ALPN extension, and nothing if there is none. */
  lemma FindsAlpn(h: Hello, trailing: seq<byte>)
    requires HelloOk(h)
    ensures FindAlpnSpec(EncodeHello(h) + trailing) == FirstAlpn(h.extensions)
  {
    hide TakePrefixed, Prefixed, EncodeExtensions, ExtensionsOf, FindInExtensions, FirstAlpn, EncodeBody;
    var source := EncodeHello(h) + trailing;
    assert source[1..] == Prefixed(EncodeBody(h), 3) + trailing;
    PrefixedRoundTrip(EncodeBody(h), 3, trailing);
    FindsExtensions(h);
    FindsFirstAlpn(h.extensions);
  }

  // ------------------------------------------------------------------ protocol names

  datatype Name = Name(bytes: seq<byte>) | UnexpectedEnd

  /** Everything the iterator yields from `pos` on. */
  function NamesFrom(data: seq<byte>, pos: nat): (names: seq<Name>)
    decreases |data| - pos
  {
    if pos >= |data| then []
    else
      var start := pos + 1;
      if start + data[pos] > |data| then [UnexpectedEnd] + NamesFrom(data, start)
      else [Name(data[start..start + data[pos]])] + NamesFrom(data, start + data[pos])
  }

  class IncomingAlpns {
    const data: seq<byte>
    var pos: nat

    constructor (data: seq<byte>)
      ensures this.data == data && pos == 0
    {
      this.data, pos := data, 0;
    }

    method Next() returns (item: Option<Name>)
      modifies this
      ensures item.None? <==> NamesFrom(data, old(pos)) == []
      ensures item.Some? ==> NamesFrom(data, old(pos)) == [item.value] + NamesFrom(data, pos) && pos > old(pos)
    {
      if pos >= |data| {
        return None;
      }
      var len := data[pos];
      pos := pos + 1;
      if pos + len > |data| {
        return Some(UnexpectedEnd);
      }
      var proto := data[pos..pos + len];
      pos := pos + len;
      return Some(Name(proto));
    }
  }

  ghost predicate NameOk(name: seq<byte>) {
    |name| < 256
  }

  function EncodeNames(names: seq<seq<byte>>): seq<byte>
    requires forall i :: 0 <= i < |names| ==> NameOk(names[i])
  {
    if names == [] then [] else assert NameOk(names[0]); [|names[0]|] + (names[0] + EncodeNames(names[1..]))
  }

  function AsNames(names: seq<seq<byte>>): seq<Name> {
    if names == [] then [] else [Name(names[0])] + AsNames(names[1..])
  }

  lemma NameAt(before: seq<byte>, name: seq<byte>, rest: seq<byte>)
    requires NameOk(name)
    ensures var data, start := before + ([|name|] + (name + rest)), |before| + 1;
            && data[|before|] == |name| && start + |name| <= |data| && data[start..start + |name|] == name
            && data == (before + ([|name|] + name)) + rest
  {
  }

  lemma FirstName(data: seq<byte>, pos: nat, name: seq<byte>)
    requires pos < |data| && data[pos] == |name| && pos + 1 + |name| <= |data| && data[pos + 1..pos + 1 + |name|] == name
    ensures NamesFrom(data, pos) == [Name(name)] + NamesFrom(data, pos + 1 + |name|)
  {
  }

  lemma NoName(before: seq<byte>)
    ensures NamesFrom(before + [], |before|) == []
  {
  }

  lemma ReadsName(before: seq<byte>, name: seq<byte>, rest: seq<byte>)
    requires NameOk(name)
    ensures NamesFrom(before + ([|name|] + (name + rest)), |before|) ==
            [Name(name)] + NamesFrom((before + ([|name|] + name)) + rest, |before + ([|name|] + name)|)
  {
    NameAt(before, name, rest);
    FirstName(before + ([|name|] + (name + rest)), |before|, name);
  }

  lemma {:induction false} NamesRoundTrip(before: seq<byte>, names: seq<seq<byte>>)
    requires forall i :: 0 <= i < |names| ==> NameOk(names[i])
    ensures NamesFrom(before + EncodeNames(names), |before|) == AsNames(names)
    decreases |names|
  {
    hide NamesFrom, NameOk;
    if names == [] {
      NoName(before);
    } else {
      assert NameOk(names[0]);
      FitsByte(names[0]);
      ReadsName(before, names[0], EncodeNames(names[1..]));
      NamesRoundTrip(before + ([|names[0]|] + names[0]), names[1..]);
    }
  }

  lemma FitsByte(name: seq<byte>)
    requires NameOk(name)
    ensures |name| < 256
  {
  }

  /** A truncated name ends the iteration if and only if nothing follows its length. */
  lemma ErrorEndsIff(data: seq<byte>, pos: nat)
    requires pos < |data| && pos + 1 + data[pos] > |data|
    ensures NamesFrom(data, pos) == [UnexpectedEnd] <==> pos + 1 == |data|
  {
    var rest := NamesFrom(data, pos + 1);
    assert rest == [] <==> pos + 1 == |data|;
    assert NamesFrom(data, pos) == [UnexpectedEnd] + rest;
    assert |NamesFrom(data, pos)| == 1 + |rest|;
  }

  /** Otherwise it does not end the iteration: what follows it is read as further names. */
  lemma ErrorIsNotTheEnd()
    ensures NamesFrom([5, 0], 0) == [UnexpectedEnd, Name([])]
  {
    var data := [5, 0];
    assert NamesFrom(data, 2) == [];
    assert data[2..2] == [];
    assert NamesFrom(data, 1) == [Name([])] + NamesFrom(data, 2);
  }
}
