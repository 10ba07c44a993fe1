/**
 From the frames of an Initial packet to the ALPN names (noq-proto/src/endpoint.rs,
 `DecryptedInitial::alpns`).
 */
module Alpns {
  import opened Wrappers
  import opened Bytes
  import F = Frames
  import T = FrameTypes
  import opened ClientHello

  /** The CRYPTO frame in a frame, if it is one. */
  function CryptoIn(f: F.Frame): Option<CryptoFrame> {
    if f.ty.Crypto? && |f.values| == 2 && f.values[0].Number? && f.values[1].Data?
    then Some(CryptoFrame(f.values[0].n, f.values[1].bytes))
    else None
  }

  function Appended(fs: seq<CryptoFrame>, f: Option<CryptoFrame>): seq<CryptoFrame> {
    if f.Some? then fs + [f.value] else fs
  }

  /** The CRYPTO frames after `fs`, unless there is an invalid frame. */
  function Gather(fs: seq<CryptoFrame>, items: seq<F.Item>): (r: Option<seq<CryptoFrame>>)
    decreases |items|
  {
    if items == [] then Some(fs)
    else if items[0].Err? then None
    else Gather(Appended(fs, CryptoIn(items[0].value)), items[1..])
  }

  /** One CRYPTO frame at the start needs no reassembly; otherwise the first one goes last. */
  function SourceOf(fs: seq<CryptoFrame>): (r: Option<seq<byte>>) {
    if fs == [] then None
    else if |fs| == 1 && fs[0].offset == 0 then Some(fs[0].data)
    else AssembleSpec(fs[1..] + [fs[0]])
  }

  function AlpnsSpec(payload: seq<byte>): (r: Option<seq<byte>>) {
    match Gather([], F.Items(payload, T.NoFrame))
    case None => None
    case Some(fs) =>
      match SourceOf(fs)
      case None => None
      case Some(source) => FindAlpnSpec(source)
  }

  /** `alpns`. */
  method FindNames(payload: seq<byte>) returns (r: Option<seq<byte>>)
    ensures r == AlpnsSpec(payload)
  {
    hide AssembleSpec, FindAlpnSpec, F.Items;
    var frames := new F.Iter(payload);
    var first: Option<CryptoFrame>, rest: seq<CryptoFrame> := None, [];
    ghost var fs: seq<CryptoFrame> := [];
    while true
      invariant fresh(frames)
      invariant fs == if first.Some? then [first.value] + rest else []
      invariant first.None? ==> rest == []
      invariant Gather(fs, frames.ToCome()) == Gather([], F.Items(payload, T.NoFrame))
      decreases |frames.bytes|
    {
      var item := frames.Next();
      if item.None? {
        break;
      }
      if item.value.Err? {
        return None;
      }
      var crypto := CryptoIn(item.value.value);
      if crypto.Some? {
        if first.None? {
          first := crypto;
        } else {
          rest := rest + [crypto.value];
        }
      }
      fs := Appended(fs, crypto);
    }
    if first.None? {
      return None;
    }
    assert fs[1..] == rest;
    var source: seq<byte>;
    if rest == [] && first.value.offset == 0 {
      source := first.value.data;
    } else {
      var assembled := Assemble(rest + [first.value]);
      if assembled.None? {
        return None;
      }
      source := assembled.value;
    }
    r := FindAlpn(source);
  }

  /** Without the fast path the result is the same. */
  lemma FastPathAgrees(fs: seq<CryptoFrame>)
    requires fs != []
    ensures SourceOf(fs) == AssembleSpec(fs[1..] + [fs[0]])
  {
    if |fs| == 1 && fs[0].offset == 0 {
      assert fs[1..] + [fs[0]] == [fs[0]];
      PiecesReassemble([fs[0]], fs[0].data) by {
        forall x: nat | x < |fs[0].data|
          ensures Covered([fs[0]], x)
        {
          assert fs[0] in [fs[0]];
        }
      }
    }
  }

  /** CRYPTO frames in a list of frames. */
  function CryptosOf(fs: seq<F.Frame>): seq<CryptoFrame> {
    if fs == [] then [] else Appended(CryptosOf(fs[..|fs| - 1]), CryptoIn(fs[|fs| - 1]))
  }

  lemma CryptosOfAppend(done: seq<F.Frame>, f: F.Frame)
    ensures CryptosOf(done + [f]) == Appended(CryptosOf(done), CryptoIn(f))
  {
    assert (done + [f])[..|done|] == done;
  }

  lemma {:induction false} GathersAll(done: seq<F.Frame>, fs: seq<F.Frame>)
    ensures Gather(CryptosOf(done), F.Oks(fs)) == Some(CryptosOf(done + fs))
    decreases |fs|
  {
    hide CryptoIn, Appended, CryptosOf;
    if fs == [] {
      assert done + fs == done;
    } else {
      CryptosOfAppend(done, fs[0]);
      GathersAll(done + [fs[0]], fs[1..]);
      assert (done + [fs[0]]) + fs[1..] == done + fs;
    }
  }

  /** Rotating the frames changes neither the pieces nor what they cover. */
  lemma Rotated(fs: seq<CryptoFrame>, stream: seq<byte>)
    requires fs != [] && PiecesOf(fs, stream) && CoveredBelow(fs, |stream|)
    ensures AssembleSpec(fs[1..] + [fs[0]]) == Some(stream)
  {
    var rotated := fs[1..] + [fs[0]];
    assert forall f :: f in rotated <==> f in fs;
    SameFrames(rotated, fs, |stream|);
    PiecesReassemble(rotated, stream);
  }

  ghost predicate NamesOk(names: seq<seq<byte>>) {
    (forall i :: 0 <= i < |names| ==> NameOk(names[i])) && |EncodeNames(names)| < Pow256(2) - 2
  }

  /** The ALPN extension that carries the names. */
  function AlpnExtension(names: seq<seq<byte>>): Extension
    requires NamesOk(names)
  {
    Extension(ALPN, Prefixed(EncodeNames(names), 2))
  }

  lemma ListOfExtension(names: seq<seq<byte>>)
    requires NamesOk(names)
    ensures ListIn(AlpnExtension(names).data) == Some(EncodeNames(names))
  {
    hide TakePrefixed, Prefixed, EncodeNames;
    PrefixedRoundTrip(EncodeNames(names), 2, []);
    assert Prefixed(EncodeNames(names), 2) + [] == Prefixed(EncodeNames(names), 2);
  }

  /** Names of the first ALPN extension of a ClientHello. */
  ghost predicate Announces(h: Hello, names: seq<seq<byte>>) {
    HelloOk(h) && NamesOk(names) && FirstAlpn(h.extensions) == FirstAlpn([AlpnExtension(names)])
  }

  /** However the frames of a packet cut a ClientHello into pieces, overlapping and in any order, its
      ALPN names come out in order. */
  lemma NamesComeOut(fs: seq<F.Frame>, h: Hello, trailing: seq<byte>, names: seq<seq<byte>>)
    requires F.Sequence(fs) && Announces(h, names)
    requires PiecesOf(CryptosOf(fs), EncodeHello(h) + trailing) && CoveredBelow(CryptosOf(fs), |EncodeHello(h) + trailing|)
    ensures AlpnsSpec(F.EncodeAll(fs)) == Some(EncodeNames(names))
    ensures NamesFrom(EncodeNames(names), 0) == AsNames(names)
  {
    var stream, pieces := EncodeHello(h) + trailing, CryptosOf(fs);
    assert pieces != [] by {
      assert Covered(pieces, 0);
    }
    hide AssembleSpec, FindAlpnSpec, EncodeHello, EncodeNames, HelloOk, F.EncodeAll, F.Items;
    hide ListIn, PiecesOf, CoveredBelow, NamesFrom, AsNames;
    F.FrameListRoundTrip(fs, T.NoFrame);
    GathersAll([], fs);
    assert [] + fs == fs;
    FastPathAgrees(pieces);
    Rotated(pieces, stream);
    FindsAlpn(h, trailing);
    ListOfExtension(names);
    NamesRoundTrip([], names);
    assert [] + EncodeNames(names) == EncodeNames(names);
  }
}
