/** Variable-length integers (noq-proto/src/varint.rs), section 16 of RFC 9000. */
module VarInts {
  import opened Wrappers
  import opened Bytes

  type VarInt = n: nat | n < 0x4000_0000_0000_0000

  function Size(x: VarInt): (k: nat) {
    if x < 0x40 then 1 else if x < 0x4000 then 2 else if x < 0x4000_0000 then 4 else 8
  }

  function EncodeVar(x: VarInt): (s: seq<byte>)
    ensures |s| == Size(x)
  {
    if x < 0x40 then [x]
    else if x < 0x4000 then BE(0x4000 + x, 2)
    else if x < 0x4000_0000 then BE(0x8000_0000 + x, 4)
    else BE(0xc000_0000_0000_0000 + x, 8)
  }

  /** Length announced by the two top bits of the first byte. */
  function LengthOf(first: byte): (k: nat)
    ensures 1 <= k <= 8
  {
    if first < 64 then 1 else if first < 128 then 2 else if first < 192 then 4 else 8
  }

  function DecodeVar(s: seq<byte>): (r: Option<Decoded<VarInt>>)
    ensures r.Some? ==> |r.value.rest| < |s|
  {
    if s == [] then None
    else
      var k := LengthOf(s[0]);
      if |s| < k then None
      else
        VarInRange(s[0] % 64, s[1..k]);
        Some(Decoded(FromBE([s[0] % 64] + s[1..k]), s[k..]))
  }

  lemma Scaled(h: nat, p: nat, m: nat)
    ensures (h * p + m) * 256 == h * (256 * p) + m * 256
  {
  }

  lemma Shifted(h: nat, p: nat, m: nat)
    ensures var n := h * (256 * p) + m; n / 256 == h * p + m / 256 && n % 256 == m % 256
  {
    Scaled(h, p, 0);
  }

  lemma {:induction false} FromBECons(h: byte, t: seq<byte>)
    ensures FromBE([h] + t) == h * Pow256(|t|) + FromBE(t)
  {
    if t == [] {
      assert [h] + t == [h] && [h][..0] == [];
    } else {
      var init, last := t[..|t| - 1], t[|t| - 1];
      FromBECons(h, init);
      assert ([h] + t)[..|t|] == [h] + init;
      Scaled(h, Pow256(|init|), FromBE(init));
    }
  }

  lemma VarInRange(h: byte, t: seq<byte>)
    requires h < 64 && |t| in {0, 1, 3, 7}
    ensures FromBE([h] + t) < 0x4000_0000_0000_0000
  {
    FromBECons(h, t);
    Pow256Values();
    assert Pow256(7) * 256 == Pow256(8);
  }

  /** The most significant byte comes first. */
  lemma {:induction false} BECons(h: byte, m: nat, k: nat)
    requires m < Pow256(k)
    ensures BE(h * Pow256(k) + m, k + 1) == [h] + BE(m, k)
  {
    if k == 0 {
      assert BE(h / 256, 0) == [];
    } else {
      var n := h * Pow256(k) + m;
      Shifted(h, Pow256(k - 1), m);
      BECons(h, m / 256, k - 1);
      assert BE(n, k + 1) == BE(n / 256, k) + [n % 256];
      assert BE(m, k) == BE(m / 256, k - 1) + [m % 256];
    }
  }

  function Tag(k: nat): (t: byte)
    requires k in {1, 2, 4, 8}
  {
    if k == 1 then 0 else if k == 2 then 64 else if k == 4 then 128 else 192
  }

  /** A tag in the two top bits, then the integer in the others. */
  lemma TaggedBytes(x: VarInt)
    ensures var k := Size(x);
            && BE(x, k) != []
            && BE(x, k)[0] < 64
            && EncodeVar(x) == [Tag(k) + BE(x, k)[0]] + BE(x, k)[1..]
  {
    var k := Size(x);
    Pow256Values();
    assert Pow256(7) == 0x100_0000_0000_0000;
    var p := Pow256(k - 1);
    var h, m := x / p, x % p;
    assert x == h * p + m && h < 64;
    BECons(h, m, k - 1);
    BECons(Tag(k) + h, m, k - 1);
    assert (Tag(k) + h) * p + m == Tag(k) * p + x;
  }

  /** Decoding undoes encoding and leaves what follows. */
  lemma VarRoundTrip(x: VarInt, rest: seq<byte>)
    ensures DecodeVar(EncodeVar(x) + rest) == Some(Decoded(x, rest))
  {
    TaggedBytes(x);
    var k, s := Size(x), EncodeVar(x) + rest;
    var b := BE(x, k);
    assert LengthOf(s[0]) == k && s[0] % 64 == b[0];
    assert [s[0] % 64] + s[1..k] == b;
    assert x < Pow256(k) by {
      Pow256Values();
    }
    FromBEOfBE(x, k);
    assert s[k..] == rest;
  }

  /** Longer than minimal encodings are accepted; re-encoding gives the bytes read back exactly when
      they were minimal. */
  lemma VarReencodes(s: seq<byte>)
    requires DecodeVar(s).Some?
    ensures var d := DecodeVar(s).value;
            EncodeVar(d.value) + d.rest == s <==> Size(d.value) == LengthOf(s[0])
  {
    var d := DecodeVar(s).value;
    var k := LengthOf(s[0]);
    var b := [s[0] % 64] + s[1..k];
    if Size(d.value) == k {
      BEOfFromBE(b);
      TaggedBytes(d.value);
      assert EncodeVar(d.value) == s[..k];
    } else {
      assert |EncodeVar(d.value) + d.rest| != |s|;
    }
  }
}
