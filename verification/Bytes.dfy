/** Byte strings and fixed-width big-endian integers (noq-proto/src/coding.rs). */
module Bytes {
  import opened Wrappers

  type byte = n: int | 0 <= n < 256

  /** A decoded value and the input that is left. */
  datatype Decoded<+T> = Decoded(value: T, rest: seq<byte>)

  function Pow256(k: nat): (r: nat)
    ensures r > 0
  {
    if k == 0 then 1 else 256 * Pow256(k - 1)
  }

  /** The low `8 * k` bits of `n`, most significant byte first. */
  function BE(n: nat, k: nat): (s: seq<byte>)
    ensures |s| == k
  {
    if k == 0 then [] else BE(n / 256, k - 1) + [n % 256]
  }

  function FromBE(s: seq<byte>): (n: nat)
    ensures n < Pow256(|s|)
  {
    if s == [] then 0 else FromBE(s[..|s| - 1]) * 256 + s[|s| - 1]
  }

  lemma {:induction false} FromBEOfBE(n: nat, k: nat)
    requires n < Pow256(k)
    ensures FromBE(BE(n, k)) == n
  {
    if k > 0 {
      FromBEOfBE(n / 256, k - 1);
      assert BE(n, k)[..k - 1] == BE(n / 256, k - 1);
    }
  }

  lemma {:induction false} BEOfFromBE(s: seq<byte>)
    ensures BE(FromBE(s), |s|) == s
  {
    if s != [] {
      var init, last := s[..|s| - 1], s[|s| - 1];
      BEOfFromBE(init);
      assert FromBE(s) / 256 == FromBE(init) && FromBE(s) % 256 == last;
      assert s == init + [last];
    }
  }

  /** `put_uint` then `get_uint`: an integer that fits comes back, with the input after it. */
  function GetBE(s: seq<byte>, k: nat): (r: Option<Decoded<nat>>)
    ensures r.Some? <==> |s| >= k
    ensures r.Some? ==> r.value.rest == s[k..] && r.value.value < Pow256(k)
  {
    if |s| < k then None else Some(Decoded(FromBE(s[..k]), s[k..]))
  }

  lemma GetBEOfBE(n: nat, k: nat, rest: seq<byte>)
    requires n < Pow256(k)
    ensures GetBE(BE(n, k) + rest, k) == Some(Decoded(n, rest))
  {
    FromBEOfBE(n, k);
    assert (BE(n, k) + rest)[..k] == BE(n, k);
    assert (BE(n, k) + rest)[k..] == rest;
  }

  /** `n` bytes off the front. */
  function Take(s: seq<byte>, n: nat): (r: Option<Decoded<seq<byte>>>)
    ensures r.Some? <==> |s| >= n
  {
    if |s| < n then None else Some(Decoded(s[..n], s[n..]))
  }

  lemma TakeOfConcat(a: seq<byte>, rest: seq<byte>)
    ensures Take(a + rest, |a|) == Some(Decoded(a, rest))
  {
    assert (a + rest)[..|a|] == a;
    assert (a + rest)[|a|..] == rest;
  }

  lemma Pow256Values()
    ensures Pow256(1) == 0x100 && Pow256(2) == 0x1_0000 && Pow256(3) == 0x100_0000
    ensures Pow256(4) == 0x1_0000_0000
    ensures Pow256(8) == 0x1_0000_0000_0000_0000
    ensures Pow256(16) == 0x1_0000_0000_0000_0000_0000_0000_0000_0000
  {
    assert Pow256(8) == Pow256(4) * 0x1_0000_0000;
    assert Pow256(12) == Pow256(8) * 0x1_0000_0000;
    assert Pow256(16) == Pow256(12) * 0x1_0000_0000;
  }

  lemma Assoc3(a: seq<byte>, b: seq<byte>, c: seq<byte>)
    ensures (a + b) + c == a + (b + c)
  {
  }

  lemma Assoc4(a: seq<byte>, b: seq<byte>, c: seq<byte>, d: seq<byte>)
    ensures ((a + b) + c) + d == a + (b + (c + d))
    ensures (a + (b + c)) + d == a + (b + (c + d))
  {
  }
}
