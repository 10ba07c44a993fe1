/** Truncated packet numbers (noq-proto/src/packet.rs), section 17.1 and appendix A of RFC 9000. */
module PacketNumbers {
  import opened Wrappers
  import opened Bytes
  import opened Net

  /** A `U24` holds 32 bits until it is written. */
  datatype PacketNumber = U8(x8: byte) | U16(x16: u16) | U24(x24: u32) | U32(x32: u32) {
    function Value(): u32 {
      match this
      case U8(x) => x
      case U16(x) => x
      case U24(x) => x
      case U32(x) => x
    }

    function Len(): (k: nat)
      ensures 1 <= k <= 4
    {
      match this
      case U8(_) => 1
      case U16(_) => 2
      case U24(_) => 3
      case U32(_) => 4
    }

    function Tag(): nat {
      match this
      case U8(_) => 0
      case U16(_) => 1
      case U24(_) => 2
      case U32(_) => 3
    }

    /** Number of values of this width. */
    function Win(): nat {
      match this
      case U8(_) => 0x100
      case U16(_) => 0x1_0000
      case U24(_) => 0x100_0000
      case U32(_) => 0x1_0000_0000
    }
  }

  /** The gap to the largest acknowledged number fits in half a window of some width. */
  predicate Encodable(n: u64, largestAcked: u64) {
    largestAcked <= n && (n - largestAcked) * 2 < 0x1_0000_0000
  }

  function New(n: u64, largestAcked: u64): PacketNumber
    requires Encodable(n, largestAcked)
  {
    var range := (n - largestAcked) * 2;
    if range < 0x100 then U8(n % 0x100)
    else if range < 0x1_0000 then U16(n % 0x1_0000)
    else if range < 0x100_0000 then U24(n % 0x1_0000_0000)
    else U32(n % 0x1_0000_0000)
  }

  /** The width sent is the least that holds twice the distance from what was acknowledged, and the bits
      sent are the low ones. */
  lemma NewIsShortest(n: u64, largestAcked: u64, k: nat)
    requires Encodable(n, largestAcked)
    ensures var pn := New(n, largestAcked);
            && (n - largestAcked) * 2 < Pow256(pn.Len())
            && (1 <= k && (n - largestAcked) * 2 < Pow256(k) ==> pn.Len() <= k)
            && pn.Value() % pn.Win() == n % pn.Win()
  {
    Pow256Values();
    if 1 <= k < 4 {
      assert Pow256(k) in {Pow256(1), Pow256(2), Pow256(3)};
    }
  }

  function EncodeNumber(pn: PacketNumber): (s: seq<byte>)
    ensures |s| == pn.Len()
  {
    BE(pn.Value(), pn.Len())
  }

  function DecodeNumber(len: nat, s: seq<byte>): (r: Option<Decoded<PacketNumber>>)
    requires 1 <= len <= 4
  {
    if |s| < len then None
    else
      var x := FromBE(s[..len]);
      Fits(s[..len]);
      Some(Decoded(if len == 1 then U8(x) else if len == 2 then U16(x) else if len == 3 then U24(x) else U32(x), s[len..]))
  }

  lemma Fits(s: seq<byte>)
    requires 1 <= |s| <= 4
    ensures FromBE(s) < 0x1_0000_0000
    ensures |s| == 1 ==> FromBE(s) < 0x100
    ensures |s| == 2 ==> FromBE(s) < 0x1_0000
    ensures |s| == 3 ==> FromBE(s) < 0x100_0000
  {
    Pow256Values();
  }

  /** What the peer reads: the low bits that fit the width. */
  function Wire(pn: PacketNumber): (r: PacketNumber)
    ensures r.Len() == pn.Len() && r.Value() < r.Win()
  {
    match pn
    case U24(x) => U24(x % 0x100_0000)
    case _ => pn
  }

  lemma BEThree(x: nat)
    ensures BE(x, 3) == [x / 256 / 256 % 256, x / 256 % 256, x % 256]
  {
    assert BE(x / 256 / 256, 1) == BE(x / 256 / 256 / 256, 0) + [x / 256 / 256 % 256] == [x / 256 / 256 % 256];
    assert BE(x / 256, 2) == BE(x / 256 / 256, 1) + [x / 256 % 256];
  }

  /** A number below 2^24 and its digits. */
  lemma ThreeDigits(a: nat, b: nat, c: nat)
    requires a < 256 && b < 256 && c < 256
    ensures var y := (c * 256 + b) * 256 + a; y < 0x100_0000 && y % 256 == a && y / 256 % 256 == b && y / 256 / 256 % 256 == c
  {
    var y := (c * 256 + b) * 256 + a;
    assert y / 256 == c * 256 + b;
  }

  lemma LowDigits(x: nat, y: nat, d: nat)
    requires y < 0x100_0000 && x == d * 0x100_0000 + y
    ensures x % 0x100_0000 == y
  {
  }

  lemma ThreeBytes(x: nat)
    ensures BE(x, 3) == BE(x % 0x100_0000, 3)
  {
    hide BE;
    var a, b, c, d := x % 256, x / 256 % 256, x / 256 / 256 % 256, x / 256 / 256 / 256;
    var y := (c * 256 + b) * 256 + a;
    ThreeDigits(a, b, c);
    assert x / 256 / 256 == d * 256 + c && x / 256 == (d * 256 + c) * 256 + b && x == ((d * 256 + c) * 256 + b) * 256 + a;
    LowDigits(x, y, d);
    BEThree(x);
    BEThree(y);
  }

  lemma MulBounds(a: int, p: int)
    requires p >= 0
    ensures a >= 1 ==> a * p >= p
    ensures a <= -1 ==> a * p <= -p
  {
  }

  lemma ModAdd(q: nat, p: nat, r: nat)
    requires r < p
    ensures (q * p + r) % p == r
  {
    var n := q * p + r;
    var d := n / p;
    assert (d - q) * p == d * p - q * p;
    MulBounds(d - q, p);
  }

  lemma NumberRoundTrip(pn: PacketNumber, rest: seq<byte>)
    ensures DecodeNumber(pn.Len(), EncodeNumber(pn) + rest) == Some(Decoded(Wire(pn), rest))
  {
    var k, s := pn.Len(), EncodeNumber(pn) + rest;
    assert s[..k] == EncodeNumber(pn) && s[k..] == rest;
    Pow256Values();
    ThreeBytes(pn.Value());
    FromBEOfBE(Wire(pn).Value(), k);
  }

  /** The candidate with the bits of `expected` above the window, moved into the window around it. */
  function Expand(pn: PacketNumber, expected: u64): nat
    requires pn.Value() < pn.Win()
  {
    ExpandIn(pn.Win(), pn.Value(), expected)
  }

  function ExpandIn(win: nat, truncated: nat, expected: nat): nat
    requires 0 < win
  {
    var hwin := win / 2;
    var candidate := expected - expected % win + truncated;
    if hwin <= expected && candidate <= expected - hwin then candidate + win
    else if candidate > expected + hwin && candidate > win then candidate - win
    else candidate
  }

  /** Numbers that come back from their low bits: a window of `win` numbers around `expected`, or the
      first `win` numbers when that window would start below zero. */
  predicate InWindow(win: nat, n: nat, expected: nat) {
    var hwin := win / 2;
    if expected < hwin then n < win else expected - hwin < n <= expected + hwin
  }

  lemma WholeWindows(win: nat, a: nat, b: nat)
    requires 0 < win && a % win == b % win
    ensures a == b || a >= b + win || b >= a + win
  {
    var i, j := a / win, b / win;
    assert a == i * win + a % win && b == j * win + b % win;
    assert (i - j) * win == i * win - j * win;
    MulBounds(i - j, win);
  }

  lemma CandidateMod(win: nat, truncated: nat, expected: nat)
    requires truncated < win
    ensures var c := expected - expected % win + truncated;
            c % win == truncated && (c + win) % win == truncated && (c >= win ==> (c - win) % win == truncated)
  {
    var q := expected / win;
    var c := q * win + truncated;
    assert expected == q * win + expected % win;
    ModAdd(q, win, truncated);
    assert c + win == (q + 1) * win + truncated;
    ModAdd(q + 1, win, truncated);
    if q > 0 {
      assert c - win == (q - 1) * win + truncated;
      ModAdd(q - 1, win, truncated);
    }
  }

  /** Expansion gives back a number if and only if it lies in the window. */
  lemma ExpandExact(win: nat, n: nat, expected: nat)
    requires 0 < win && win % 2 == 0
    ensures ExpandIn(win, n % win, expected) == n <==> InWindow(win, n, expected)
  {
    var t, hwin := n % win, win / 2;
    var c, r := expected - expected % win + t, ExpandIn(win, t, expected);
    CandidateMod(win, t, expected);
    assert r % win == t;
    WholeWindows(win, r, n);
    if expected < hwin {
      assert expected < win;
      SmallMod(win, expected);
      assert r == t;
    }
  }

  lemma SmallMod(win: nat, x: nat)
    requires x < win
    ensures x % win == x
  {
  }

  lemma WireKeepsLowBits(n: u64, largestAcked: u64)
    requires Encodable(n, largestAcked)
    ensures var pn := New(n, largestAcked); Wire(pn).Value() == n % pn.Win() && Wire(pn).Win() == pn.Win()
  {
    assert (n % 0x1_0000_0000) % 0x100_0000 == n % 0x100_0000;
  }

  /** Expansion of what the peer reads, if and only if the number is in the window. */
  lemma ExpandWire(n: u64, largestAcked: u64, expected: u64)
    requires Encodable(n, largestAcked)
    ensures var pn := New(n, largestAcked);
            Expand(Wire(pn), expected) == n <==> InWindow(pn.Win(), n, expected)
  {
    WireKeepsLowBits(n, largestAcked);
    ExpandExact(New(n, largestAcked).Win(), n, expected);
  }

  /** Sender and receiver: the receiver gets `n` back from the bytes written for it, if and only if
      what it expects puts `n` in the window of the chosen width. */
  lemma NumberSurvivesTheWire(n: u64, largestAcked: u64, expected: u64, rest: seq<byte>)
    requires Encodable(n, largestAcked)
    ensures var pn := New(n, largestAcked);
            var d := DecodeNumber(pn.Len(), EncodeNumber(pn) + rest);
            && d == Some(Decoded(Wire(pn), rest))
            && (Expand(Wire(pn), expected) == n <==> InWindow(pn.Win(), n, expected))
  {
    NumberRoundTrip(New(n, largestAcked), rest);
    ExpandWire(n, largestAcked, expected);
  }

  /** A receiver that has seen what was acknowledged, and is less than half a window past `n`, gets
      `n` back. */
  lemma AcknowledgedReceiverRecovers(n: u64, largestAcked: u64, expected: u64)
    requires Encodable(n, largestAcked) && largestAcked <= expected
    requires expected < n + New(n, largestAcked).Win() / 2
    ensures Expand(Wire(New(n, largestAcked)), expected) == n
  {
    ExpandWire(n, largestAcked, expected);
  }

  /** Below 2^62 no intermediate sum leaves 64 bits. */
  lemma NoOverflow(pn: PacketNumber, expected: u64)
    requires pn.Value() < pn.Win() && expected < 0x4000_0000_0000_0000
    ensures expected + pn.Win() / 2 < 0x1_0000_0000_0000_0000
    ensures expected - expected % pn.Win() + pn.Value() + pn.Win() < 0x1_0000_0000_0000_0000
  {
  }
}
