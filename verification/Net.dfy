/** Integers of the wire format, IP addresses and connection IDs. */
module Net {
  import opened Wrappers
  import opened Bytes

  type u16 = n: nat | n < 0x1_0000
  type u32 = n: nat | n < 0x1_0000_0000
  type u64 = n: nat | n < 0x1_0000_0000_0000_0000
  type u128 = n: nat | n < 0x1_0000_0000_0000_0000_0000_0000_0000_0000

  /** The largest value of a variable-length integer. */
  const MAX_VARINT: nat := 0x3fff_ffff_ffff_ffff

  function SaturatingAdd(x: nat, y: nat): (r: nat)
    requires x <= MAX_VARINT && y <= MAX_VARINT
    ensures r <= MAX_VARINT && (r == x + y || (r == MAX_VARINT && x + y > MAX_VARINT))
  {
    if x + y <= MAX_VARINT then x + y else MAX_VARINT
  }

  const MAX_CID_SIZE: nat := 20
  const RESET_TOKEN_SIZE: nat := 16

  /** A connection ID as the bytes it carries. */
  type ConnectionId = s: seq<byte> | |s| <= 20

  type ResetToken = s: seq<byte> | |s| == 16 witness seq(16, _ => 0)

  /** An IP address as the integer its octets spell in network order. */
  datatype IpAddr = V4(v4: u32) | V6(v6: u128)

  datatype SocketAddr = SocketAddr(ip: IpAddr, port: u16)

  /** Length, then bytes, as in long headers. */
  function EncodeLongCid(cid: ConnectionId): seq<byte> {
    [|cid|] + cid
  }

  function DecodeLongCid(s: seq<byte>): (r: Option<Decoded<ConnectionId>>) {
    if s == [] || s[0] > MAX_CID_SIZE || |s| - 1 < s[0] then None
    else Some(Decoded(s[1..1 + s[0]], s[1 + s[0]..]))
  }

  lemma LongCidRoundTrip(cid: ConnectionId, rest: seq<byte>)
    ensures DecodeLongCid(EncodeLongCid(cid) + rest) == Some(Decoded(cid, rest))
  {
    var s := EncodeLongCid(cid) + rest;
    assert s[1..1 + |cid|] == cid;
    assert s[1 + |cid|..] == rest;
  }
}
