/**
 What both sides of the NAT traversal protocol share (noq-proto/src/n0_nat_traversal.rs): addresses
 in canonical form, used between peers, and in the form the local socket uses; probe states; the
 REACH_OUT frame.
 */
module NatCommon {
  import opened Wrappers
  import opened Net

  /** ::ffff:0:0/96, the IPv6 addresses that stand for IPv4 ones. */
  const MAPPED: nat := 0xffff

  predicate IsMapped(x: u128) {
    x / 0x1_0000_0000 == MAPPED
  }

  function ToIpv6Mapped(x: u32): u128 {
    MAPPED * 0x1_0000_0000 + x
  }

  function ToCanonicalIp(ip: IpAddr): IpAddr {
    match ip
    case V6(x) => if IsMapped(x) then V4(x % 0x1_0000_0000) else ip
    case V4(_) => ip
  }

  function ToCanonical(a: SocketAddr): SocketAddr {
    SocketAddr(ToCanonicalIp(a.ip), a.port)
  }

  predicate IsCanonical(a: SocketAddr) {
    a.ip.V6? ==> !IsMapped(a.ip.v6)
  }

  /** The address as the local socket names it, unless the socket cannot reach it. */
  function ToLocalIp(ip: IpAddr, ipv6: bool): Option<IpAddr> {
    match ip
    case V4(x) => if ipv6 then Some(V6(ToIpv6Mapped(x))) else Some(ip)
    case V6(x) =>
      if ipv6 then Some(ip)
      else if IsMapped(x) then Some(V4(x % 0x1_0000_0000))
      else None
  }

  function ToLocal(a: SocketAddr, ipv6: bool): (r: Option<SocketAddr>)
    ensures r.Some? ==> (ipv6 <==> r.value.ip.V6?)
  {
    var ip := ToLocalIp(a.ip, ipv6);
    if ip.None? then None else Some(SocketAddr(ip.value, a.port))
  }

  /** Canonicalising undoes the mapping to the local socket's family, whichever that is; hence the
      mapping loses nothing.  An address is unreachable only for an IPv4 socket and a proper IPv6
      address. */
  lemma CanonicalUndoesLocal(a: SocketAddr, ipv6: bool)
    ensures IsCanonical(ToCanonical(a))
    ensures IsCanonical(a) && ToLocal(a, ipv6).Some? ==> ToCanonical(ToLocal(a, ipv6).value) == a
    ensures IsCanonical(a) ==> (ToLocal(a, ipv6).None? <==> a.ip.V6? && !ipv6)
  {
    match a.ip {
      case V4(x) =>
        assert (MAPPED * 0x1_0000_0000 + x) / 0x1_0000_0000 == MAPPED;
        assert (MAPPED * 0x1_0000_0000 + x) % 0x1_0000_0000 == x;
      case V6(_) =>
    }
  }

  /** Where a counter of variable-length integers stands after `n` steps. */
  function Capped(n: nat): nat {
    if n <= MAX_VARINT then n else MAX_VARINT
  }

  datatype Error = TooManyAddresses | NotEnoughAddresses

  datatype ReachOut = ReachOut(round: nat, addr: SocketAddr)

  const MAX_NAT_PROBE_ATTEMPTS: nat := 10

  /** Retries left for a remote, or the fact that it answered. */
  datatype Probe = Active(remaining: nat) | Succeeded

  predicate Due(p: Probe) {
    p.Active? && p.remaining > 0
  }

  function Tick(p: Probe): Probe {
    if Due(p) then Active(p.remaining - 1) else p
  }
}
