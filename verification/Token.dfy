/**
 Retry and address validation tokens (noq-proto/src/token.rs): their wire form under an abstract
 token key, and what presenting them to a server is worth.
 */
module Tokens {
  import opened Wrappers
  import opened Bytes
  import opened Net
  import opened TokenLogs

  const NANOS: nat := 1_000_000_000

  datatype Payload =
    | Retry(address: SocketAddr, origDstCid: ConnectionId, issued: int)
    | Validation(ip: IpAddr, issued: int)

  datatype Token = Token(payload: Payload, nonce: u128)

  /** Authenticated encryption of tokens, up to the one law the callers rely on. */
  datatype TokenKey = TokenKey(seal: (u128, seq<byte>) -> seq<byte>, open: (u128, seq<byte>) -> Option<seq<byte>>) {
    ghost predicate Lawful() {
      forall n: u128, plain: seq<byte> :: open(n, seal(n, plain)) == Some(plain)
    }
  }

  // ------------------------------------------------------------------ wire form

  function EncodeIp(ip: IpAddr): seq<byte> {
    match ip
    case V4(x) => [0] + BE(x, 4)
    case V6(x) => [1] + BE(x, 16)
  }

  function DecodeIp(s: seq<byte>): (r: Option<Decoded<IpAddr>>) {
    Pow256Values();
    if s == [] then None
    else if s[0] == 0 then
      var d := GetBE(s[1..], 4);
      if d.None? then None else Some(Decoded(V4(d.value.value), d.value.rest))
    else if s[0] == 1 then
      var d := GetBE(s[1..], 16);
      if d.None? then None else Some(Decoded(V6(d.value.value), d.value.rest))
    else None
  }

  lemma IpRoundTrip(ip: IpAddr, rest: seq<byte>)
    ensures DecodeIp(EncodeIp(ip) + rest) == Some(Decoded(ip, rest))
  {
    Pow256Values();
    match ip {
      case V4(x) =>
        assert (EncodeIp(ip) + rest)[1..] == BE(x, 4) + rest;
        GetBEOfBE(x, 4, rest);
      case V6(x) =>
        assert (EncodeIp(ip) + rest)[1..] == BE(x, 16) + rest;
        GetBEOfBE(x, 16, rest);
    }
  }

  function DecodeAddr(s: seq<byte>): (r: Option<Decoded<SocketAddr>>) {
    Pow256Values();
    var ip := DecodeIp(s);
    if ip.None? then None
    else
      var port := GetBE(ip.value.rest, 2);
      if port.None? then None
      else Some(Decoded(SocketAddr(ip.value.value, port.value.value), port.value.rest))
  }

  /** `issued` as the wire carries it: whole seconds, and nothing before the epoch. */
  function UnixSecs(issued: int): nat {
    if issued < 0 then 0 else issued / NANOS
  }

  /** What is left of the issue time after a trip over the wire. */
  function OnWire(p: Payload): Payload {
    p.(issued := UnixSecs(p.issued) * NANOS)
  }

  function Plain(p: Payload): seq<byte> {
    match p
    case Retry(address, cid, issued) =>
      [0] + (EncodeIp(address.ip) + (BE(address.port, 2) + (EncodeLongCid(cid) + BE(UnixSecs(issued), 8))))
    case Validation(ip, issued) =>
      [1] + (EncodeIp(ip) + BE(UnixSecs(issued), 8))
  }

  function DecodeIssued(s: seq<byte>): (r: Option<int>) {
    var secs := GetBE(s, 8);
    if secs.None? || secs.value.rest != [] then None else Some(secs.value.value * NANOS)
  }

  function DecodePlain(s: seq<byte>): (r: Option<Payload>) {
    if s == [] then None
    else if s[0] == 0 then
      var address := DecodeAddr(s[1..]);
      if address.None? then None
      else
        var cid := DecodeLongCid(address.value.rest);
        if cid.None? then None
        else
          var issued := DecodeIssued(cid.value.rest);
          if issued.None? then None
          else Some(Retry(address.value.value, cid.value.value, issued.value))
    else if s[0] == 1 then
      var ip := DecodeIp(s[1..]);
      if ip.None? then None
      else
        var issued := DecodeIssued(ip.value.rest);
        if issued.None? then None else Some(Validation(ip.value.value, issued.value))
    else None
  }

  function Reverse(s: seq<byte>): (r: seq<byte>)
    ensures |r| == |s| && forall i :: 0 <= i < |s| ==> r[i] == s[|s| - 1 - i]
  {
    if s == [] then [] else Reverse(s[1..]) + [s[0]]
  }

  lemma ReverseTwice(s: seq<byte>)
    ensures Reverse(Reverse(s)) == s
  {
  }

  /** The sealed payload followed by the nonce in little-endian order. */
  function Encode(key: TokenKey, t: Token): seq<byte> {
    key.seal(t.nonce, Plain(t.payload)) + Reverse(BE(t.nonce, 16))
  }

  function Decode(key: TokenKey, raw: seq<byte>): (r: Option<Token>) {
    if |raw| < 16 then None
    else
      Pow256Values();
      var nonce := FromBE(Reverse(raw[|raw| - 16..]));
      var plain := key.open(nonce, raw[..|raw| - 16]);
      if plain.None? then None
      else
        var payload := DecodePlain(plain.value);
        if payload.None? then None else Some(Token(payload.value, nonce))
  }

  lemma IssuedRoundTrip(secs: nat)
    requires secs < Pow256(8)
    ensures DecodeIssued(BE(secs, 8)) == Some(secs * NANOS)
  {
    GetBEOfBE(secs, 8, []);
    assert BE(secs, 8) + [] == BE(secs, 8);
  }

  lemma PlainRoundTrip(p: Payload)
    requires UnixSecs(p.issued) < Pow256(8)
    ensures DecodePlain(Plain(p)) == Some(OnWire(p))
  {
    IssuedRoundTrip(UnixSecs(p.issued));
    match p {
      case Retry(_, _, _) => RetryRoundTrip(p);
      case Validation(ip, _) =>
        var time := BE(UnixSecs(p.issued), 8);
        assert Plain(p)[1..] == EncodeIp(ip) + time;
        IpRoundTrip(ip, time);
    }
  }

  lemma AddrRoundTrip(a: SocketAddr, rest: seq<byte>)
    ensures DecodeAddr(EncodeIp(a.ip) + (BE(a.port, 2) + rest)) == Some(Decoded(a, rest))
  {
    Pow256Values();
    IpRoundTrip(a.ip, BE(a.port, 2) + rest);
    GetBEOfBE(a.port, 2, rest);
  }

  lemma RetryRoundTrip(p: Payload)
    requires p.Retry? && DecodeIssued(BE(UnixSecs(p.issued), 8)) == Some(UnixSecs(p.issued) * NANOS)
    ensures DecodePlain(Plain(p)) == Some(OnWire(p))
  {
    var time := BE(UnixSecs(p.issued), 8);
    var afterPort := EncodeLongCid(p.origDstCid) + time;
    assert Plain(p)[1..] == EncodeIp(p.address.ip) + (BE(p.address.port, 2) + afterPort);
    AddrRoundTrip(p.address, afterPort);
    LongCidRoundTrip(p.origDstCid, time);
  }

  /** Decoding undoes encoding, up to the truncation of the issue time. */
  lemma TokenRoundTrip(key: TokenKey, t: Token)
    requires key.Lawful() && UnixSecs(t.payload.issued) < Pow256(8)
    ensures Decode(key, Encode(key, t)) == Some(t.(payload := OnWire(t.payload)))
  {
    var nonce := Reverse(BE(t.nonce, 16));
    var sealed := key.seal(t.nonce, Plain(t.payload));
    var raw := Encode(key, t);
    assert raw[|raw| - 16..] == nonce;
    assert raw[..|raw| - 16] == sealed;
    ReverseTwice(BE(t.nonce, 16));
    Pow256Values();
    FromBEOfBE(t.nonce, 16);
    PlainRoundTrip(t.payload);
  }

  /** The token itself comes back exactly when its issue time is a whole, non-negative number of
      seconds since the epoch. */
  lemma TokenRoundTripExact(key: TokenKey, t: Token)
    requires key.Lawful() && UnixSecs(t.payload.issued) < Pow256(8)
    ensures Decode(key, Encode(key, t)) == Some(t) <==> t.payload.issued >= 0 && t.payload.issued % NANOS == 0
  {
    TokenRoundTrip(key, t);
    var issued := t.payload.issued;
    assert OnWire(t.payload) == t.payload <==> UnixSecs(issued) * NANOS == issued;
  }

  // ------------------------------------------------------------------ presenting a token

  datatype ServerConfig = ServerConfig(key: TokenKey, retryLifetime: nat, validationLifetime: nat, hash: Hasher)

  /** What a server reads when an Initial packet arrives. */
  datatype Arrival = Arrival(token: seq<byte>, dstCid: ConnectionId, remote: SocketAddr, now: int, overflow: bool)

  datatype IncomingToken = IncomingToken(retrySrcCid: Option<ConnectionId>, origDstCid: ConnectionId, validated: bool)

  datatype InvalidRetryToken = InvalidRetryToken

  ghost function FromHeader(config: ServerConfig, log: Log, a: Arrival)
    : (Log, Result<IncomingToken, InvalidRetryToken>)
  {
    var unvalidated := IncomingToken(None, a.dstCid, false);
    if a.token == [] then (log, Ok(unvalidated))
    else
      match Decode(config.key, a.token)
      case None => (log, Ok(unvalidated))
      case Some(Token(Retry(address, orig, issued), _)) =>
        if address != a.remote then (log, Err(InvalidRetryToken))
        else if issued + config.retryLifetime < a.now then (log, Err(InvalidRetryToken))
        else (log, Ok(IncomingToken(Some(a.dstCid), orig, true)))
      case Some(Token(Validation(ip, issued), nonce)) =>
        if ip != a.remote.ip then (log, Ok(unvalidated))
        else if issued + config.validationLifetime < a.now then (log, Ok(unvalidated))
        else
          var (log', ok) := CheckSpec(log, config.hash, config.validationLifetime, nonce, issued, a.overflow);
          (log', Ok(if ok then IncomingToken(None, a.dstCid, true) else unvalidated))
  }

  /** `IncomingToken::from_header`, with the log it consults. */
  method Present(config: ServerConfig, log: BloomTokenLog, a: Arrival, capacity: nat)
    returns (r: Result<IncomingToken, InvalidRetryToken>)
    requires log.hash == config.hash && a.overflow == (capacity * 8 > log.filterMaxBytes)
    modifies log
    ensures (log.View(), r) == FromHeader(config, old(log.View()), a)
  {
    hide CheckSpec, Decode;
    var unvalidated := IncomingToken(None, a.dstCid, false);
    if a.token == [] {
      return Ok(unvalidated);
    }
    var token := Decode(config.key, a.token);
    if token.None? {
      return Ok(unvalidated);
    }
    match token.value.payload {
      case Retry(address, orig, issued) =>
        if address != a.remote || issued + config.retryLifetime < a.now {
          return Err(InvalidRetryToken);
        }
        return Ok(IncomingToken(Some(a.dstCid), orig, true));
      case Validation(ip, issued) =>
        if ip != a.remote.ip || issued + config.validationLifetime < a.now {
          return Ok(unvalidated);
        }
        var unused := log.CheckAndInsert(token.value.nonce, issued, config.validationLifetime, capacity);
        if !unused {
          return Ok(unvalidated);
        }
        return Ok(IncomingToken(None, a.dstCid, true));
    }
  }

  ghost function LogAt(config: ServerConfig, arrivals: seq<Arrival>, n: nat): Log
    requires n <= |arrivals|
  {
    if n == 0 then INITIAL else FromHeader(config, LogAt(config, arrivals, n - 1), arrivals[n - 1]).0
  }

  ghost predicate Validated(config: ServerConfig, arrivals: seq<Arrival>, i: nat)
    requires i < |arrivals|
  {
    var r := FromHeader(config, LogAt(config, arrivals, i), arrivals[i]).1;
    r.Ok? && r.value.validated
  }

  ghost predicate IsValidationToken(config: ServerConfig, raw: seq<byte>) {
    raw != [] && Decode(config.key, raw).Some? && Decode(config.key, raw).value.payload.Validation?
  }

  ghost function ToKey(config: ServerConfig, raw: seq<byte>): Key
    requires IsValidationToken(config, raw)
  {
    var t := Decode(config.key, raw).value;
    KeyOf(Use(t.nonce, t.payload.issued, false), config.validationLifetime)
  }

  lemma {:induction false} ValidatedStaysRemembered(config: ServerConfig, arrivals: seq<Arrival>, i: nat, n: nat)
    requires config.validationLifetime > 0 && i < n <= |arrivals|
    requires IsValidationToken(config, arrivals[i].token) && Validated(config, arrivals, i)
    ensures Remembered(LogAt(config, arrivals, n), config.hash, config.validationLifetime, ToKey(config, arrivals[i].token))
    decreases n
  {
    hide Decode, CheckSpec, Remembered;
    var a, s := arrivals[n - 1], LogAt(config, arrivals, n - 1);
    if IsValidationToken(config, a.token) {
      var t := Decode(config.key, a.token).value;
      StepRemembers(s, config.hash, config.validationLifetime, Use(t.nonce, t.payload.issued, a.overflow));
    }
    if i < n - 1 {
      ValidatedStaysRemembered(config, arrivals, i, n - 1);
    }
  }

  /** A log without a lifetime accepts nothing. */
  lemma NoLifetime(log: Log, hash: Hasher, nonce: u128, issued: int, overflow: bool)
    ensures !CheckSpec(log, hash, 0, nonce, issued, overflow).1
  {
  }

  /** Over any run of arriving packets, a NEW_TOKEN token validates an address at most once, under
      whatever bytes, addresses and times it is presented: what counts is its nonce and issue time. */
  lemma ValidatesAtMostOnce(config: ServerConfig, arrivals: seq<Arrival>, i: nat, j: nat)
    requires i < j < |arrivals|
    requires IsValidationToken(config, arrivals[i].token) && IsValidationToken(config, arrivals[j].token)
    requires var (t, u) := (Decode(config.key, arrivals[i].token).value, Decode(config.key, arrivals[j].token).value);
             t.nonce == u.nonce && t.payload.issued == u.payload.issued
    ensures !(Validated(config, arrivals, i) && Validated(config, arrivals, j))
  {
    hide Decode, CheckSpec, Remembered;
    var a := arrivals[j];
    var t, log := Decode(config.key, a.token).value, LogAt(config, arrivals, j);
    if config.validationLifetime == 0 {
      NoLifetime(log, config.hash, t.nonce, t.payload.issued, a.overflow);
    } else if Validated(config, arrivals, i) {
      ValidatedStaysRemembered(config, arrivals, i, j);
      StepRemembers(log, config.hash, config.validationLifetime, Use(t.nonce, t.payload.issued, a.overflow));
    }
  }

  /** A validated address is always backed: by an unexpired Retry token for this very address, or by
      an unexpired NEW_TOKEN token for this IP. */
  lemma ValidatedIsBacked(config: ServerConfig, log: Log, a: Arrival)
    ensures var r := FromHeader(config, log, a).1;
            r.Ok? && r.value.validated ==>
              && Decode(config.key, a.token).Some?
              && match Decode(config.key, a.token).value.payload {
                   case Retry(address, orig, issued) =>
                     address == a.remote && a.now <= issued + config.retryLifetime && r.value.origDstCid == orig
                   case Validation(ip, issued) =>
                     ip == a.remote.ip && a.now <= issued + config.validationLifetime && r.value.origDstCid == a.dstCid
                 }
  {
  }
}
