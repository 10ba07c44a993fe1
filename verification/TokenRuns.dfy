/**
 What presenting a token is worth (noq-proto/src/token.rs:115-189), in both directions: which tokens
 are accepted, with which result, and that a fresh token for the right address always is.
 */
module TokenRuns {
  import opened Wrappers
  import opened Bytes
  import opened Net
  import opened TokenLogs
  import opened Tokens

  /** The whole second, since the epoch, in which a token was issued; this is what its bytes carry. */
  function IssuedAt(issued: int): nat {
    UnixSecs(issued) * NANOS
  }

  lemma EncodedIsNotEmpty(key: TokenKey, t: Token)
    ensures Encode(key, t) != []
  {
    assert |Reverse(BE(t.nonce, 16))| == 16;
  }

  /** A Retry token presented by the address it was sent to, while it lasts, validates that address and
      recovers both connection IDs; from any other address, or later, it is an error.  The log is not
      touched either way. */
  lemma RetryTokenIsWorth(config: ServerConfig, log: Log, a: Arrival, address: SocketAddr, orig: ConnectionId, issued: int, nonce: u128)
    requires config.key.Lawful() && UnixSecs(issued) < Pow256(8)
    requires a.token == Encode(config.key, Token(Retry(address, orig, issued), nonce))
    ensures FromHeader(config, log, a) ==
            (log, if address == a.remote && a.now <= IssuedAt(issued) + config.retryLifetime
                  then Ok(IncomingToken(Some(a.dstCid), orig, true))
                  else Err(InvalidRetryToken))
  {
    TokenRoundTrip(config.key, Token(Retry(address, orig, issued), nonce));
    EncodedIsNotEmpty(config.key, Token(Retry(address, orig, issued), nonce));
    hide Decode, Encode, CheckSpec;
  }

  /** A NEW_TOKEN token presented by the IP address it was sent to, while it lasts, validates it if and
      only if the log lets it through, and is recorded there; from any other address, or later, it
      is ignored.  It never is an error. */
  lemma ValidationTokenIsWorth(config: ServerConfig, log: Log, a: Arrival, ip: IpAddr, issued: int, nonce: u128)
    requires config.key.Lawful() && UnixSecs(issued) < Pow256(8)
    requires a.token == Encode(config.key, Token(Validation(ip, issued), nonce))
    ensures var fits := ip == a.remote.ip && a.now <= IssuedAt(issued) + config.validationLifetime;
            var (log', fresh') := CheckSpec(log, config.hash, config.validationLifetime, nonce, IssuedAt(issued), a.overflow);
            FromHeader(config, log, a) ==
            if fits then (log', Ok(IncomingToken(None, a.dstCid, fresh'))) else (log, Ok(IncomingToken(None, a.dstCid, false)))
  {
    TokenRoundTrip(config.key, Token(Validation(ip, issued), nonce));
    EncodedIsNotEmpty(config.key, Token(Validation(ip, issued), nonce));
    hide Decode, Encode, CheckSpec;
  }

  /** Presenting bytes is an error if and only if they are a Retry token for another address or out of
      date; bytes that are no token count as none. */
  lemma ErrorIff(config: ServerConfig, log: Log, a: Arrival)
    ensures var r := FromHeader(config, log, a).1;
            var t := Decode(config.key, a.token);
            && (r.Err? <==>
                  && a.token != [] && t.Some? && t.value.payload.Retry?
                  && (t.value.payload.address != a.remote || t.value.payload.issued + config.retryLifetime < a.now))
            && (a.token == [] || t.None? ==> FromHeader(config, log, a) == (log, Ok(IncomingToken(None, a.dstCid, false))))
  {
    hide Decode, CheckSpec;
  }

  // ------------------------------------------------------------------ runs

  /** The token makes the server consult its log. */
  ghost predicate Consults(config: ServerConfig, a: Arrival) {
    && IsValidationToken(config, a.token)
    && var p := Decode(config.key, a.token).value.payload;
    p.ip == a.remote.ip && a.now <= p.issued + config.validationLifetime
  }

  ghost function UseOf(config: ServerConfig, a: Arrival): Use
    requires Consults(config, a)
  {
    var t := Decode(config.key, a.token).value;
    Use(t.nonce, t.payload.issued, a.overflow)
  }

  /** The uses of the log that the first `n` arrivals make. */
  ghost function UsesOf(config: ServerConfig, arrivals: seq<Arrival>, n: nat): seq<Use>
    requires n <= |arrivals|
  {
    if n == 0 then []
    else UsesOf(config, arrivals, n - 1) + if Consults(config, arrivals[n - 1]) then [UseOf(config, arrivals[n - 1])] else []
  }

  lemma {:induction false} StatePrefix(hash: Hasher, lifetime: nat, uses: seq<Use>, more: seq<Use>, n: nat)
    requires n <= |uses|
    ensures StateAt(hash, lifetime, uses + more, n) == StateAt(hash, lifetime, uses, n)
    ensures LedgerAt(lifetime, uses + more, n) == LedgerAt(lifetime, uses, n)
    decreases n
  {
    hide Step, LedgerStep;
    if n > 0 {
      StatePrefix(hash, lifetime, uses, more, n - 1);
    }
  }

  /** The log after some arrivals is the log after the uses they make. */
  lemma {:induction false} LogIsStateOfUses(config: ServerConfig, arrivals: seq<Arrival>, n: nat)
    requires n <= |arrivals|
    ensures var uses := UsesOf(config, arrivals, n);
            LogAt(config, arrivals, n) == StateAt(config.hash, config.validationLifetime, uses, |uses|)
    decreases n
  {
    hide CheckSpec, Decode;
    if n > 0 {
      LogIsStateOfUses(config, arrivals, n - 1);
      var uses, a := UsesOf(config, arrivals, n - 1), arrivals[n - 1];
      if Consults(config, a) {
        StatePrefix(config.hash, config.validationLifetime, uses, [UseOf(config, a)], |uses|);
        assert (uses + [UseOf(config, a)])[|uses|] == UseOf(config, a);
      } else {
        assert uses + [] == uses;
      }
    }
  }

  /** Over any run of arriving packets in which no set overflows, a NEW_TOKEN token that is presented by
      its IP address while it lasts validates that address if and only if an exact ledger of the
      tokens used before says it is unused: not older than the ledger reaches, and no token with its
      fingerprint used in its period. */
  lemma UnusedTokensValidate(
    config: ServerConfig, arrivals: seq<Arrival>, i: nat, ip: IpAddr, issued: int, nonce: u128)
    requires config.key.Lawful() && UnixSecs(issued) < Pow256(8) && config.validationLifetime > 0
    requires i < |arrivals| && (forall j :: 0 <= j <= i ==> !arrivals[j].overflow)
    requires arrivals[i].token == Encode(config.key, Token(Validation(ip, issued), nonce))
    requires ip == arrivals[i].remote.ip && arrivals[i].now <= IssuedAt(issued) + config.validationLifetime
    ensures var l := LedgerAt(config.validationLifetime, UsesOf(config, arrivals, i), |UsesOf(config, arrivals, i)|);
            var k := Key(Fingerprint(nonce), IssuedAt(issued) + config.validationLifetime);
            Validated(config, arrivals, i) <==>
              && l.period1Start <= k.expires
              && !Clash(l.used, Turned(l.period1Start, config.validationLifetime, k.expires), config.validationLifetime, k)
  {
    var log, uses, u := LogAt(config, arrivals, i), UsesOf(config, arrivals, i), Use(nonce, IssuedAt(issued), false);
    LogIsStateOfUses(config, arrivals, i);
    UsesDoNotOverflow(config, arrivals, i);
    LedgerTracks(config.hash, config.validationLifetime, uses, |uses|);
    ExactWhileSet(log, LedgerAt(config.validationLifetime, uses, |uses|), config.hash, config.validationLifetime, u);
    ValidationTokenIsWorth(config, log, arrivals[i], ip, issued, nonce);
    hide CheckSpec, Decode, Encode, UsesOf, LedgerAt, StateAt, LogAt, Matches, Clash;
  }

  lemma {:induction false} UsesDoNotOverflow(config: ServerConfig, arrivals: seq<Arrival>, n: nat)
    requires n <= |arrivals| && (forall j :: 0 <= j < n ==> !arrivals[j].overflow)
    ensures forall k :: 0 <= k < |UsesOf(config, arrivals, n)| ==> !UsesOf(config, arrivals, n)[k].overflow
    decreases n
  {
    hide Decode;
    if n > 0 {
      UsesDoNotOverflow(config, arrivals, n - 1);
    }
  }

  /** In particular the first token a server ever sees validates, if it is good. */
  lemma FirstTokenValidates(config: ServerConfig, a: Arrival, ip: IpAddr, issued: int, nonce: u128)
    requires config.key.Lawful() && UnixSecs(issued) < Pow256(8) && config.validationLifetime > 0 && !a.overflow
    requires a.token == Encode(config.key, Token(Validation(ip, issued), nonce))
    requires ip == a.remote.ip && a.now <= IssuedAt(issued) + config.validationLifetime
    ensures Validated(config, [a], 0)
  {
    UnusedTokensValidate(config, [a], 0, ip, issued, nonce);
  }
}
