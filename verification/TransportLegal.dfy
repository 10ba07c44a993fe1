/**
 Which transport parameters are accepted (noq-proto/src/transport_parameters.rs:581-613), stated by the
 limits of section 18.2 of RFC 9000 and of ACK frequency, field by field.
 */
module TransportLegal {
  import opened Wrappers
  import opened Bytes
  import opened Net
  import opened VarInts
  import opened TransportParameters
  import opened TransportRoundTrip

  /** The parameters by their numbers on the wire, and the integers in the order of the record. */
  lemma ParameterNumbers()
    ensures IdNumber(IntParam(0)) == 0x01 && IdNumber(IntParam(1)) == 0x03 && IdNumber(IntParam(2)) == 0x04
    ensures IdNumber(IntParam(3)) == 0x05 && IdNumber(IntParam(4)) == 0x06 && IdNumber(IntParam(5)) == 0x07
    ensures IdNumber(IntParam(6)) == 0x08 && IdNumber(IntParam(7)) == 0x09 && IdNumber(IntParam(8)) == 0x0a
    ensures IdNumber(IntParam(9)) == 0x0b && IdNumber(IntParam(10)) == 0x0e
    ensures IdNumber(OriginalDstCid) == 0x00 && IdNumber(StatelessResetToken) == 0x02 && IdNumber(DisableActiveMigration) == 0x0c
    ensures IdNumber(PreferredAddr) == 0x0d && IdNumber(InitialSrcCid) == 0x0f && IdNumber(RetrySrcCid) == 0x10
    ensures IdNumber(MaxDatagramFrameSize) == 0x20 && IdNumber(GreaseQuicBit) == 0x2ab2
  {
  }

  /** ack_delay_exponent at most 20, max_ack_delay below 2^14, active_connection_id_limit at least 2,
      max_udp_payload_size at least 1200, at most 2^60 streams of either kind, min_ack_delay (in
      microseconds) not above max_ack_delay (in milliseconds), and a preferred address with a CID. */
  predicate InRange(p: Params) {
    && p.ints[8] <= 20
    && p.ints[9] <= 16383
    && p.ints[10] >= 2
    && p.ints[1] >= 1200
    && p.ints[6] <= 0x1000_0000_0000_0000 && p.ints[7] <= 0x1000_0000_0000_0000
    && (p.minAckDelay.Some? ==> p.minAckDelay.value <= 1000 * p.ints[9])
    && (p.preferredAddress.Some? ==> |p.preferredAddress.value.cid| > 0)
  }

  /** original_destination_connection_id, preferred_address, retry_source_connection_id and
      stateless_reset_token are absent. */
  predicate WithoutServerOnly(p: Params) {
    p.originalDstCid.None? && p.preferredAddress.None? && p.retrySrcCid.None? && p.statelessResetToken.None?
  }

  /** A client gets every record in range back from whatever server wrote it, with or without the
      parameters only a server may send. */
  lemma ClientReadsServers(p: Params, grease: Option<Grease>, order: seq<Place>)
    requires Writable(p) && (grease.Some? ==> GreaseOk(grease.value)) && Permutation(order) && InRange(p)
    ensures ReadSpec(Client, WriteSpec(p, grease, order)) == Ok(p)
  {
    ParametersRoundTrip(Client, p, grease, order);
    hide ReadSpec, WriteSpec;
  }

  /** A server gets the same record back if and only if the parameters only a server may send are all
      absent, and refuses it otherwise. */
  lemma ServerReadsClients(p: Params, grease: Option<Grease>, order: seq<Place>)
    requires Writable(p) && (grease.Some? ==> GreaseOk(grease.value)) && Permutation(order) && InRange(p)
    ensures ReadSpec(Server, WriteSpec(p, grease, order)) == if WithoutServerOnly(p) then Ok(p) else Err(IllegalValue)
  {
    ParametersRoundTrip(Server, p, grease, order);
    hide ReadSpec, WriteSpec;
  }

  /** Both sides refuse every record that is out of range. */
  lemma OutOfRangeIsRefused(side: Side, p: Params, grease: Option<Grease>, order: seq<Place>)
    requires Writable(p) && (grease.Some? ==> GreaseOk(grease.value)) && Permutation(order) && !InRange(p)
    ensures ReadSpec(side, WriteSpec(p, grease, order)) == Err(IllegalValue)
  {
    ParametersRoundTrip(side, p, grease, order);
    hide ReadSpec, WriteSpec;
  }

  /** Whatever the bytes, what is accepted is in range, and on a server without the server's own
      parameters. */
  lemma AcceptedIsInRange(side: Side, s: seq<byte>)
    ensures var r := ReadSpec(side, s); r.Ok? ==> InRange(r.value) && (side.Server? ==> WithoutServerOnly(r.value))
  {
    hide ReadAll;
  }

  /** A peer that sends nothing has the defaults of section 18.2: payloads of 65527 bytes, exponent 3, 25
      milliseconds, two connection IDs, and zero or nothing for everything else. */
  lemma NothingMeansDefaults(side: Side)
    ensures ReadSpec(side, []) ==
            Ok(Params([0, 65527, 0, 0, 0, 0, 0, 0, 3, 25, 2], false, None, None, false, None, None, None, None, None, Disabled, None, None))
  {
  }

  /** Each limit at its first illegal value, all else in range. */
  lemma FirstIllegalValues(side: Side, p: Params, grease: Option<Grease>, order: seq<Place>)
    requires Writable(p) && (grease.Some? ==> GreaseOk(grease.value)) && Permutation(order) && InRange(p)
    ensures ReadSpec(side, WriteSpec(p.(ints := p.ints[8 := 21]), grease, order)) == Err(IllegalValue)
    ensures ReadSpec(side, WriteSpec(p.(ints := p.ints[9 := 0x4000]), grease, order)) == Err(IllegalValue)
    ensures ReadSpec(side, WriteSpec(p.(ints := p.ints[10 := 1]), grease, order)) == Err(IllegalValue)
    ensures ReadSpec(side, WriteSpec(p.(ints := p.ints[1 := 1199]), grease, order)) == Err(IllegalValue)
    ensures ReadSpec(side, WriteSpec(p.(ints := p.ints[6 := 0x1000_0000_0000_0001]), grease, order)) == Err(IllegalValue)
    ensures ReadSpec(side, WriteSpec(p.(ints := p.ints[7 := 0x1000_0000_0000_0001]), grease, order)) == Err(IllegalValue)
    ensures ReadSpec(side, WriteSpec(p.(minAckDelay := Some(1000 * p.ints[9] + 1)), grease, order)) == Err(IllegalValue)
  {
    hide ReadSpec, WriteSpec, Permutation, GreaseOk;
    OutOfRangeIsRefused(side, p.(ints := p.ints[8 := 21]), grease, order);
    OutOfRangeIsRefused(side, p.(ints := p.ints[9 := 0x4000]), grease, order);
    OutOfRangeIsRefused(side, p.(ints := p.ints[10 := 1]), grease, order);
    OutOfRangeIsRefused(side, p.(ints := p.ints[1 := 1199]), grease, order);
    OutOfRangeIsRefused(side, p.(ints := p.ints[6 := 0x1000_0000_0000_0001]), grease, order);
    OutOfRangeIsRefused(side, p.(ints := p.ints[7 := 0x1000_0000_0000_0001]), grease, order);
    OutOfRangeIsRefused(side, p.(minAckDelay := Some(1000 * p.ints[9] + 1)), grease, order);
  }

  /** Each limit at its last legal value, all else in range. */
  lemma LastLegalValues(p: Params, grease: Option<Grease>, order: seq<Place>)
    requires Writable(p) && (grease.Some? ==> GreaseOk(grease.value)) && Permutation(order) && InRange(p)
    ensures ReadSpec(Client, WriteSpec(p.(ints := p.ints[8 := 20]), grease, order)).Ok?
    ensures ReadSpec(Client, WriteSpec(p.(ints := p.ints[9 := 0x3fff]), grease, order)).Ok?
    ensures ReadSpec(Client, WriteSpec(p.(ints := p.ints[10 := 2]), grease, order)).Ok?
    ensures ReadSpec(Client, WriteSpec(p.(ints := p.ints[1 := 1200]), grease, order)).Ok?
    ensures ReadSpec(Client, WriteSpec(p.(ints := p.ints[6 := 0x1000_0000_0000_0000]), grease, order)).Ok?
    ensures ReadSpec(Client, WriteSpec(p.(ints := p.ints[7 := 0x1000_0000_0000_0000]), grease, order)).Ok?
    ensures ReadSpec(Client, WriteSpec(p.(minAckDelay := Some(1000 * p.ints[9])), grease, order)).Ok?
  {
    hide ReadSpec, WriteSpec, Permutation, GreaseOk;
    ClientReadsServers(p.(ints := p.ints[8 := 20]), grease, order);
    ClientReadsServers(p.(ints := p.ints[9 := 0x3fff]), grease, order);
    ClientReadsServers(p.(ints := p.ints[10 := 2]), grease, order);
    ClientReadsServers(p.(ints := p.ints[1 := 1200]), grease, order);
    ClientReadsServers(p.(ints := p.ints[6 := 0x1000_0000_0000_0000]), grease, order);
    ClientReadsServers(p.(ints := p.ints[7 := 0x1000_0000_0000_0000]), grease, order);
    ClientReadsServers(p.(minAckDelay := Some(1000 * p.ints[9])), grease, order);
  }
}
