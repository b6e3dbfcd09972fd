/**
 * The receiver of receiver/reflector.py and the ACK parsers of both senders.
 * The reflector never looks inside an INT record.
 */
module Reflector {
  import opened Common
  import opened Bytes
  import opened WireFormat

  const ECN_CE := 3  // congestion experienced, section 5 of RFC 3168

  function BuildAck(payload: bytes, ecnCodepoint: nat, nowUs: nat): Option<bytes>
    requires Fits(8, nowUs)
  {
    if |payload| < SHIM_SIZE then None else
      var shim := UnpackShim(payload);
      if shim.hopCount > MAX_HOPS then None else
        var dataOff := SHIM_SIZE + shim.hopCount * INT_HOP_SIZE;
        if |payload| < dataOff + PAYLOAD_SIZE then None else
          var hopsBlob := payload[SHIM_SIZE..dataOff];
          var data := UnpackPayload(payload[dataOff..dataOff + PAYLOAD_SIZE]);
          var outShim := Shim(if ecnCodepoint == ECN_CE then 1 else 0,
                              shim.hopCount, shim.maxHops, shim.reserved);
          FromBEFits(payload[dataOff..dataOff + PAYLOAD_SIZE][0..4]);
          Some(PackShim(outShim) + hopsBlob + PackPayload(Payload(data.seqNo, nowUs, 0)))
  }

  /** `_parse_ack` of the Python senders. */
  function ParseAck(data: bytes): Option<Packet> {
    if |data| < SHIM_SIZE then None else
      var n := UnpackShim(data).hopCount;
      if n > 8 || |data| < SHIM_SIZE + n * INT_HOP_SIZE + PAYLOAD_SIZE then None
      else Some(Decoded(data))
  }

  /** The checks of `ack_thread` in the C sender, in its order. */
  function ParseAckC(data: bytes): Option<Packet> {
    if |data| < SHIM_SIZE + PAYLOAD_SIZE then None else
      var n := UnpackShim(data).hopCount;
      if n > MAX_HOPS then None
      else if |data| < SHIM_SIZE + n * INT_HOP_SIZE + PAYLOAD_SIZE then None
      else Some(Decoded(data))
  }

  predicate WellFormed(payload: bytes) {
    Complete(payload) && payload[1] <= MAX_HOPS
  }

  /** The two parsers differ only on five to eight records, which no switch produces. */
  lemma ParsersAgree(data: bytes)
    ensures ParseAckC(data) == if ParseAck(data).Some? && data[1] <= MAX_HOPS then ParseAck(data) else None
  {
  }

  /** Record bytes between a shim and a payload decode to the records they encode. */
  lemma BlobDecodes(shim: Shim, blob: bytes, out: Payload)
    requires shim.InRange() && out.InRange() && |blob| == INT_HOP_SIZE * shim.hopCount
    ensures var b := PackShim(shim) + blob + PackPayload(out);
            Complete(b) && Decoded(b) == Packet(shim, UnpackHops(blob, shim.hopCount), out)
  {
    var b := PackShim(shim) + blob + PackPayload(out);
    ThreeParts(PackShim(shim), blob, PackPayload(out));
    UnpackHopsPrefix(blob, PackPayload(out), shim.hopCount);
    PayloadRoundTrip(out);
  }

  lemma ThreeParts(shim: bytes, blob: bytes, payload: bytes)
    requires |shim| == SHIM_SIZE && |payload| == PAYLOAD_SIZE
    ensures var b, off := shim + blob + payload, SHIM_SIZE + |blob|;
            && |b| == off + PAYLOAD_SIZE && b[..SHIM_SIZE] == shim && b[1] == shim[1]
            && b[SHIM_SIZE..] == blob + payload && b[off..off + PAYLOAD_SIZE] == payload
  {
  }

  function EchoShim(shim: Shim, ecnCodepoint: nat): Shim {
    shim.(flags := if ecnCodepoint == ECN_CE then 1 else 0)
  }

  lemma AckBytes(payload: bytes, ecnCodepoint: nat, nowUs: nat)
    requires Fits(8, nowUs)
    ensures BuildAck(payload, ecnCodepoint, nowUs).Some? <==> WellFormed(payload)
    ensures WellFormed(payload) ==>
              var data := Decoded(payload);
              var out := Payload(data.payload.seqNo, nowUs, 0);
              && out.InRange() && EchoShim(data.shim, ecnCodepoint).InRange()
              && BuildAck(payload, ecnCodepoint, nowUs)
                 == Some(PackShim(EchoShim(data.shim, ecnCodepoint))
                         + payload[SHIM_SIZE..SHIM_SIZE + INT_HOP_SIZE * payload[1]] + PackPayload(out))
  {
    if WellFormed(payload) {
      var off := SHIM_SIZE + payload[1] * INT_HOP_SIZE;
      FromBEFits(payload[off..off + PAYLOAD_SIZE][0..4]);
      assert Fits(4, 0) && Fits(1, 0) && Fits(1, 1);
    }
  }

  lemma BlobOf(payload: bytes)
    requires WellFormed(payload)
    ensures Decoded(payload).hops
            == UnpackHops(payload[SHIM_SIZE..SHIM_SIZE + INT_HOP_SIZE * payload[1]], payload[1])
  {
    var off := SHIM_SIZE + INT_HOP_SIZE * payload[1];
    assert payload[SHIM_SIZE..] == payload[SHIM_SIZE..off] + payload[off..];
    UnpackHopsPrefix(payload[SHIM_SIZE..off], payload[off..], payload[1]);
  }

  /** An ACK is built for exactly the well-formed payloads.  It carries the record bytes
      verbatim and nothing of the padding, and whatever it carries parses at both senders
      to the sequence number and the records of the data packet. */
  lemma AckEchoesData(payload: bytes, ecnCodepoint: nat, nowUs: nat)
    requires Fits(8, nowUs)
    ensures BuildAck(payload, ecnCodepoint, nowUs).Some? <==> WellFormed(payload)
    ensures WellFormed(payload) ==>
              var data := Decoded(payload);
              var ack := BuildAck(payload, ecnCodepoint, nowUs).value;
              && |ack| == SHIM_SIZE + INT_HOP_SIZE * payload[1] + PAYLOAD_SIZE
              && ack[1..|ack| - PAYLOAD_SIZE] == payload[1..|ack| - PAYLOAD_SIZE]
              && ParseAck(ack) == ParseAckC(ack)
                 == Some(Packet(EchoShim(data.shim, ecnCodepoint), data.hops,
                                Payload(data.payload.seqNo, nowUs, 0)))
  {
    AckBytes(payload, ecnCodepoint, nowUs);
    if WellFormed(payload) {
      var data := Decoded(payload);
      var shim, out := EchoShim(data.shim, ecnCodepoint), Payload(data.payload.seqNo, nowUs, 0);
      var blob := payload[SHIM_SIZE..SHIM_SIZE + INT_HOP_SIZE * payload[1]];
      BlobOf(payload);
      BlobDecodes(shim, blob, out);
      SameMiddle(payload, PackShim(shim) + blob + PackPayload(out), |blob|);
    }
  }

  lemma SameMiddle(a: bytes, b: bytes, n: nat)
    requires |a| >= SHIM_SIZE + n && |b| >= SHIM_SIZE + n
    requires b[1..SHIM_SIZE] == a[1..SHIM_SIZE] && b[SHIM_SIZE..SHIM_SIZE + n] == a[SHIM_SIZE..SHIM_SIZE + n]
    ensures b[1..SHIM_SIZE + n] == a[1..SHIM_SIZE + n]
  {
    assert b[1..SHIM_SIZE + n] == b[1..SHIM_SIZE] + b[SHIM_SIZE..SHIM_SIZE + n];
    assert a[1..SHIM_SIZE + n] == a[1..SHIM_SIZE] + a[SHIM_SIZE..SHIM_SIZE + n];
  }

  /** Echo round trip through pack: every encodable data packet, padded or not, comes back
      with its own records and sequence number, marked exactly when it arrived CE-marked. */
  lemma EchoRoundTrip(p: Packet, padding: bytes, ecnCodepoint: nat, nowUs: nat)
    requires Encode(p).Ok? && Fits(8, nowUs)
    ensures var ack := BuildAck(Encode(p).value + padding, ecnCodepoint, nowUs);
            && ack.Some? && ParseAck(ack.value).Some?
            && ParseAck(ack.value).value.hops == p.hops
            && ParseAck(ack.value).value.payload == Payload(p.payload.seqNo, nowUs, 0)
            && (ParseAck(ack.value).value.shim.flags == 1 <==> ecnCodepoint == ECN_CE)
  {
    EncodeThenDecode(p, padding);
    AckEchoesData(Encode(p).value + padding, ecnCodepoint, nowUs);
  }
}
