/**
 * Every message of the harness byte by byte: which byte of which field lies where, with
 * offsets, constants and byte order written out, and that the codecs, the reflector, the
 * ACK parsers and the C packer read and write exactly these layouts.
 */
module Layouts {
  import opened Common
  import opened Bytes
  import opened WireFormat
  import CWireFormat
  import Reflector

  // ---- integers in network order ----

  function U16At(b: bytes, i: nat): nat
    requires i + 2 <= |b|
  {
    b[i] as int * 0x100 + b[i + 1]
  }

  function U32At(b: bytes, i: nat): nat
    requires i + 4 <= |b|
  {
    U16At(b, i) * 0x1_0000 + U16At(b, i + 2)
  }

  function U48At(b: bytes, i: nat): nat
    requires i + 6 <= |b|
  {
    U32At(b, i) * 0x1_0000 + U16At(b, i + 4)
  }

  function U64At(b: bytes, i: nat): nat
    requires i + 8 <= |b|
  {
    U48At(b, i) * 0x1_0000 + U16At(b, i + 6)
  }

  /** The prefix of a field, and two more bytes. */
  lemma TwoMore(front: bytes, b: bytes)
    requires |b| >= 2 && front == b[..|b| - 2]
    ensures FromBE(b) == FromBE(front) * 0x1_0000 + U16At(b, |b| - 2)
  {
    assert b[..|b| - 1][..|b| - 2] == front;
  }

  lemma Order16(b: bytes)
    requires |b| == 2
    ensures FromBE(b) == U16At(b, 0)
  {
    TwoMore([], b);
  }

  lemma Order32(b: bytes)
    requires |b| == 4
    ensures FromBE(b) == U32At(b, 0)
  {
    TwoMore(b[..2], b);
    Order16(b[..2]);
  }

  lemma Order48(b: bytes)
    requires |b| == 6
    ensures FromBE(b) == U48At(b, 0)
  {
    TwoMore(b[..4], b);
    Order32(b[..4]);
  }

  lemma Order64(b: bytes)
    requires |b| == 8
    ensures FromBE(b) == U64At(b, 0)
  {
    TwoMore(b[..6], b);
    Order48(b[..6]);
  }

  lemma FieldAt(b: bytes, i: nat, n: nat)
    requires i + n <= |b|
    ensures n == 2 ==> FromBE(b[i..i + n]) == U16At(b, i)
    ensures n == 4 ==> FromBE(b[i..i + n]) == U32At(b, i)
    ensures n == 6 ==> FromBE(b[i..i + n]) == U48At(b, i)
    ensures n == 8 ==> FromBE(b[i..i + n]) == U64At(b, i)
  {
    if n == 2 {
      Order16(b[i..i + n]);
    } else if n == 4 {
      Order32(b[i..i + n]);
    } else if n == 6 {
      Order48(b[i..i + n]);
    } else if n == 8 {
      Order64(b[i..i + n]);
    }
  }

  // ---- one record ----

  predicate RecordAt(b: bytes, i: nat, h: IntHop)
    requires i + 26 <= |b|
  {
    && h.switchId == U16At(b, i) && h.ingressPort == U16At(b, i + 2) && h.egressPort == U16At(b, i + 4)
    && h.qdepth == U32At(b, i + 6) && h.egressTstampUs == U48At(b, i + 10) && h.txByteCount == U48At(b, i + 16)
    && h.linkBps == U32At(b, i + 22)
  }

  lemma RecordIsAt(b: bytes, i: nat, h: IntHop)
    requires i + 26 <= |b|
    ensures RecordAt(b, i, h) <==> h == UnpackHop(b[i..i + 26])
  {
    var r := b[i..i + 26];
    FieldAt(r, 0, 2);
    FieldAt(r, 2, 2);
    FieldAt(r, 4, 2);
    FieldAt(r, 6, 4);
    FieldAt(r, 10, 6);
    FieldAt(r, 16, 6);
    FieldAt(r, 22, 4);
  }

  predicate RecordFits(h: IntHop) {
    && 0 <= h.switchId < 0x1_0000 && 0 <= h.ingressPort < 0x1_0000 && 0 <= h.egressPort < 0x1_0000
    && 0 <= h.qdepth < 0x1_0000_0000 && 0 <= h.egressTstampUs < 0x1_0000_0000_0000
    && 0 <= h.txByteCount < 0x1_0000_0000_0000 && 0 <= h.linkBps < 0x1_0000_0000
  }

  lemma Powers()
    ensures Pow256(1) == 0x100 && Pow256(2) == 0x1_0000 && Pow256(4) == 0x1_0000_0000
    ensures Pow256(6) == 0x1_0000_0000_0000 && Pow256(8) == 0x1_0000_0000_0000_0000
  {
  }

  lemma FitsIsInRange(h: IntHop)
    ensures h.InRange() <==> RecordFits(h)
  {
    Powers();
  }

  lemma PackedIsAt(h: IntHop, b: bytes)
    requires h.InRange() && |b| == 26
    ensures b == PackHop(h) <==> UnpackHop(b) == h
  {
    HopRoundTrip(h);
    HopBytesRoundTrip(b);
  }

  /** A record can be packed exactly when its fields fit, and then lies at these offsets. */
  lemma PackedRecord(h: IntHop, b: bytes)
    ensures h.InRange() <==> RecordFits(h)
    ensures h.InRange() ==> (b == PackHop(h) <==> |b| == 26 && RecordAt(b, 0, h))
  {
    FitsIsInRange(h);
    if h.InRange() && |b| == 26 {
      PackedIsAt(h, b);
      assert b[0..26] == b;
      RecordIsAt(b, 0, h);
    }
  }

  // ---- whole packets ----

  /** The number of records that byte 1 announces. */
  function Announced(b: bytes): nat
    requires |b| >= 2
  {
    b[1]
  }

  predicate PayloadAt(b: bytes, i: nat, p: Payload)
    requires i + 16 <= |b|
  {
    p.seqNo == U32At(b, i) && p.tsUs == U64At(b, i + 4) && p.reserved == U32At(b, i + 12)
  }

  lemma PayloadIsAt(b: bytes, i: nat, p: Payload)
    requires i + 16 <= |b|
    ensures PayloadAt(b, i, p) <==> p == UnpackPayload(b[i..i + 16])
  {
    var r := b[i..i + 16];
    FieldAt(r, 0, 4);
    FieldAt(r, 4, 8);
    FieldAt(r, 12, 4);
  }

  /** Shim, records and payload; whatever follows is padding. */
  predicate PacketAt(b: bytes, p: Packet) {
    && |b| >= 20 + 26 * |p.hops|
    && p.shim == Shim(b[0], b[1], b[2], b[3]) && b[1] == |p.hops|
    && (forall k :: 0 <= k < |p.hops| ==> RecordAt(b, 4 + 26 * k, p.hops[k]))
    && PayloadAt(b, 4 + 26 * |p.hops|, p.payload)
  }

  lemma {:induction false} RecordOf(b: bytes, n: nat, k: nat)
    requires |b| >= 26 * n && k < n
    ensures 26 * k + 26 <= |b| && UnpackHops(b, n)[k] == UnpackHop(b[26 * k..26 * k + 26])
  {
    if k > 0 {
      RecordOf(b[26..], n - 1, k - 1);
      TailSlice(b, 26, 26 * (k - 1), 26 * (k - 1) + 26);
    }
  }

  lemma OneRecordAt(b: bytes, tail: bytes, n: nat, k: nat, h: IntHop)
    requires |b| >= 4 + 26 * n && k < n && tail == b[4..]
    ensures h == UnpackHops(tail, n)[k] <==> RecordAt(b, 4 + 26 * k, h)
  {
    RecordOf(tail, n, k);
    TailSlice(b, 4, 26 * k, 26 * k + 26);
    RecordIsAt(b, 4 + 26 * k, h);
  }

  lemma RecordsAt(b: bytes, n: nat, hops: seq<IntHop>)
    requires |b| >= 4 + 26 * n && |hops| == n
    ensures hops == UnpackHops(b[4..], n) <==> forall k :: 0 <= k < n ==> RecordAt(b, 4 + 26 * k, hops[k])
  {
    forall k | 0 <= k < n
      ensures hops[k] == UnpackHops(b[4..], n)[k] <==> RecordAt(b, 4 + 26 * k, hops[k])
    {
      OneRecordAt(b, b[4..], n, k, hops[k]);
    }
  }

  lemma DecodedIsLayout(b: bytes, n: nat, p: Packet)
    requires Complete(b) && n == Announced(b)
    ensures Decoded(b) == p <==> PacketAt(b, p)
  {
    if |p.hops| == n {
      RecordsAt(b, n, p.hops);
      PayloadIsAt(b, 4 + 26 * n, p.payload);
    }
  }

  /** Decoding reads exactly the layout, and fails exactly when the announced packet is not
      all there. */
  lemma DecodeIsLayout(b: bytes, p: Packet)
    ensures Decode(b) == Ok(p) <==> PacketAt(b, p)
    ensures Decode(b).Err? <==> |b| < 4 || |b| < 20 + 26 * Announced(b)
  {
    if Complete(b) {
      DecodedIsLayout(b, Announced(b), p);
    }
  }

  /** The packet as `pack` writes it: the number of records and four in bytes 1 and 2. */
  predicate PackedAt(b: bytes, p: Packet) {
    && |p.hops| <= 4 && |b| == 20 + 26 * |p.hops|
    && PacketAt(b, p.(shim := p.shim.(hopCount := |p.hops|, maxHops := 4)))
  }

  lemma EncodedLayout(p: Packet, b: bytes)
    requires Encode(p) == Ok(b)
    ensures PackedAt(b, p)
  {
    EncodeThenDecode(p, []);
    assert b + [] == b;
    DecodeIsLayout(b, p.Normal());
  }

  lemma NormalEncodesAlike(p: Packet)
    ensures Encode(p.Normal()) == Encode(p)
  {
    assert p.Normal().Normal() == p.Normal();
  }

  lemma Reencodes(b: bytes, n: nat)
    requires Complete(b) && n == Announced(b) <= 4 && |b| == 20 + 26 * n && b[2] == 4
    ensures Encode(Decoded(b)) == Ok(b)
  {
    DecodeThenEncode(b);
    assert b[2 := 4] == b && b[..|b|] == b;
  }

  lemma LayoutEncodes(p: Packet, b: bytes)
    requires PackedAt(b, p)
    ensures Encode(p) == Ok(b)
  {
    DecodeIsLayout(b, p.Normal());
    Reencodes(b, |p.hops|);
    NormalEncodesAlike(p);
  }

  /** Encoding writes exactly that layout, and fails exactly when nothing has it. */
  lemma EncodeIsLayout(p: Packet, b: bytes)
    ensures Encode(p) == Ok(b) <==> PackedAt(b, p)
  {
    if Encode(p) == Ok(b) {
      EncodedLayout(p, b);
    }
    if PackedAt(b, p) {
      LayoutEncodes(p, b);
    }
  }

  /** The advertised size is the size of that layout, for both kinds of packet and no other. */
  lemma TotalSizeIsLayout(nHops: int, kind: string, size: nat)
    ensures TotalSize(nHops, kind) == Ok(size)
            <==> 0 <= nHops <= 4 && kind in ["data", "ack"] && size == 20 + 26 * nHops
    ensures TotalSize(nHops, kind) == Err(UnknownKind) <==> 0 <= nHops <= 4 && kind !in ["data", "ack"]
  {
  }

  // ---- ACKs ----

  lemma AckParsersReadLayout(b: bytes, p: Packet)
    ensures Reflector.ParseAck(b) == Some(p) <==> PacketAt(b, p) && |p.hops| <= 8
    ensures Reflector.ParseAckC(b) == Some(p) <==> PacketAt(b, p) && |p.hops| <= 4
  {
    DecodeIsLayout(b, p);
  }

  /** The ACK of a payload: the echo bit, the rest of the shim, the records and the sequence
      number as they came, the time of receipt, and four zero bytes. */
  predicate AckOf(payload: bytes, ecnCodepoint: nat, nowUs: nat, ack: bytes)
    requires |payload| >= 4 && |payload| >= 20 + 26 * Announced(payload)
  {
    var end := 4 + 26 * Announced(payload);
    && |ack| == end + 16 && ack[0] == (if ecnCodepoint == 3 then 1 else 0)
    && ack[1..end + 4] == payload[1..end + 4]
    && U64At(ack, end + 4) == nowUs && U32At(ack, end + 12) == 0
  }

  lemma SameSeqNo(a: bytes, b: bytes, end: nat)
    requires 4 <= end && |a| >= end + 16 && |b| == end + 16
    requires b[1..end] == a[1..end] && UnpackPayload(b[end..end + 16]).seqNo == UnpackPayload(a[end..end + 16]).seqNo
    ensures b[1..end + 4] == a[1..end + 4]
  {
    SliceOfSlice(a, end, end + 16, 0, 4);
    SliceOfSlice(b, end, end + 16, 0, 4);
    EncodeDecode(a[end..end + 4]);
    EncodeDecode(b[end..end + 4]);
    assert b[1..end + 4] == b[1..end] + b[end..end + 4];
    assert a[1..end + 4] == a[1..end] + a[end..end + 4];
  }

  lemma ParsedAckIsOf(payload: bytes, ecnCodepoint: nat, nowUs: nat, ack: bytes, end: nat, p: Packet)
    requires |payload| >= 4 && |payload| >= end + 16 && end == 4 + 26 * Announced(payload)
    requires |ack| == end + 16 && ack[1..end] == payload[1..end] && Decode(ack) == Ok(p)
    requires p.shim.flags == (if ecnCodepoint == 3 then 1 else 0)
    requires p.payload == Payload(UnpackPayload(payload[end..end + 16]).seqNo, nowUs, 0)
    ensures AckOf(payload, ecnCodepoint, nowUs, ack)
  {
    assert ack[1] == ack[1..end][0] && payload[1] == payload[1..end][0];
    DecodeIsLayout(ack, p);
    PayloadIsAt(ack, end, p.payload);
    SameSeqNo(payload, ack, end);
  }

  /** The reflector answers exactly the payloads that hold up to four records completely. */
  lemma BuildAckIsLayout(payload: bytes, ecnCodepoint: nat, nowUs: nat)
    requires Fits(8, nowUs)
    ensures var ack := Reflector.BuildAck(payload, ecnCodepoint, nowUs);
            if |payload| < 4 || payload[1] > 4 || |payload| < 20 + 26 * Announced(payload) then ack == None
            else ack.Some? && AckOf(payload, ecnCodepoint, nowUs, ack.value)
  {
    Reflector.AckEchoesData(payload, ecnCodepoint, nowUs);
    if Reflector.WellFormed(payload) {
      var ack := Reflector.BuildAck(payload, ecnCodepoint, nowUs).value;
      ParsedAckIsOf(payload, ecnCodepoint, nowUs, ack, 4 + 26 * Announced(payload), Reflector.ParseAck(ack).value);
    }
  }

  /** What both senders put on the wire for a new packet. */
  lemma FreshPacketIsLayout(seqNo: nat, sendTsUs: nat, padding: nat)
    requires Fits(4, seqNo) && Fits(8, sendTsUs)
    ensures var b := CWireFormat.DataBody(seqNo, sendTsUs, padding);
            && |b| == 20 + padding && b[..4] == [0, 0, 4, 0]
            && U32At(b, 4) == seqNo && U64At(b, 8) == sendTsUs && U32At(b, 16) == 0
            && (forall i :: 20 <= i < |b| ==> b[i] == 0)
  {
    var b := CWireFormat.DataBody(seqNo, sendTsUs, padding);
    var p := Packet(Shim(0, 0, 4, 0), [], Payload(seqNo, sendTsUs, 0));
    CWireFormat.DataBodyIsEncoded(seqNo, sendTsUs, padding);
    DecodeIsLayout(b, p);
  }
}
