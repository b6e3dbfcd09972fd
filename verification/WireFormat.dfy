/**
 * The codecs of sender/packet_format.py.  Data and ACK payloads have the same
 * layout (u32, u64, u32), and so have data and ACK packets, so each pair is one type.
 */
module WireFormat {
  import opened Common
  import opened Bytes

  const MAX_HOPS := 4
  const SHIM_SIZE := 4
  const INT_HOP_SIZE := 26
  const PAYLOAD_SIZE := 16
  const DATA_PORT := 50000
  const ACK_PORT := 50001

  datatype Shim = Shim(flags: int, hopCount: int, maxHops: int, reserved: int) {
    predicate InRange() {
      Fits(1, flags) && Fits(1, hopCount) && Fits(1, maxHops) && Fits(1, reserved)
    }
    predicate EcnEcho()
      requires InRange()
    {
      flags % 2 == 1
    }
  }

  datatype IntHop = IntHop(switchId: int, ingressPort: int, egressPort: int, qdepth: int,
                           egressTstampUs: int, txByteCount: int, linkBps: int) {
    predicate InRange() {
      && Fits(2, switchId) && Fits(2, ingressPort) && Fits(2, egressPort) && Fits(4, qdepth)
      && Fits(6, egressTstampUs) && Fits(6, txByteCount) && Fits(4, linkBps)
    }
  }

  datatype Payload = Payload(seqNo: int, tsUs: int, reserved: int) {
    predicate InRange() {
      Fits(4, seqNo) && Fits(8, tsUs) && Fits(4, reserved)
    }
  }

  datatype Packet = Packet(shim: Shim, hops: seq<IntHop>, payload: Payload) {
    /** What `pack` makes of the shim before encoding it. */
    function Normal(): Packet {
      this.(shim := shim.(hopCount := |hops|, maxHops := MAX_HOPS))
    }
    predicate Encodable() {
      |hops| <= MAX_HOPS && Normal().shim.InRange() && payload.InRange() && AllInRange(hops)
    }
  }

  predicate AllInRange(hops: seq<IntHop>) {
    forall i :: 0 <= i < |hops| ==> hops[i].InRange()
  }

  // ---- one record at a time ----

  function PackShim(s: Shim): (b: bytes)
    requires s.InRange()
    ensures |b| == SHIM_SIZE
  {
    [s.flags, s.hopCount, s.maxHops, s.reserved]
  }

  function UnpackShim(b: bytes): (s: Shim)
    requires |b| >= SHIM_SIZE
    ensures s.InRange() && PackShim(s) == b[..SHIM_SIZE]
  {
    Shim(b[0], b[1], b[2], b[3])
  }

  function PackHop(h: IntHop): (b: bytes)
    requires h.InRange()
    ensures |b| == INT_HOP_SIZE
  {
    BE(2, h.switchId) + BE(2, h.ingressPort) + BE(2, h.egressPort) + BE(4, h.qdepth)
    + BE(6, h.egressTstampUs) + BE(6, h.txByteCount) + BE(4, h.linkBps)
  }

  function UnpackHop(b: bytes): IntHop
    requires |b| == INT_HOP_SIZE
  {
    IntHop(FromBE(b[0..2]), FromBE(b[2..4]), FromBE(b[4..6]), FromBE(b[6..10]),
           FromBE(b[10..16]), FromBE(b[16..22]), FromBE(b[22..26]))
  }

  function PackPayload(p: Payload): (b: bytes)
    requires p.InRange()
    ensures |b| == PAYLOAD_SIZE
  {
    BE(4, p.seqNo) + BE(8, p.tsUs) + BE(4, p.reserved)
  }

  function UnpackPayload(b: bytes): Payload
    requires |b| == PAYLOAD_SIZE
  {
    Payload(FromBE(b[0..4]), FromBE(b[4..12]), FromBE(b[12..16]))
  }

  lemma HopRoundTrip(h: IntHop)
    requires h.InRange()
    ensures UnpackHop(PackHop(h)) == h
  {
    HopSlices(BE(2, h.switchId), BE(2, h.ingressPort), BE(2, h.egressPort), BE(4, h.qdepth),
              BE(6, h.egressTstampUs), BE(6, h.txByteCount), BE(4, h.linkBps));
    DecodeEncode(2, h.switchId);
    DecodeEncode(2, h.ingressPort);
    DecodeEncode(2, h.egressPort);
    DecodeEncode(4, h.qdepth);
    DecodeEncode(6, h.egressTstampUs);
    DecodeEncode(6, h.txByteCount);
    DecodeEncode(4, h.linkBps);
  }

  /** The field offsets of a record. */
  lemma HopSlices(sw: bytes, inp: bytes, outp: bytes, q: bytes, ts: bytes, tx: bytes, bps: bytes)
    requires |sw| == |inp| == |outp| == 2 && |q| == |bps| == 4 && |ts| == |tx| == 6
    ensures var b := sw + inp + outp + q + ts + tx + bps;
            && b[0..2] == sw && b[2..4] == inp && b[4..6] == outp && b[6..10] == q
            && b[10..16] == ts && b[16..22] == tx && b[22..26] == bps
  {
    var b := sw + inp + outp + q + ts + tx + bps;
    assert b[0..2] == sw;
    assert b[2..4] == inp;
    assert b[4..6] == outp;
    assert b[6..10] == q;
    assert b[10..16] == ts;
    assert b[16..22] == tx;
    assert b[22..26] == bps;
  }

  lemma HopBytesRoundTrip(b: bytes)
    requires |b| == INT_HOP_SIZE
    ensures UnpackHop(b).InRange() && PackHop(UnpackHop(b)) == b
  {
    var parts := [b[0..2], b[2..4], b[4..6], b[6..10], b[10..16], b[16..22], b[22..26]];
    forall i | 0 <= i < |parts|
      ensures Fits(|parts[i]|, FromBE(parts[i])) && BE(|parts[i]|, FromBE(parts[i])) == parts[i]
    {
      FromBEFits(parts[i]);
      EncodeDecode(parts[i]);
    }
    assert forall i :: 0 <= i < 3 ==> |parts[i]| == 2;
    assert |parts[3]| == 4 && |parts[4]| == 6 && |parts[5]| == 6 && |parts[6]| == 4;
    assert b == parts[0] + parts[1] + parts[2] + parts[3] + parts[4] + parts[5] + parts[6];
  }

  lemma PayloadRoundTrip(p: Payload)
    requires p.InRange()
    ensures UnpackPayload(PackPayload(p)) == p
  {
    var b := PackPayload(p);
    assert b[0..4] == BE(4, p.seqNo) && b[4..12] == BE(8, p.tsUs) && b[12..16] == BE(4, p.reserved);
    DecodeEncode(4, p.seqNo);
    DecodeEncode(8, p.tsUs);
    DecodeEncode(4, p.reserved);
  }

  lemma PayloadBytesRoundTrip(b: bytes)
    requires |b| == PAYLOAD_SIZE
    ensures UnpackPayload(b).InRange() && PackPayload(UnpackPayload(b)) == b
  {
    FromBEFits(b[0..4]);
    FromBEFits(b[4..12]);
    FromBEFits(b[12..16]);
    EncodeDecode(b[0..4]);
    EncodeDecode(b[4..12]);
    EncodeDecode(b[12..16]);
    assert b == b[0..4] + b[4..12] + b[12..16];
  }

  // ---- stacks of records ----

  function PackHops(hops: seq<IntHop>): (b: bytes)
    requires AllInRange(hops)
    ensures |b| == INT_HOP_SIZE * |hops|
  {
    if hops == [] then [] else PackHop(hops[0]) + PackHops(hops[1..])
  }

  function UnpackHops(b: bytes, n: nat): (hops: seq<IntHop>)
    requires |b| >= INT_HOP_SIZE * n
    ensures |hops| == n
  {
    if n == 0 then [] else [UnpackHop(b[..INT_HOP_SIZE])] + UnpackHops(b[INT_HOP_SIZE..], n - 1)
  }

  lemma {:induction false} HopsRoundTrip(hops: seq<IntHop>, rest: bytes)
    requires AllInRange(hops)
    ensures UnpackHops(PackHops(hops) + rest, |hops|) == hops
  {
    if hops != [] {
      var b := PackHops(hops) + rest;
      assert b[..INT_HOP_SIZE] == PackHop(hops[0]);
      assert b[INT_HOP_SIZE..] == PackHops(hops[1..]) + rest;
      HopRoundTrip(hops[0]);
      HopsRoundTrip(hops[1..], rest);
    }
  }

  lemma {:induction false} HopsBytesRoundTrip(b: bytes, n: nat)
    requires |b| >= INT_HOP_SIZE * n
    ensures AllInRange(UnpackHops(b, n)) && PackHops(UnpackHops(b, n)) == b[..INT_HOP_SIZE * n]
  {
    if n > 0 {
      var hops := UnpackHops(b, n);
      HopBytesRoundTrip(b[..INT_HOP_SIZE]);
      HopsBytesRoundTrip(b[INT_HOP_SIZE..], n - 1);
      assert hops[1..] == UnpackHops(b[INT_HOP_SIZE..], n - 1);
      assert b[..INT_HOP_SIZE * n] == b[..INT_HOP_SIZE] + b[INT_HOP_SIZE..][..INT_HOP_SIZE * (n - 1)];
    }
  }

  /** Decoding looks at the first `n` records only. */
  lemma {:induction false} UnpackHopsPrefix(b: bytes, rest: bytes, n: nat)
    requires |b| >= INT_HOP_SIZE * n
    ensures UnpackHops(b + rest, n) == UnpackHops(b, n)
  {
    if n > 0 {
      assert (b + rest)[..INT_HOP_SIZE] == b[..INT_HOP_SIZE];
      assert (b + rest)[INT_HOP_SIZE..] == b[INT_HOP_SIZE..] + rest;
      UnpackHopsPrefix(b[INT_HOP_SIZE..], rest, n - 1);
    }
  }

  lemma {:induction false} UnpackNext(b: bytes, n: nat, off: nat, last: bytes)
    requires off == INT_HOP_SIZE * n && |b| >= off + INT_HOP_SIZE && last == b[off..off + INT_HOP_SIZE]
    ensures UnpackHops(b, n + 1) == UnpackHops(b, n) + [UnpackHop(last)]
  {
    if n == 0 {
      assert last == b[..INT_HOP_SIZE];
    } else {
      TailSlice(b, INT_HOP_SIZE, off - INT_HOP_SIZE, off);
      UnpackNext(b[INT_HOP_SIZE..], n - 1, off - INT_HOP_SIZE, last);
    }
  }

  lemma UnpackHopsSnoc(b: bytes, n: nat)
    requires |b| >= INT_HOP_SIZE * (n + 1)
    ensures UnpackHops(b, n + 1)
            == UnpackHops(b, n) + [UnpackHop(b[INT_HOP_SIZE * n..INT_HOP_SIZE * (n + 1)])]
  {
    UnpackNext(b, n, INT_HOP_SIZE * n, b[INT_HOP_SIZE * n..INT_HOP_SIZE * (n + 1)]);
  }

  // ---- whole packets ----

  function TotalSize(nHops: int, kind: string): Result<nat> {
    if !(0 <= nHops <= MAX_HOPS) then Err(OutOfRange)
    else if kind != "data" && kind != "ack" then Err(UnknownKind)
    else Ok(SHIM_SIZE + nHops * INT_HOP_SIZE + PAYLOAD_SIZE)
  }

  function Layout(p: Packet): (b: bytes)
    requires p.shim.InRange() && AllInRange(p.hops) && p.payload.InRange()
    ensures |b| == SHIM_SIZE + INT_HOP_SIZE * |p.hops| + PAYLOAD_SIZE
  {
    PackShim(p.shim) + PackHops(p.hops) + PackPayload(p.payload)
  }

  function Encode(p: Packet): Result<bytes> {
    if |p.hops| > MAX_HOPS then Err(TooManyHops)
    else if !p.Encodable() then Err(OutOfRange)
    else Ok(Layout(p.Normal()))
  }

  /** Long enough for the records and the payload that its shim announces. */
  predicate Complete(b: bytes) {
    |b| >= SHIM_SIZE && |b| >= SHIM_SIZE + INT_HOP_SIZE * b[1] + PAYLOAD_SIZE
  }

  function Decoded(b: bytes): (p: Packet)
    requires Complete(b)
    ensures |p.hops| == p.shim.hopCount == b[1]
  {
    var off := SHIM_SIZE + INT_HOP_SIZE * b[1];
    Packet(UnpackShim(b), UnpackHops(b[SHIM_SIZE..], b[1]), UnpackPayload(b[off..off + PAYLOAD_SIZE]))
  }

  function Decode(b: bytes): Result<Packet> {
    if Complete(b) then Ok(Decoded(b)) else Err(Truncated)
  }

  lemma LayoutRoundTrip(p: Packet, rest: bytes)
    requires p.shim.InRange() && AllInRange(p.hops) && p.payload.InRange() && p.shim.hopCount == |p.hops|
    ensures Decode(Layout(p) + rest) == Ok(p)
  {
    var b := Layout(p) + rest;
    var off := SHIM_SIZE + INT_HOP_SIZE * |p.hops|;
    assert b[1] == |p.hops|;
    assert b[SHIM_SIZE..] == PackHops(p.hops) + (PackPayload(p.payload) + rest);
    assert b[off..off + PAYLOAD_SIZE] == PackPayload(p.payload);
    HopsRoundTrip(p.hops, PackPayload(p.payload) + rest);
    PayloadRoundTrip(p.payload);
  }

  /** Encoding succeeds exactly on in-range packets of at most four records, has the
      advertised size, and padding after the packet does not disturb decoding. */
  lemma EncodeThenDecode(p: Packet, padding: bytes)
    ensures Encode(p).Ok? <==> |p.hops| <= MAX_HOPS && p.Encodable()
    ensures Encode(p).Ok? ==> Decode(Encode(p).value + padding) == Ok(p.Normal())
    ensures Encode(p).Ok? ==> TotalSize(|p.hops|, "data") == TotalSize(|p.hops|, "ack") == Ok(|Encode(p).value|)
  {
    if Encode(p).Ok? {
      LayoutRoundTrip(p.Normal(), padding);
    }
  }

  /** The other direction: what decodes to at most four records re-encodes to the same
      bytes, up to trailing padding and to the `max_hops` byte that `pack` sets to four. */
  lemma DecodeThenEncode(b: bytes)
    ensures Decode(b).Ok? <==> Complete(b)
    ensures Complete(b) && b[1] <= MAX_HOPS ==>
              Encode(Decoded(b)) == Ok(b[2 := MAX_HOPS][..SHIM_SIZE + INT_HOP_SIZE * b[1] + PAYLOAD_SIZE])
  {
    if Complete(b) && b[1] <= MAX_HOPS {
      var p, off := Decoded(b), SHIM_SIZE + INT_HOP_SIZE * b[1];
      HopsBytesRoundTrip(b[SHIM_SIZE..], b[1]);
      PayloadBytesRoundTrip(b[off..off + PAYLOAD_SIZE]);
      assert Pow256(1) == 256;
      TailSlice(b, SHIM_SIZE, 0, INT_HOP_SIZE * b[1]);
      Canonical(b, off);
    }
  }

  /** The canonical bytes in three parts. */
  lemma Canonical(b: bytes, off: nat)
    requires SHIM_SIZE <= off && off + PAYLOAD_SIZE <= |b|
    ensures b[2 := MAX_HOPS][..off + PAYLOAD_SIZE]
            == [b[0], b[1], MAX_HOPS, b[3]] + b[SHIM_SIZE..off] + b[off..off + PAYLOAD_SIZE]
  {
  }

  /** The composite `unpack`: a loop that appends records while an offset moves on. */
  method UnpackPacket(buf: bytes) returns (r: Result<Packet>)
    ensures r == Decode(buf)
  {
    if |buf| < SHIM_SIZE {
      return Err(Truncated);
    }
    var shim := UnpackShim(buf);
    var offset, hops, i := SHIM_SIZE, [], 0;
    while i < shim.hopCount
      invariant 0 <= i <= shim.hopCount
      invariant offset == SHIM_SIZE + INT_HOP_SIZE * i <= |buf|
      invariant hops == UnpackHops(buf[SHIM_SIZE..], i)
    {
      if |buf| < offset + INT_HOP_SIZE {
        return Err(Truncated);
      }
      TailSlice(buf, SHIM_SIZE, INT_HOP_SIZE * i, INT_HOP_SIZE * (i + 1));
      UnpackHopsSnoc(buf[SHIM_SIZE..], i);
      hops := hops + [UnpackHop(buf[offset..offset + INT_HOP_SIZE])];
      offset := offset + INT_HOP_SIZE;
      i := i + 1;
    }
    if |buf| < offset + PAYLOAD_SIZE {
      return Err(Truncated);
    }
    r := Ok(Packet(shim, hops, UnpackPayload(buf[offset..offset + PAYLOAD_SIZE])));
  }

  /** `flags |= ECN_ECHO` and `flags &= ~ECN_ECHO`. */
  function WithEcn(flags: int, on: bool): int {
    flags - flags % 2 + (if on then 1 else 0)
  }

  /** A packet object under construction; `pack` overwrites two of its shim fields. */
  class PacketObject {
    var shim: Shim
    var hops: seq<IntHop>
    var payload: Payload

    function Value(): Packet
      reads this
    {
      Packet(shim, hops, payload)
    }

    constructor (p: Packet)
      ensures Value() == p
    {
      shim, hops, payload := p.shim, p.hops, p.payload;
    }

    /** Bits 1 to 7 of the flags survive, and the echo bit is what was asked for. */
    method SetEcnEcho(on: bool)
      requires shim.InRange()
      modifies this`shim
      ensures shim.InRange() && shim.EcnEcho() == on && shim.flags / 2 == old(shim.flags) / 2
      ensures shim == old(shim).(flags := shim.flags)
    {
      shim := shim.(flags := WithEcn(shim.flags, on));
    }

    /** The shim is normalised even when a field is then found out of range, but not
        when there are too many hops: that check comes first. */
    method Pack() returns (r: Result<bytes>)
      modifies this`shim
      ensures r == Encode(old(Value()))
      ensures Value() == if |hops| <= MAX_HOPS then old(Value()).Normal() else old(Value())
    {
      if |hops| > MAX_HOPS {
        return Err(TooManyHops);
      }
      shim := shim.(hopCount := |hops|);
      shim := shim.(maxHops := MAX_HOPS);
      if !(shim.InRange() && AllInRange(hops) && payload.InRange()) {
        return Err(OutOfRange);
      }
      var body := PackShim(shim);
      var i := 0;
      while i < |hops|
        invariant 0 <= i <= |hops|
        invariant body + PackHops(hops[i..]) == PackShim(shim) + PackHops(hops)
      {
        assert hops[i..][1..] == hops[i + 1..];
        body := body + PackHop(hops[i]);
        i := i + 1;
      }
      assert body == PackShim(shim) + PackHops(hops) by {
        assert hops[i..] == [];
      }
      r := Ok(body + PackPayload(payload));
    }
  }
}
