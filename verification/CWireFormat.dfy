/**
 * The C codec of extensions/csender/packet_format.h, which reads and writes caller
 * buffers.  Shifts and masks of unsigned words are division and remainder, and the
 * bitwise or of disjoint bytes is their sum.
 */
module CWireFormat {
  import Common
  import opened Bytes
  import opened WireFormat

  function Byte(v: nat, weight: nat): byte
    requires weight > 0
  {
    v / weight % 256
  }

  function Shl(b: int, weight: int): int {
    b * weight
  }

  lemma DivUnique(v: int, d: int, q: int, r: int)
    requires d > 0 && v == d * q + r && 0 <= r < d
    ensures v / d == q
  {
    var q', r' := v / d, v % d;
    assert v == d * q' + r';
    assert d * (q - q') == r' - r;
    assert q - q' >= 1 ==> d * (q - q') >= d;
    assert q - q' <= -1 ==> d * (q - q') <= -d;
  }

  lemma DivStep(v: nat, w: nat)
    requires w > 0
    ensures v / w / 256 == v / (w * 256)
  {
    var q := v / w;
    var r := v % w;
    var s := q % 256;
    assert v == w * q + r && q == 256 * (q / 256) + s;
    assert w * q == w * 256 * (q / 256) + w * s;
    assert 0 <= w * s <= w * 255;
    DivUnique(v, w * 256, q / 256, w * s + r);
  }

  lemma U48Bytes(v: nat)
    ensures BE(6, v) == [Byte(v, 0x100_0000_0000), Byte(v, 0x1_0000_0000), Byte(v, 0x100_0000),
                         Byte(v, 0x1_0000), Byte(v, 0x100), v % 256]
  {
    var b1 := BE(1, v / 0x100_0000_0000);
    var b2 := BE(2, v / 0x1_0000_0000);
    var b3 := BE(3, v / 0x100_0000);
    var b4 := BE(4, v / 0x1_0000);
    var b5 := BE(5, v / 0x100);
    assert b1 == [Byte(v, 0x100_0000_0000)] by { assert BE(0, v / 0x100_0000_0000 / 256) == []; }
    assert b2 == b1 + [Byte(v, 0x1_0000_0000)] by { DivStep(v, 0x1_0000_0000); }
    assert b3 == b2 + [Byte(v, 0x100_0000)] by { DivStep(v, 0x100_0000); }
    assert b4 == b3 + [Byte(v, 0x1_0000)] by { DivStep(v, 0x1_0000); }
    assert b5 == b4 + [Byte(v, 0x100)] by { DivStep(v, 0x100); }
    assert BE(6, v) == b5 + [v % 256];
  }

  lemma U48Value(b: bytes)
    requires |b| == 6
    ensures FromBE(b) == Shl(b[0], 0x100_0000_0000) + Shl(b[1], 0x1_0000_0000) + Shl(b[2], 0x100_0000)
                         + Shl(b[3], 0x1_0000) + Shl(b[4], 0x100) + b[5]
  {
    assert b[..5][..4] == b[..4] && b[..4][..3] == b[..3] && b[..3][..2] == b[..2] && b[..2][..1] == b[..1];
    assert FromBE(b[..1]) == b[0] by { assert b[..1][..0] == []; }
    assert FromBE(b[..2]) == FromBE(b[..1]) * 256 + b[1];
    assert FromBE(b[..3]) == FromBE(b[..2]) * 256 + b[2];
    assert FromBE(b[..4]) == FromBE(b[..3]) * 256 + b[3];
    assert FromBE(b[..5]) == FromBE(b[..4]) * 256 + b[4];
  }

  lemma U32Value(b: bytes)
    requires |b| == 4
    ensures FromBE(b) == Shl(b[0], 0x100_0000) + Shl(b[1], 0x1_0000) + Shl(b[2], 0x100) + b[3]
  {
    assert b[..3][..2] == b[..2] && b[..2][..1] == b[..1];
    assert FromBE(b[..1]) == b[0] by { assert b[..1][..0] == []; }
    assert FromBE(b[..2]) == FromBE(b[..1]) * 256 + b[1];
    assert FromBE(b[..3]) == FromBE(b[..2]) * 256 + b[2];
  }

  lemma U16Value(b: bytes)
    requires |b| == 2
    ensures FromBE(b) == Shl(b[0], 0x100) + b[1]
  {
    assert FromBE(b[..1]) == b[0] by { assert b[..1][..0] == []; }
  }

  method U48Pack(out: array<byte>, v: nat)
    requires out.Length == 6
    modifies out
    ensures out[..] == BE(6, v)
  {
    out[0] := Byte(v, 0x100_0000_0000);
    out[1] := Byte(v, 0x1_0000_0000);
    out[2] := Byte(v, 0x100_0000);
    out[3] := Byte(v, 0x1_0000);
    out[4] := Byte(v, 0x100);
    out[5] := v % 256;
    U48Bytes(v);
  }

  method U48Unpack(buf: array<byte>, off: nat) returns (v: nat)
    requires off + 6 <= buf.Length
    ensures v == FromBE(buf[off..off + 6])
  {
    v := Shl(buf[off], 0x100_0000_0000) + Shl(buf[off + 1], 0x1_0000_0000) + Shl(buf[off + 2], 0x100_0000)
       + Shl(buf[off + 3], 0x1_0000) + Shl(buf[off + 4], 0x100) + buf[off + 5];
    U48Value(buf[off..off + 6]);
  }

  method Ntohs(buf: array<byte>, off: nat) returns (v: nat)
    requires off + 2 <= buf.Length
    ensures v == FromBE(buf[off..off + 2])
  {
    v := Shl(buf[off], 0x100) + buf[off + 1];
    U16Value(buf[off..off + 2]);
  }

  method Ntohl(buf: array<byte>, off: nat) returns (v: nat)
    requires off + 4 <= buf.Length
    ensures v == FromBE(buf[off..off + 4])
  {
    v := Shl(buf[off], 0x100_0000) + Shl(buf[off + 1], 0x1_0000) + Shl(buf[off + 2], 0x100) + buf[off + 3];
    U32Value(buf[off..off + 4]);
  }

  /** The C decoder of a record agrees with the Python one. */
  method IntHopDecode(wire: array<byte>, off: nat) returns (h: IntHop)
    requires off + INT_HOP_SIZE <= wire.Length
    ensures h == UnpackHop(wire[off..off + INT_HOP_SIZE])
  {
    var switchId := Ntohs(wire, off);
    var ingressPort := Ntohs(wire, off + 2);
    var egressPort := Ntohs(wire, off + 4);
    var qdepth := Ntohl(wire, off + 6);
    var tstamp := U48Unpack(wire, off + 10);
    var txBytes := U48Unpack(wire, off + 16);
    var linkBps := Ntohl(wire, off + 22);
    h := IntHop(switchId, ingressPort, egressPort, qdepth, tstamp, txBytes, linkBps);
    var b := wire[off..off + INT_HOP_SIZE];
    assert b[0..2] == wire[off..off + 2] && b[2..4] == wire[off + 2..off + 4];
    assert b[4..6] == wire[off + 4..off + 6] && b[6..10] == wire[off + 6..off + 10];
    assert b[10..16] == wire[off + 10..off + 16] && b[16..22] == wire[off + 16..off + 22];
    assert b[22..26] == wire[off + 22..off + 26];
  }

  /** Stores the `n` low bytes of `v` in network order, as a packed field assignment does. */
  method StoreBE(dst: array<byte>, off: nat, n: nat, v: nat)
    requires off + n <= dst.Length
    modifies dst
    ensures dst[..] == old(dst[..off]) + BE(n, v) + old(dst[off + n..])
  {
    var i, rest := n, v;
    while i > 0
      invariant 0 <= i <= n
      invariant BE(n, v) == BE(i, rest) + dst[off + i..off + n]
      invariant dst[..off + i] == old(dst[..off + i]) && dst[off + n..] == old(dst[off + n..])
    {
      i := i - 1;
      ghost var done := dst[off + i + 1..off + n];
      dst[off + i] := rest % 256;
      assert dst[off + i..off + n] == [rest % 256] + done;
      rest := rest / 256;
    }
    assert dst[..] == dst[..off] + dst[off..off + n] + dst[off + n..];
  }

  /** The zero-hop packet that both senders put on the wire. */
  function DataBody(seqNo: nat, sendTsUs: nat, padding: nat): (b: bytes)
    requires Fits(4, seqNo) && Fits(8, sendTsUs)
    ensures |b| == SHIM_SIZE + PAYLOAD_SIZE + padding
  {
    Layout(Packet(Shim(0, 0, MAX_HOPS, 0), [], Payload(seqNo, sendTsUs, 0))) + Zeros(padding)
  }

  method PackHeader(dst: array<byte>, seqNo: nat, sendTsUs: nat)
    requires Fits(4, seqNo) && Fits(8, sendTsUs) && SHIM_SIZE + PAYLOAD_SIZE <= dst.Length
    modifies dst
    ensures dst[..SHIM_SIZE + PAYLOAD_SIZE] == [0, 0, MAX_HOPS, 0] + BE(4, seqNo) + BE(8, sendTsUs) + BE(4, 0)
    ensures dst[SHIM_SIZE + PAYLOAD_SIZE..] == old(dst[SHIM_SIZE + PAYLOAD_SIZE..])
  {
    ghost var tail := dst[SHIM_SIZE + PAYLOAD_SIZE..];
    dst[0], dst[1], dst[2], dst[3] := 0, 0, MAX_HOPS, 0;
    ghost var s0 := dst[..];
    assert s0[..4] == [0, 0, MAX_HOPS, 0] && s0[SHIM_SIZE + PAYLOAD_SIZE..] == tail;
    StoreBE(dst, SHIM_SIZE, 4, seqNo);
    ghost var s1 := dst[..];
    StoredSuffix(s0, s1, 4, BE(4, seqNo), 20);
    StoreBE(dst, SHIM_SIZE + 4, 8, sendTsUs);
    ghost var s2 := dst[..];
    StoredSuffix(s1, s2, 8, BE(8, sendTsUs), 20);
    StoreBE(dst, SHIM_SIZE + 12, 4, 0);
    StoredSuffix(s2, dst[..], 16, BE(4, 0), 20);
  }

  /** A store extends the known prefix by what it stored and leaves the far suffix alone. */
  lemma StoredSuffix(before: bytes, after: bytes, off: nat, b: bytes, far: nat)
    requires off + |b| <= far <= |before|
    requires after == before[..off] + b + before[off + |b|..]
    ensures after[..off + |b|] == before[..off] + b && after[far..] == before[far..]
  {
  }

  method ZeroFill(dst: array<byte>, off: nat, n: nat)
    requires off + n <= dst.Length
    modifies dst
    ensures dst[..] == old(dst[..off]) + Zeros(n) + old(dst[off + n..])
  {
    var i := 0;
    while i < n
      invariant 0 <= i <= n
      invariant forall k :: off <= k < off + i ==> dst[k] == 0
      invariant dst[..off] == old(dst[..off]) && dst[off + n..] == old(dst[off + n..])
    {
      dst[off + i] := 0;
      i := i + 1;
    }
    assert dst[..] == dst[..off] + dst[off..off + n] + dst[off + n..];
    assert dst[off..off + n] == Zeros(n);
  }

  /** The C encoder writes the bytes of the Python encoder, and nothing past them. */
  method DataPacketPack(dst: array<byte>, seqNo: nat, sendTsUs: nat, padding: nat) returns (n: nat)
    requires Fits(4, seqNo) && Fits(8, sendTsUs)
    requires SHIM_SIZE + PAYLOAD_SIZE + padding <= dst.Length
    modifies dst
    ensures n == SHIM_SIZE + PAYLOAD_SIZE + padding
    ensures dst[..] == DataBody(seqNo, sendTsUs, padding) + old(dst[n..])
  {
    var head := SHIM_SIZE + PAYLOAD_SIZE;
    PackHeader(dst, seqNo, sendTsUs);
    ghost var tail := dst[head..];
    assert tail[padding..] == dst[head + padding..];
    assert old(dst[head..])[padding..] == old(dst[head + padding..]);
    if padding > 0 {
      ZeroFill(dst, head, padding);
    }
    n := head + padding;
    assert PackHops([]) == [];
    assert Layout(Packet(Shim(0, 0, MAX_HOPS, 0), [], Payload(seqNo, sendTsUs, 0)))
        == [0, 0, MAX_HOPS, 0] + BE(4, seqNo) + BE(8, sendTsUs) + BE(4, 0);
  }

  /** So the C sender's packets are the Python encoder's output with zero padding. */
  lemma DataBodyIsEncoded(seqNo: nat, sendTsUs: nat, padding: nat)
    requires Fits(4, seqNo) && Fits(8, sendTsUs)
    ensures Encode(Packet(Shim(0, 0, MAX_HOPS, 0), [], Payload(seqNo, sendTsUs, 0))).Ok?
    ensures DataBody(seqNo, sendTsUs, padding)
            == Encode(Packet(Shim(0, 0, MAX_HOPS, 0), [], Payload(seqNo, sendTsUs, 0))).value + Zeros(padding)
    ensures Decode(DataBody(seqNo, sendTsUs, padding))
            == Common.Ok(Packet(Shim(0, 0, MAX_HOPS, 0), [], Payload(seqNo, sendTsUs, 0)))
  {
    var p := Packet(Shim(0, 0, MAX_HOPS, 0), [], Payload(seqNo, sendTsUs, 0));
    assert Fits(1, 0) && Fits(1, MAX_HOPS) && Fits(4, 0);
    assert p.Normal() == p;
    EncodeThenDecode(p, Zeros(padding));
  }
}
