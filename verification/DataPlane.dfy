/**
 * The switch: the parser and deparser of p4src/common/parsers.p4 around the egress
 * control of p4src/hpcc.p4.  P4 copies headers in and out, so headers are values.
 */
module DataPlane {
  import opened Common
  import opened Bytes
  import opened WireFormat

  const ETHERTYPE_IPV4 := 0x0800
  const IP_PROTO_UDP := 17
  const ETH := 14
  const IP_END := 34
  const UDP_END := 42
  const U16 := 0x1_0000
  const U48 := 0x1_0000_0000_0000
  const BMV2_MAX_PORTS := 16

  // Fields that no stage reads or writes stay together as bytes.
  datatype Ipv4 = Ipv4(pre: bytes, totalLen: nat, mid: bytes, protocol: byte, tail: bytes) {
    predicate Valid() {
      |pre| == 2 && Fits(2, totalLen) && |mid| == 5 && |tail| == 10
    }
  }

  datatype Udp = Udp(srcPort: nat, dstPort: nat, length: nat, checksum: nat) {
    predicate Valid() {
      Fits(2, srcPort) && Fits(2, dstPort) && Fits(2, length) && Fits(2, checksum)
    }
  }

  datatype Headers = Headers(eth: bytes, ipv4: Option<Ipv4>, udp: Option<Udp>, shim: Option<Shim>,
                             hops: seq<Option<IntHop>>, data: Option<Payload>, ack: Option<Payload>) {
    predicate Valid() {
      && |eth| == ETH && |hops| == MAX_HOPS
      && (ipv4.Some? ==> ipv4.value.Valid())
      && (udp.Some? ==> udp.value.Valid())
      && (shim.Some? ==> shim.value.InRange())
      && StackInRange(hops)
      && (data.Some? ==> data.value.InRange())
      && (ack.Some? ==> ack.value.InRange())
    }
  }

  datatype Parsed = Parsed(hdr: Headers, isData: bool, isAck: bool, rest: bytes)

  predicate StackInRange(hops: seq<Option<IntHop>>) {
    forall i :: 0 <= i < |hops| && hops[i].Some? ==> hops[i].value.InRange()
  }

  /** The header stack holding these records, the first on top. */
  function Stack(hops: seq<IntHop>): (s: seq<Option<IntHop>>)
    requires |hops| <= MAX_HOPS
    ensures |s| == MAX_HOPS
    ensures forall i :: 0 <= i < MAX_HOPS ==> s[i] == if i < |hops| then Some(hops[i]) else None
  {
    seq(MAX_HOPS, i requires 0 <= i < MAX_HOPS => if i < |hops| then Some(hops[i]) else None)
  }

  // ---- parser ----

  function NoHeaders(eth: bytes): Headers {
    Headers(eth, None, None, None, Stack([]), None, None)
  }

  function ReadIpv4(b: bytes): Ipv4
    requires |b| == IP_END - ETH
  {
    Ipv4(b[..2], FromBE(b[2..4]), b[4..9], b[9], b[10..])
  }

  function ReadUdp(b: bytes): Udp
    requires |b| == UDP_END - IP_END
  {
    Udp(FromBE(b[..2]), FromBE(b[2..4]), FromBE(b[4..6]), FromBE(b[6..8]))
  }

  /** From the shim on: the records, then the payload of either kind. */
  function ParseShim(h: Headers, isData: bool, p: bytes): Option<Parsed> {
    if !(Complete(p) && p[1] <= MAX_HOPS) then None else
      var d := Decoded(p);
      var h' := h.(shim := Some(d.shim), hops := Stack(d.hops));
      var rest := p[SHIM_SIZE + INT_HOP_SIZE * p[1] + PAYLOAD_SIZE..];
      if isData then Some(Parsed(h'.(data := Some(d.payload)), true, false, rest))
      else Some(Parsed(h'.(ack := Some(d.payload)), false, true, rest))
  }

  /** What the parser extracts from a frame; `None` is a parser error (the frame is
      shorter than its headers, or announces more than four records). */
  function Parse(f: bytes): Option<Parsed> {
    if |f| < ETH then None else
      var h0 := NoHeaders(f[..ETH]);
      if FromBE(f[12..14]) != ETHERTYPE_IPV4 then Some(Parsed(h0, false, false, f[ETH..])) else
        if |f| < IP_END then None else
          var h1 := h0.(ipv4 := Some(ReadIpv4(f[ETH..IP_END])));
          if h1.ipv4.value.protocol != IP_PROTO_UDP then Some(Parsed(h1, false, false, f[IP_END..])) else
            if |f| < UDP_END then None else
              var h2 := h1.(udp := Some(ReadUdp(f[IP_END..UDP_END])));
              var port := h2.udp.value.dstPort;
              if port == DATA_PORT || port == ACK_PORT then ParseShim(h2, port == DATA_PORT, f[UDP_END..])
              else Some(Parsed(h2, false, false, f[UDP_END..]))
  }

  method RunParser(f: bytes) returns (r: Option<Parsed>)
    ensures r == Parse(f)
  {
    if |f| < ETH {
      return None;
    }
    var hdr := NoHeaders(f[..ETH]);
    if FromBE(f[12..14]) != ETHERTYPE_IPV4 {
      return Some(Parsed(hdr, false, false, f[ETH..]));
    }
    if |f| < IP_END {
      return None;
    }
    hdr := hdr.(ipv4 := Some(ReadIpv4(f[ETH..IP_END])));
    if hdr.ipv4.value.protocol != IP_PROTO_UDP {
      return Some(Parsed(hdr, false, false, f[IP_END..]));
    }
    if |f| < UDP_END {
      return None;
    }
    hdr := hdr.(udp := Some(ReadUdp(f[IP_END..UDP_END])));
    if hdr.udp.value.dstPort == DATA_PORT {
      r := RunShimParser(hdr, true, f[UDP_END..]);
    } else if hdr.udp.value.dstPort == ACK_PORT {
      r := RunShimParser(hdr, false, f[UDP_END..]);
    } else {
      r := Some(Parsed(hdr, false, false, f[UDP_END..]));
    }
  }

  /** One extraction into the stack. */
  lemma ExtractNext(p: bytes, next: nat)
    requires next < MAX_HOPS && |p| >= SHIM_SIZE + INT_HOP_SIZE * (next + 1)
    ensures var off := SHIM_SIZE + INT_HOP_SIZE * next;
            Stack(UnpackHops(p[SHIM_SIZE..], next + 1))
            == Stack(UnpackHops(p[SHIM_SIZE..], next))[next := Some(UnpackHop(p[off..off + INT_HOP_SIZE]))]
  {
    TailSlice(p, SHIM_SIZE, INT_HOP_SIZE * next, INT_HOP_SIZE * (next + 1));
    UnpackHopsSnoc(p[SHIM_SIZE..], next);
  }

  /** The parser states from the shim on: `parse_hops` loops on a counter that starts at
      `hop_count`, and each round extracts into the next element of the stack. */
  method RunShimParser(h: Headers, isData: bool, p: bytes) returns (r: Option<Parsed>)
    requires h.hops == Stack([])
    ensures r == ParseShim(h, isData, p)
  {
    if |p| < SHIM_SIZE {
      return None;
    }
    var parsedHopCount: nat := p[1];
    var stack, next, off := h.hops, 0, SHIM_SIZE;
    while parsedHopCount > 0
      invariant next + parsedHopCount == p[1]
      invariant next <= MAX_HOPS && off == SHIM_SIZE + INT_HOP_SIZE * next <= |p|
      invariant stack == Stack(UnpackHops(p[SHIM_SIZE..], next))
    {
      if next == MAX_HOPS || |p| < off + INT_HOP_SIZE {
        return None;
      }
      ExtractNext(p, next);
      stack := stack[next := Some(UnpackHop(p[off..off + INT_HOP_SIZE]))];
      next, off, parsedHopCount := next + 1, off + INT_HOP_SIZE, parsedHopCount - 1;
    }
    if |p| < off + PAYLOAD_SIZE {
      return None;
    }
    var hdr := h.(shim := Some(UnpackShim(p)), hops := stack);
    var payload := UnpackPayload(p[off..off + PAYLOAD_SIZE]);
    var rest := p[off + PAYLOAD_SIZE..];
    if isData {
      r := Some(Parsed(hdr.(data := Some(payload)), true, false, rest));
    } else {
      r := Some(Parsed(hdr.(ack := Some(payload)), false, true, rest));
    }
  }

  // ---- deparser ----

  function EmitIpv4(ip: Ipv4): bytes
    requires ip.Valid()
  {
    ip.pre + BE(2, ip.totalLen) + ip.mid + [ip.protocol] + ip.tail
  }

  function EmitUdp(u: Udp): bytes
    requires u.Valid()
  {
    BE(2, u.srcPort) + BE(2, u.dstPort) + BE(2, u.length) + BE(2, u.checksum)
  }

  /** `emit` on a header stack skips the invalid elements. */
  function EmitHops(hops: seq<Option<IntHop>>): bytes
    requires StackInRange(hops)
  {
    if hops == [] then []
    else (if hops[0].Some? then PackHop(hops[0].value) else []) + EmitHops(hops[1..])
  }

  function EmitShimAndPayload(h: Headers): bytes
    requires h.Valid()
  {
    (if h.shim.Some? then PackShim(h.shim.value) else []) + EmitHops(h.hops)
    + (if h.data.Some? then PackPayload(h.data.value) else [])
    + (if h.ack.Some? then PackPayload(h.ack.value) else [])
  }

  function EmitFront(h: Headers): bytes
    requires h.Valid()
  {
    h.eth
    + (if h.ipv4.Some? then EmitIpv4(h.ipv4.value) else [])
    + (if h.udp.Some? then EmitUdp(h.udp.value) else [])
  }

  function Deparse(h: Headers): bytes
    requires h.Valid()
  {
    EmitFront(h) + EmitShimAndPayload(h)
  }

  lemma {:induction false} EmitNone(hops: seq<Option<IntHop>>)
    requires forall i :: 0 <= i < |hops| ==> hops[i].None?
    ensures EmitHops(hops) == []
  {
    if hops != [] {
      EmitNone(hops[1..]);
    }
  }

  lemma {:induction false} EmitPrefix(stack: seq<Option<IntHop>>, hops: seq<IntHop>)
    requires AllInRange(hops) && |hops| <= |stack|
    requires forall i :: 0 <= i < |stack| ==> stack[i] == if i < |hops| then Some(hops[i]) else None
    ensures StackInRange(stack) && EmitHops(stack) == PackHops(hops)
  {
    if hops == [] {
      EmitNone(stack);
    } else {
      EmitPrefix(stack[1..], hops[1..]);
    }
  }

  lemma Ipv4RoundTrip(b: bytes)
    requires |b| == IP_END - ETH
    ensures ReadIpv4(b).Valid() && EmitIpv4(ReadIpv4(b)) == b
  {
    FromBEFits(b[2..4]);
    EncodeDecode(b[2..4]);
    assert b == b[..2] + b[2..4] + b[4..9] + [b[9]] + b[10..];
  }

  lemma UdpRoundTrip(b: bytes)
    requires |b| == UDP_END - IP_END
    ensures ReadUdp(b).Valid() && EmitUdp(ReadUdp(b)) == b
  {
    FromBEFits(b[..2]);
    FromBEFits(b[2..4]);
    FromBEFits(b[4..6]);
    FromBEFits(b[6..8]);
    EncodeDecode(b[..2]);
    EncodeDecode(b[2..4]);
    EncodeDecode(b[4..6]);
    EncodeDecode(b[6..8]);
    assert b == b[..2] + b[2..4] + b[4..6] + b[6..8];
  }

  /** The shim, the records and the payload that a complete UDP payload starts with. */
  lemma PayloadSplits(p: bytes)
    requires Complete(p)
    ensures var d := Decoded(p);
            && d.shim.InRange() && AllInRange(d.hops) && d.payload.InRange()
            && p == Layout(d) + p[SHIM_SIZE + INT_HOP_SIZE * p[1] + PAYLOAD_SIZE..]
  {
    var d := Decoded(p);
    var off := SHIM_SIZE + INT_HOP_SIZE * p[1];
    HopsBytesRoundTrip(p[SHIM_SIZE..], p[1]);
    PayloadBytesRoundTrip(p[off..off + PAYLOAD_SIZE]);
    CutInFour(p, SHIM_SIZE, off, off + PAYLOAD_SIZE);
  }

  lemma EmitLayout(h: Headers, d: Packet)
    requires h.Valid() && d.shim.InRange() && AllInRange(d.hops) && d.payload.InRange() && |d.hops| <= MAX_HOPS
    requires h.shim == Some(d.shim) && h.hops == Stack(d.hops)
    requires (h.data == Some(d.payload) && h.ack.None?) || (h.data.None? && h.ack == Some(d.payload))
    ensures EmitShimAndPayload(h) == Layout(d)
  {
    EmitPrefix(Stack(d.hops), d.hops);
  }

  lemma ParseShimThenEmit(h: Headers, isData: bool, p: bytes)
    requires h.Valid() && h.data.None? && h.ack.None? && ParseShim(h, isData, p).Some?
    ensures var x := ParseShim(h, isData, p).value;
            && x.hdr.Valid() && x.isData == isData && EmitShimAndPayload(x.hdr) + x.rest == p
  {
    PayloadSplits(p);
    EmitLayout(ParseShim(h, isData, p).value.hdr, Decoded(p));
  }

  lemma NoHeadersValid(eth: bytes)
    requires |eth| == ETH
    ensures NoHeaders(eth).Valid() && EmitShimAndPayload(NoHeaders(eth)) == []
  {
    EmitNone(Stack([]));
  }

  lemma FrontRoundTrip(f: bytes, h: Headers)
    requires |f| >= UDP_END
    requires h == NoHeaders(f[..ETH]).(ipv4 := Some(ReadIpv4(f[ETH..IP_END])), udp := Some(ReadUdp(f[IP_END..UDP_END])))
    ensures h.Valid() && EmitFront(h) == f[..UDP_END]
  {
    NoHeadersValid(f[..ETH]);
    Ipv4RoundTrip(f[ETH..IP_END]);
    UdpRoundTrip(f[IP_END..UDP_END]);
    assert f[..UDP_END] == f[..ETH] + f[ETH..IP_END] + f[IP_END..UDP_END];
  }

  /** A switch that changes no header forwards every accepted frame unchanged. */
  lemma ParseThenDeparse(f: bytes)
    requires Parse(f).Some?
    ensures Parse(f).value.hdr.Valid()
    ensures Deparse(Parse(f).value.hdr) + Parse(f).value.rest == f
  {
    var h0 := NoHeaders(f[..ETH]);
    NoHeadersValid(f[..ETH]);
    if FromBE(f[12..14]) == ETHERTYPE_IPV4 {
      Ipv4RoundTrip(f[ETH..IP_END]);
      var h1 := h0.(ipv4 := Some(ReadIpv4(f[ETH..IP_END])));
      if h1.ipv4.value.protocol != IP_PROTO_UDP {
        assert Deparse(h1) == f[..ETH] + f[ETH..IP_END];
      } else {
        var h2 := h1.(udp := Some(ReadUdp(f[IP_END..UDP_END])));
        FrontRoundTrip(f, h2);
        UdpFrame(f, h2);
      }
    }
  }

  lemma UdpFrame(f: bytes, h: Headers)
    requires |f| >= UDP_END && h.Valid() && EmitFront(h) == f[..UDP_END]
    requires h.shim.None? && h.data.None? && h.ack.None? && EmitShimAndPayload(h) == []
    ensures Deparse(h) + f[UDP_END..] == f
    ensures forall isData :: ParseShim(h, isData, f[UDP_END..]).Some? ==>
                               var x := ParseShim(h, isData, f[UDP_END..]).value;
                               x.hdr.Valid() && Deparse(x.hdr) + x.rest == f
  {
    var p := f[UDP_END..];
    assert f == f[..UDP_END] + p;
    forall isData | ParseShim(h, isData, p).Some?
      ensures var x := ParseShim(h, isData, p).value; x.hdr.Valid() && Deparse(x.hdr) + x.rest == f
    {
      ParseShimThenEmit(h, isData, p);
      var x := ParseShim(h, isData, p).value;
      assert EmitFront(x.hdr) == EmitFront(h);
      Associate(EmitFront(h), EmitShimAndPayload(x.hdr), x.rest);
    }
  }

  // ---- egress ----

  datatype StdMeta = StdMeta(ingressPort: nat, egressPort: nat, packetLength: nat, enqQdepth: nat, egressTstamp: nat) {
    predicate Valid() {
      && Fits(2, ingressPort) && egressPort < BMV2_MAX_PORTS && Fits(4, packetLength)
      && Fits(4, enqQdepth) && Fits(6, egressTstamp)
    }
  }

  /** Valid IPv4, tagged as data by the parser, and room for one more record. */
  predicate Tags(h: Headers, isData: bool) {
    h.ipv4.Some? && isData && h.shim.Some? && h.udp.Some? && h.shim.value.hopCount < MAX_HOPS
  }

  function PushFront(stack: seq<Option<IntHop>>, r: IntHop): seq<Option<IntHop>>
    requires |stack| == MAX_HOPS
  {
    [Some(r)] + stack[..MAX_HOPS - 1]
  }

  function Tag(h: Headers, r: IntHop): Headers
    requires h.Valid() && Tags(h, true)
  {
    var ip, udp, shim := h.ipv4.value, h.udp.value, h.shim.value;
    h.(hops := PushFront(h.hops, r),
       shim := Some(shim.(hopCount := shim.hopCount + 1)),
       udp := Some(udp.(length := (udp.length + INT_HOP_SIZE) % U16, checksum := 0)),
       ipv4 := Some(ip.(totalLen := (ip.totalLen + INT_HOP_SIZE) % U16)))
  }

  // ---- parse, push, deparse is a splice ----

  /** A UDP payload with one record inserted right behind the shim. */
  function Splice(p: bytes, r: IntHop): bytes
    requires |p| >= SHIM_SIZE && p[1] < MAX_HOPS && r.InRange()
  {
    p[1 := p[1] + 1][..SHIM_SIZE] + PackHop(r) + p[SHIM_SIZE..]
  }

  function Grow(b: bytes): (g: bytes)
    requires |b| == 2
    ensures |g| == 2
  {
    BE(2, (FromBE(b) + INT_HOP_SIZE) % U16)
  }

  /** What a switch that offers this record does to a UDP payload. */
  function OneSwitch(p: bytes, r: IntHop): (q: bytes)
    requires |p| >= SHIM_SIZE && r.InRange()
    ensures |q| >= SHIM_SIZE
  {
    if p[1] < MAX_HOPS then Splice(p, r) else p
  }

  /** Both length fields 26 larger and the UDP checksum zero, which means none (RFC 768, section Fields). */
  function GrownFront(f: bytes): (g: bytes)
    requires |f| >= UDP_END
    ensures |g| == UDP_END
  {
    f[..16] + Grow(f[16..18]) + f[18..38] + Grow(f[38..40]) + [0, 0]
  }

  function SpliceFrame(f: bytes, r: IntHop): bytes
    requires |f| >= UDP_END + SHIM_SIZE && f[UDP_END..][1] < MAX_HOPS && r.InRange()
  {
    GrownFront(f) + Splice(f[UDP_END..], r)
  }

  /** Pushing onto a stack with room shifts the records down and loses none. */
  lemma PushKeepsRecords(hops: seq<IntHop>, r: IntHop)
    requires |hops| < MAX_HOPS
    ensures PushFront(Stack(hops), r) == Stack([r] + hops)
  {
    var pushed := PushFront(Stack(hops), r);
    assert forall i :: 0 <= i < MAX_HOPS ==>
                         pushed[i] == if i < |hops| + 1 then Some(([r] + hops)[i]) else None;
  }

  lemma SplicedPayload(p: bytes, r: IntHop)
    requires Complete(p) && p[1] < MAX_HOPS && r.InRange()
    ensures var d := Decoded(p);
            && d.shim.InRange() && AllInRange(d.hops) && d.payload.InRange() && Fits(1, d.shim.hopCount + 1)
            && Splice(p, r) == Layout(Packet(d.shim.(hopCount := d.shim.hopCount + 1), [r] + d.hops, d.payload))
                               + p[SHIM_SIZE + INT_HOP_SIZE * p[1] + PAYLOAD_SIZE..]
  {
    var d := Decoded(p);
    var rest := p[SHIM_SIZE + INT_HOP_SIZE * p[1] + PAYLOAD_SIZE..];
    PayloadSplits(p);
    assert Pow256(1) == 256;
    assert ([r] + d.hops)[1..] == d.hops;
    Regroup(PackShim(d.shim), PackShim(d.shim.(hopCount := d.shim.hopCount + 1)), p, PackHop(r),
            PackHops(d.hops), PackPayload(d.payload), rest);
  }

  lemma Regroup(s: bytes, s': bytes, p: bytes, h: bytes, hs: bytes, d: bytes, rest: bytes)
    requires |s| == |s'| == SHIM_SIZE && p == s + hs + d + rest
    ensures s' + h + p[SHIM_SIZE..] == (s' + (h + hs) + d) + rest
  {
    assert p[SHIM_SIZE..] == hs + d + rest;
  }

  lemma TagShim(h: Headers, p: bytes, r: IntHop)
    requires h.Valid() && h.data.None? && h.ack.None? && ParseShim(h, true, p).Some? && r.InRange()
    requires Tags(ParseShim(h, true, p).value.hdr, true)
    ensures var x := ParseShim(h, true, p).value;
            && x.hdr.Valid() && p[1] < MAX_HOPS && Tag(x.hdr, r).Valid()
            && EmitShimAndPayload(Tag(x.hdr, r)) + x.rest == Splice(p, r)
  {
    TaggedHeaders(h, p, r);
    var d := Decoded(p);
    SplicedPayload(p, r);
    EmitLayout(Tag(ParseShim(h, true, p).value.hdr, r),
               Packet(d.shim.(hopCount := d.shim.hopCount + 1), [r] + d.hops, d.payload));
  }

  lemma TaggedHeaders(h: Headers, p: bytes, r: IntHop)
    requires h.Valid() && h.data.None? && h.ack.None? && ParseShim(h, true, p).Some? && r.InRange()
    requires Tags(ParseShim(h, true, p).value.hdr, true)
    ensures p[1] < MAX_HOPS && ParseShim(h, true, p).value.hdr.Valid()
    ensures var out, d := Tag(ParseShim(h, true, p).value.hdr, r), Decoded(p);
            && out.Valid() && out.data == Some(d.payload) && out.ack.None?
            && out.shim == Some(d.shim.(hopCount := d.shim.hopCount + 1)) && out.hops == Stack([r] + d.hops)
  {
    ParseShimThenEmit(h, true, p);
    TagKeepsValid(ParseShim(h, true, p).value.hdr, r);
    PushKeepsRecords(Decoded(p).hops, r);
  }

  lemma TagKeepsValid(h: Headers, r: IntHop)
    requires h.Valid() && Tags(h, true) && r.InRange()
    ensures Tag(h, r).Valid()
  {
    assert Pow256(2) == U16 && Pow256(1) == 256;
  }

  /** Parsing, tagging and deparsing an accepted data frame with room is the 26-byte splice,
      and a frame that is not tagged leaves as it came. */
  lemma TaggingIsSplicing(f: bytes, r: IntHop)
    requires Parse(f).Some? && r.InRange()
    ensures var x := Parse(f).value;
            && x.hdr.Valid()
            && (x.isData ==> x.hdr.shim.Some? && x.hdr.udp.Some?)
            && (Tags(x.hdr, x.isData) ==>
                  && |f| >= UDP_END + SHIM_SIZE && f[UDP_END..][1] < MAX_HOPS
                  && Tag(x.hdr, r).Valid()
                  && Deparse(Tag(x.hdr, r)) + x.rest == SpliceFrame(f, r))
            && (!Tags(x.hdr, x.isData) ==> Deparse(x.hdr) + x.rest == f)
  {
    ParseThenDeparse(f);
    var x := Parse(f).value;
    if x.isData {
      ParsedData(f);
    }
    if Tags(x.hdr, x.isData) {
      TaggedFrame(f, x, r);
    }
  }

  lemma ParsedData(f: bytes)
    requires Parse(f).Some? && Parse(f).value.isData
    ensures |f| >= UDP_END
    ensures Parse(f) == ParseShim(UdpHeaders(f), true, f[UDP_END..])
    ensures Parse(f).value.hdr.shim.Some? && Parse(f).value.hdr.udp.Some?
  {
  }

  function UdpHeaders(f: bytes): Headers
    requires |f| >= UDP_END
  {
    NoHeaders(f[..ETH]).(ipv4 := Some(ReadIpv4(f[ETH..IP_END])), udp := Some(ReadUdp(f[IP_END..UDP_END])))
  }

  lemma TaggedFrame(f: bytes, x: Parsed, r: IntHop)
    requires |f| >= UDP_END && ParseShim(UdpHeaders(f), true, f[UDP_END..]) == Some(x)
    requires r.InRange() && Tags(x.hdr, true)
    ensures f[UDP_END..][1] < MAX_HOPS && x.hdr.Valid() && Tag(x.hdr, r).Valid()
    ensures Deparse(Tag(x.hdr, r)) + x.rest == SpliceFrame(f, r)
  {
    FrontRoundTrip(f, UdpHeaders(f));
    TagShim(UdpHeaders(f), f[UDP_END..], r);
    TagFront(f, x, r);
    Associate(GrownFront(f), EmitShimAndPayload(Tag(x.hdr, r)), x.rest);
  }

  lemma TagFront(f: bytes, x: Parsed, r: IntHop)
    requires |f| >= UDP_END && ParseShim(UdpHeaders(f), true, f[UDP_END..]) == Some(x)
    requires r.InRange() && Tags(x.hdr, true) && x.hdr.Valid() && Tag(x.hdr, r).Valid()
    ensures EmitFront(Tag(x.hdr, r)) == GrownFront(f)
  {
    TaggedFront(f, Tag(x.hdr, r));
  }

  lemma TaggedFront(f: bytes, h: Headers)
    requires |f| >= UDP_END && h.Valid() && h.eth == f[..ETH]
    requires var b := f[ETH..IP_END];
             h.ipv4 == Some(ReadIpv4(b).(totalLen := (FromBE(b[2..4]) + INT_HOP_SIZE) % U16))
    requires var b := f[IP_END..UDP_END];
             h.udp == Some(ReadUdp(b).(length := (FromBE(b[4..6]) + INT_HOP_SIZE) % U16, checksum := 0))
    ensures EmitFront(h) == GrownFront(f)
  {
    TaggedIpv4(f, h.ipv4.value);
    TaggedUdp(f, h.udp.value);
    assert f[18..38] == f[18..IP_END] + f[IP_END..38];
  }

  lemma TaggedIpv4(f: bytes, ip: Ipv4)
    requires |f| >= UDP_END
    requires var b := f[ETH..IP_END]; ip == ReadIpv4(b).(totalLen := (FromBE(b[2..4]) + INT_HOP_SIZE) % U16)
    ensures ip.Valid() && f[..ETH] + EmitIpv4(ip) == f[..16] + Grow(f[16..18]) + f[18..IP_END]
  {
    var b := f[ETH..IP_END];
    assert Pow256(2) == U16;
    SliceOfSlice(f, ETH, IP_END, 0, 2);
    SliceOfSlice(f, ETH, IP_END, 2, 4);
    SliceOfSlice(f, ETH, IP_END, 4, 20);
    assert f[..16] == f[..ETH] + f[ETH..16];
    assert b[4..20] == b[4..9] + [b[9]] + b[10..];
  }

  lemma TaggedUdp(f: bytes, u: Udp)
    requires |f| >= UDP_END
    requires var b := f[IP_END..UDP_END];
             u == ReadUdp(b).(length := (FromBE(b[4..6]) + INT_HOP_SIZE) % U16, checksum := 0)
    ensures u.Valid() && EmitUdp(u) == f[IP_END..38] + Grow(f[38..40]) + [0, 0]
  {
    var b := f[IP_END..UDP_END];
    UdpRoundTrip(b);
    assert Pow256(2) == U16;
    EncodeDecode(b[..2]);
    EncodeDecode(b[2..4]);
    SliceOfSlice(f, IP_END, UDP_END, 0, 2);
    SliceOfSlice(f, IP_END, UDP_END, 2, 4);
    SliceOfSlice(f, IP_END, UDP_END, 4, 6);
    NoChecksum();
    JoinPorts(f, BE(2, u.length));
  }

  lemma NoChecksum()
    ensures BE(2, 0) == [0, 0]
  {
    assert BE(0, 0) == [] && BE(1, 0) == [0];
  }

  lemma JoinPorts(f: bytes, length: bytes)
    requires |f| >= UDP_END
    ensures f[34..36] + f[36..38] + length + [0, 0] == f[34..38] + length + [0, 0]
  {
    assert f[34..36] + f[36..38] == f[34..38];
  }

  /** The two length fields agree with the bytes that follow. */
  predicate LengthsConsistent(f: bytes) {
    && |f| >= UDP_END
    && FromBE(f[16..18]) == |f| - ETH
    && FromBE(f[38..40]) == |f| - IP_END
  }

  /** Tagging keeps the lengths right exactly when the grown datagram still fits sixteen bits. */
  lemma LengthsStayConsistent(f: bytes, r: IntHop)
    requires |f| >= UDP_END + SHIM_SIZE && f[UDP_END..][1] < MAX_HOPS && r.InRange() && LengthsConsistent(f)
    ensures |SpliceFrame(f, r)| == |f| + INT_HOP_SIZE
    ensures LengthsConsistent(SpliceFrame(f, r)) <==> |f| - ETH + INT_HOP_SIZE < U16
  {
    SpliceFrameFields(f, r);
    GrowAdds(f[16..18]);
    GrowAdds(f[38..40]);
    SixteenBits(|f| - ETH + INT_HOP_SIZE);
    SixteenBits(|f| - IP_END + INT_HOP_SIZE);
  }

  lemma GrowAdds(b: bytes)
    requires |b| == 2
    ensures FromBE(Grow(b)) == (FromBE(b) + INT_HOP_SIZE) % U16
  {
    assert Pow256(2) == U16;
    DecodeEncode(2, (FromBE(b) + INT_HOP_SIZE) % U16);
  }

  lemma SixteenBits(n: nat)
    ensures n % U16 == n <==> n < U16
  {
  }

  lemma SpliceFrameFields(f: bytes, r: IntHop)
    requires |f| >= UDP_END + SHIM_SIZE && f[UDP_END..][1] < MAX_HOPS && r.InRange()
    ensures var g := SpliceFrame(f, r);
            |g| == |f| + INT_HOP_SIZE && g[16..18] == Grow(f[16..18]) && g[38..40] == Grow(f[38..40])
  {
    var front := GrownFront(f);
    FieldsOf(f[..16], Grow(f[16..18]), f[18..38], Grow(f[38..40]), [0, 0]);
    assert (front + Splice(f[UDP_END..], r))[..UDP_END] == front;
    SliceOfSlice(SpliceFrame(f, r), 0, UDP_END, 16, 18);
    SliceOfSlice(SpliceFrame(f, r), 0, UDP_END, 38, 40);
  }

  lemma FieldsOf(a: bytes, x: bytes, b: bytes, y: bytes, rest: bytes)
    requires |a| == 16 && |x| == 2 && |b| == 20 && |y| == 2
    ensures (a + x + b + y + rest)[16..18] == x && (a + x + b + y + rest)[38..40] == y
  {
  }

  // ---- any number of switches ----

  /** The UDP payload after the switches that offer these records, in path order. */
  function AfterPath(p: bytes, offered: seq<IntHop>): (q: bytes)
    requires |p| >= SHIM_SIZE && AllInRange(offered)
    ensures |q| >= SHIM_SIZE
  {
    if offered == [] then p
    else OneSwitch(AfterPath(p, offered[..|offered| - 1]), offered[|offered| - 1])
  }

  function Reverse(hops: seq<IntHop>): (r: seq<IntHop>)
    ensures |r| == |hops|
    ensures forall i :: 0 <= i < |hops| ==> r[i] == hops[|hops| - 1 - i]
  {
    if hops == [] then [] else [hops[|hops| - 1]] + Reverse(hops[..|hops| - 1])
  }

  function Recorded(offered: seq<IntHop>): seq<IntHop> {
    Reverse(if |offered| <= MAX_HOPS then offered else offered[..MAX_HOPS])
  }

  /** The packet with these records. */
  function Carrying(hops: seq<IntHop>, payload: Payload): Packet {
    Packet(Shim(0, |hops|, MAX_HOPS, 0), hops, payload)
  }

  lemma RecordedNext(offered: seq<IntHop>)
    requires offered != []
    ensures var n := |offered|;
            Recorded(offered) == if n <= MAX_HOPS then [offered[n - 1]] + Recorded(offered[..n - 1])
                                 else Recorded(offered[..n - 1])
    ensures |Recorded(offered)| == if |offered| <= MAX_HOPS then |offered| else MAX_HOPS
  {
    var n := |offered|;
    if n > MAX_HOPS {
      assert offered[..n - 1][..MAX_HOPS] == offered[..MAX_HOPS];
      assert n - 1 == MAX_HOPS ==> offered[..n - 1] == offered[..MAX_HOPS];
    }
  }

  lemma SwitchAdds(hops: seq<IntHop>, payload: Payload, padding: bytes, r: IntHop)
    requires payload.InRange() && AllInRange(hops) && r.InRange() && |hops| <= MAX_HOPS
    requires Fits(1, 0) && Fits(1, MAX_HOPS) && Fits(1, |hops|) && (|hops| < MAX_HOPS ==> Fits(1, |hops| + 1))
    ensures var q := Layout(Carrying(hops, payload)) + padding;
            OneSwitch(q, r) == if |hops| < MAX_HOPS then Layout(Carrying([r] + hops, payload)) + padding else q
  {
    var d := Carrying(hops, payload);
    var q := Layout(d) + padding;
    LayoutRoundTrip(d, padding);
    if |hops| < MAX_HOPS {
      SplicedPayload(q, r);
      assert q[SHIM_SIZE + INT_HOP_SIZE * q[1] + PAYLOAD_SIZE..] == padding;
    }
  }

  lemma RecordedInRange(offered: seq<IntHop>)
    requires AllInRange(offered)
    ensures AllInRange(Recorded(offered)) && |Recorded(offered)| <= MAX_HOPS
  {
  }

  lemma ByteSizes()
    ensures forall n :: 0 <= n <= MAX_HOPS ==> Fits(1, n)
  {
    assert Pow256(1) == 256;
  }

  /** The records after one more switch. */
  function AfterPush(hops: seq<IntHop>, r: IntHop): seq<IntHop> {
    if |hops| < MAX_HOPS then [r] + hops else hops
  }

  lemma RecordedPushes(offered: seq<IntHop>)
    requires offered != []
    ensures Recorded(offered) == AfterPush(Recorded(offered[..|offered| - 1]), offered[|offered| - 1])
  {
    RecordedNext(offered);
    if |offered| > 1 {
      RecordedNext(offered[..|offered| - 1]);
    }
  }

  /** One more switch on the path of a packet that so far carries these records. */
  lemma PathNext(p: bytes, q: bytes, payload: Payload, padding: bytes, front: seq<IntHop>, r: IntHop, hops: seq<IntHop>)
    requires |p| >= SHIM_SIZE && payload.InRange() && AllInRange(front) && r.InRange()
    requires AllInRange(hops) && |hops| <= MAX_HOPS && forall n :: 0 <= n <= MAX_HOPS ==> Fits(1, n)
    requires q == Layout(Carrying(hops, payload)) + padding && AfterPath(p, front) == q
    ensures AfterPath(p, front + [r]) == Layout(Carrying(AfterPush(hops, r), payload)) + padding
  {
    assert (front + [r])[..|front|] == front;
    SwitchAdds(hops, payload, padding, r);
  }

  /** A zero-hop data packet arrives with the records of the first four switches, the
      last of them in front, and is otherwise the packet that was sent. */
  lemma {:induction false} PathRecords(payload: Payload, padding: bytes, offered: seq<IntHop>)
    requires payload.InRange() && AllInRange(offered)
    ensures AllInRange(Recorded(offered)) && Fits(1, |Recorded(offered)|) && Fits(1, 0) && Fits(1, MAX_HOPS)
    ensures AfterPath(Layout(Carrying([], payload)) + padding, offered)
            == Layout(Carrying(Recorded(offered), payload)) + padding
  {
    ByteSizes();
    RecordedInRange(offered);
    if offered != [] {
      var front, r := offered[..|offered| - 1], offered[|offered| - 1];
      PathRecords(payload, padding, front);
      RecordedInRange(front);
      RecordedPushes(offered);
      assert offered == front + [r];
      PathNext(Layout(Carrying([], payload)) + padding, Layout(Carrying(Recorded(front), payload)) + padding,
               payload, padding, front, r, Recorded(front));
    }
  }
}
