/**
 * The frames that a switch sees, byte by byte (compare Layouts): which it takes for data,
 * which it cannot parse, and what exactly one step of the egress control does to a frame and
 * to the registers.
 */
module Frames {
  import opened Common
  import opened Bytes
  import opened WireFormat
  import opened DataPlane
  import opened Layouts
  import Path
  import Switch

  /** Byte 1 of the shim, behind 42 bytes of Ethernet, IPv4 and UDP. */
  function HopCount(f: bytes): nat
    requires |f| >= 46
  {
    f[43]
  }

  predicate ShimComplete(f: bytes) {
    |f| >= 46 && HopCount(f) <= 4 && |f| >= 62 + 26 * HopCount(f)
  }

  predicate DataFrame(f: bytes) {
    ShimComplete(f) && U16At(f, 12) == 0x0800 && f[23] == 17 && U16At(f, 36) == 50000
  }

  /** Cut off inside a header that its front announces, or with more than four records. */
  predicate ParserError(f: bytes) {
    |f| < 14
    || (U16At(f, 12) == 0x0800
        && (|f| < 34
            || (f[23] == 17
                && (|f| < 42 || ((U16At(f, 36) == 50000 || U16At(f, 36) == 50001) && !ShimComplete(f))))))
  }

  lemma CompleteShim(f: bytes)
    requires |f| >= 42
    ensures Complete(f[42..]) && f[42..][1] <= 4 <==> ShimComplete(f)
  {
    if |f| >= 46 {
      assert f[42..][1] == f[43];
    }
  }

  lemma FrontFields(f: bytes)
    ensures |f| >= 14 ==> FromBE(f[12..14]) == U16At(f, 12)
    ensures |f| >= 34 ==> f[14..34][9] == f[23]
    ensures |f| >= 42 ==> FromBE(f[34..42][2..4]) == FromBE(f[36..38]) == U16At(f, 36)
  {
    if |f| >= 14 {
      FieldAt(f, 12, 2);
    }
    if |f| >= 42 {
      FieldAt(f, 36, 2);
      SliceOfSlice(f, 34, 42, 2, 4);
    }
  }

  /** What the parser takes for data, and the egress control for data with room. */
  lemma IsDataIsLayout(f: bytes)
    ensures Path.IsData(f) <==> DataFrame(f)
    ensures Switch.Tagged(f) <==> DataFrame(f) && HopCount(f) < 4
  {
    Path.IsDataIff(f);
    FrontFields(f);
    if |f| >= 42 {
      CompleteShim(f);
    }
    if Path.IsData(f) {
      Path.DataHasShim(f);
    }
  }

  lemma ParserErrorIsLayout(f: bytes)
    ensures Parse(f) == None <==> ParserError(f)
  {
    FrontFields(f);
    if |f| >= 42 {
      CompleteShim(f);
    }
  }

  // ---- the splice ----

  /** g is f with a record behind the shim: 26 bytes longer, both length fields 26 more, the
      UDP checksum zero, the hop count one more, and otherwise as it was. */
  predicate SpliceLaw(f: bytes, r: IntHop, g: bytes)
    requires |f| >= 46
  {
    && |g| == |f| + 26
    && U16At(g, 16) == (U16At(f, 16) + 26) % 0x1_0000 && U16At(g, 38) == (U16At(f, 38) + 26) % 0x1_0000
    && g[40] == g[41] == 0 && g[43] as int == f[43] as int + 1
    && g[..16] == f[..16] && g[18..38] == f[18..38] && g[42] == f[42] && g[44..46] == f[44..46]
    && RecordAt(g, 46, r) && g[72..] == f[46..]
  }

  lemma SplicedPayload(p: bytes, r: IntHop)
    requires |p| >= 4 && p[1] < MAX_HOPS && r.InRange()
    ensures var q := Splice(p, r);
            && |q| == |p| + 26 && q[0] == p[0] && q[1] == p[1] + 1 && q[2..4] == p[2..4]
            && q[4..30] == PackHop(r) && q[30..] == p[4..]
  {
  }

  lemma SplicedFront(f: bytes, r: IntHop)
    requires |f| >= 46 && f[42..][1] < MAX_HOPS && r.InRange()
    ensures var g := SpliceFrame(f, r);
            && |g| == |f| + 26 && g[..16] == f[..16] && g[18..38] == f[18..38] && g[40] == g[41] == 0
            && g[42..] == Splice(f[42..], r)
            && U16At(g, 16) == (U16At(f, 16) + 26) % 0x1_0000 && U16At(g, 38) == (U16At(f, 38) + 26) % 0x1_0000
  {
    var front, g := GrownFront(f), SpliceFrame(f, r);
    assert g[..42] == front;
    assert forall i :: 0 <= i < 42 ==> g[i] == front[i];
    SpliceFrameFields(f, r);
    GrowAdds(f[16..18]);
    GrowAdds(f[38..40]);
    FieldAt(f, 16, 2);
    FieldAt(g, 16, 2);
    FieldAt(f, 38, 2);
    FieldAt(g, 38, 2);
  }

  lemma SpliceObeys(f: bytes, r: IntHop)
    requires |f| >= 46 && f[42..][1] < MAX_HOPS && r.InRange()
    ensures SpliceLaw(f, r, SpliceFrame(f, r))
  {
    var g := SpliceFrame(f, r);
    SplicedFront(f, r);
    SplicedPayload(f[42..], r);
    TailSlice(g, 42, 2, 4);
    TailSlice(f, 42, 2, 4);
    TailSlice(g, 42, 4, 30);
    assert g[42..][30..] == g[72..] && f[42..][4..] == f[46..];
    PackedRecord(r, g[46..72]);
    HopRoundTrip(r);
    RecordIsAt(g, 46, r);
  }

  lemma SameBytes(a: bytes, b: bytes, i: nat)
    requires i + 2 <= |a| && i + 2 <= |b| && U16At(a, i) == U16At(b, i)
    ensures a[i] == b[i] && a[i + 1] == b[i + 1]
  {
  }

  lemma SameRecord(a: bytes, b: bytes, i: nat, r: IntHop)
    requires i + 26 <= |a| && i + 26 <= |b| && RecordAt(a, i, r) && RecordAt(b, i, r)
    ensures a[i..i + 26] == b[i..i + 26]
  {
    RecordIsAt(a, i, r);
    RecordIsAt(b, i, r);
    HopBytesRoundTrip(a[i..i + 26]);
    HopBytesRoundTrip(b[i..i + 26]);
  }

  lemma Reassemble(a: bytes, b: bytes)
    requires |a| == |b| >= 72 && a[..16] == b[..16] && a[18..38] == b[18..38] && a[44..46] == b[44..46]
    requires a[46..72] == b[46..72] && a[72..] == b[72..]
    requires a[16] == b[16] && a[17] == b[17] && a[38] == b[38] && a[39] == b[39]
    requires a[40] == b[40] && a[41] == b[41] && a[42] == b[42] && a[43] == b[43]
    ensures a == b
  {
    assert a == a[..16] + [a[16], a[17]] + a[18..38] + [a[38], a[39], a[40], a[41], a[42], a[43]] + a[44..46]
             + a[46..72] + a[72..];
    assert b == b[..16] + [b[16], b[17]] + b[18..38] + [b[38], b[39], b[40], b[41], b[42], b[43]] + b[44..46]
             + b[46..72] + b[72..];
  }

  /** The law leaves one frame, the one that parser, egress control and deparser emit. */
  lemma SpliceIsLayout(f: bytes, r: IntHop, g: bytes)
    requires |f| >= 46 && f[42..][1] < MAX_HOPS && r.InRange()
    ensures g == SpliceFrame(f, r) <==> SpliceLaw(f, r, g)
  {
    SpliceObeys(f, r);
    if SpliceLaw(f, r, g) {
      var x := SpliceFrame(f, r);
      SameBytes(g, x, 16);
      SameBytes(g, x, 38);
      SameRecord(g, x, 46, r);
      Reassemble(g, x);
    }
  }

  // ---- one step of a switch ----

  /** The record that a frame gains on leaving, and the counter it reads: its port's, with the
      frame as it leaves. */
  function Gained(sw: Switch.Switch, std: StdMeta): IntHop
    requires sw.Valid() && std.Valid()
  {
    var total := (sw.counters[std.egressPort] + std.packetLength + 26) % 0x1_0000_0000_0000;
    IntHop(sw.id, std.ingressPort, std.egressPort, std.enqQdepth, std.egressTstamp, total,
           sw.capacities[std.egressPort])
  }

  lemma GainedIsRecord(sw: Switch.Switch, std: StdMeta)
    requires sw.Valid() && std.Valid()
    ensures Gained(sw, std) == Switch.Record(sw, std)
    ensures |sw.counters| == |sw.capacities| == 16
  {
  }

  /** A data frame with room gains a record, and its port's counter its grown length; any
      other frame that parses passes, and no register moves. */
  predicate ForwardLaw(sw: Switch.Switch, f: bytes, std: StdMeta, sw': Switch.Switch, out: Option<bytes>)
    requires sw.Valid() && std.Valid()
  {
    if DataFrame(f) && HopCount(f) < 4 then
      && sw' == sw.(counters := sw.counters[std.egressPort := Gained(sw, std).txByteCount])
      && out.Some? && SpliceLaw(f, Gained(sw, std), out.value)
    else sw' == sw && out == if ParserError(f) then None else Some(f)
  }

  lemma TaggedForward(sw: Switch.Switch, f: bytes, std: StdMeta, r: IntHop, g: bytes)
    requires sw.Valid() && std.Valid() && Switch.Tagged(f) && r == Switch.Record(sw, std)
    requires |f| >= 46 && f[42..][1] < MAX_HOPS && g == SpliceFrame(f, r)
    ensures Switch.Forward(sw, Switch.Arrival(f, std))
            == (sw.(counters := sw.counters[std.egressPort := r.txByteCount]), Some(g))
  {
  }

  lemma OtherForward(sw: Switch.Switch, f: bytes, std: StdMeta)
    requires sw.Valid() && std.Valid() && !Switch.Tagged(f)
    ensures Switch.Forward(sw, Switch.Arrival(f, std)) == (sw, if Parse(f) == None then None else Some(f))
  {
  }

  /** One step of the switch obeys the law, and no other step does. */
  lemma ForwardIsLaw(sw: Switch.Switch, f: bytes, std: StdMeta, sw': Switch.Switch, out: Option<bytes>)
    requires sw.Valid() && std.Valid()
    ensures ForwardLaw(sw, f, std, sw', out) <==> (sw', out) == Switch.Forward(sw, Switch.Arrival(f, std))
  {
    IsDataIsLayout(f);
    if Switch.Tagged(f) {
      Switch.TaggedHasRoom(f);
      GainedIsRecord(sw, std);
      var r := Switch.Record(sw, std);
      var g := SpliceFrame(f, r);
      TaggedForward(sw, f, std, r, g);
      SpliceIsLayout(f, r, g);
      if out.Some? {
        SpliceIsLayout(f, r, out.value);
      }
    } else {
      ParserErrorIsLayout(f);
      OtherForward(sw, f, std);
    }
  }
}
