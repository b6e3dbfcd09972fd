/**
 * Whole frames through any number of switches: parser, egress control with its registers,
 * and deparser of one switch after the other.
 */
module Path {
  import opened Common
  import opened Bytes
  import opened WireFormat
  import opened DataPlane
  import Switch

  /** A frame that the parser accepts and marks as data. */
  predicate IsData(f: bytes) {
    Parse(f).Some? && Parse(f).value.isData
  }

  function HopCount(f: bytes): nat
    requires |f| >= UDP_END + SHIM_SIZE
  {
    f[UDP_END..][1]
  }

  lemma DataHasShim(f: bytes)
    requires IsData(f)
    ensures |f| >= UDP_END + SHIM_SIZE && HopCount(f) <= MAX_HOPS && Complete(f[UDP_END..])
    ensures Parse(f) == ParseShim(UdpHeaders(f), true, f[UDP_END..])
    ensures Switch.Tagged(f) <==> HopCount(f) < MAX_HOPS
  {
    ParsedData(f);
  }

  // ---- a spliced frame is a data frame again ----

  lemma SplicedFields(f: bytes, r: IntHop)
    requires |f| >= UDP_END + SHIM_SIZE && HopCount(f) < MAX_HOPS && r.InRange()
    ensures var g := SpliceFrame(f, r);
            && |g| == |f| + INT_HOP_SIZE && g[UDP_END..] == Splice(f[UDP_END..], r)
            && g[12..14] == f[12..14] && g[23] == f[23] && g[36..38] == f[36..38]
  {
    var front, g := GrownFront(f), SpliceFrame(f, r);
    assert g[UDP_END..] == Splice(f[UDP_END..], r);
    assert forall i :: 0 <= i < 16 ==> g[i] == front[i] == f[i];
    assert forall i :: 18 <= i < 38 ==> g[i] == front[i] == f[i];
  }

  lemma SplicedPayloadComplete(p: bytes, r: IntHop)
    requires Complete(p) && p[1] < MAX_HOPS && r.InRange()
    ensures Complete(Splice(p, r)) && Splice(p, r)[1] == p[1] + 1
  {
  }

  /** What makes a frame a data frame: its type, protocol and port, and a complete payload. */
  lemma IsDataIff(f: bytes)
    ensures IsData(f) <==>
              && |f| >= UDP_END && FromBE(f[12..14]) == ETHERTYPE_IPV4 && f[23] == IP_PROTO_UDP
              && FromBE(f[36..38]) == DATA_PORT && Complete(f[UDP_END..]) && f[UDP_END..][1] <= MAX_HOPS
  {
    if |f| >= UDP_END {
      assert f[ETH..IP_END][9] == f[23];
      SliceOfSlice(f, IP_END, UDP_END, 2, 4);
    }
  }

  /** The next parser accepts what a switch made of a data frame, and the next egress control
      tags it exactly while there is room. */
  lemma SplicedIsData(f: bytes, r: IntHop)
    requires IsData(f) && Switch.Tagged(f) && r.InRange()
    ensures |f| >= UDP_END + SHIM_SIZE && HopCount(f) < MAX_HOPS
    ensures IsData(SpliceFrame(f, r)) && HopCount(SpliceFrame(f, r)) == HopCount(f) + 1
    ensures Switch.Tagged(SpliceFrame(f, r)) <==> HopCount(f) + 1 < MAX_HOPS
  {
    DataHasShim(f);
    SplicedFields(f, r);
    SplicedPayloadComplete(f[UDP_END..], r);
    IsDataIff(f);
    IsDataIff(SpliceFrame(f, r));
    DataHasShim(SpliceFrame(f, r));
  }

  // ---- a path ----

  /** A switch, with its registers as the frame finds them, and the frame's metadata there. */
  datatype Stop = Stop(sw: Switch.Switch, std: StdMeta) {
    predicate Valid() {
      sw.Valid() && std.Valid()
    }
  }

  predicate ValidPath(stops: seq<Stop>) {
    forall i :: 0 <= i < |stops| ==> stops[i].Valid()
  }

  /** The records that the registers on the path give. */
  function Offered(stops: seq<Stop>): (rs: seq<IntHop>)
    requires ValidPath(stops)
    ensures |rs| == |stops| && AllInRange(rs)
    ensures forall i :: 0 <= i < |rs| ==> rs[i] == Switch.Record(stops[i].sw, stops[i].std)
  {
    seq(|stops|, i requires 0 <= i < |stops| => Switch.Record(stops[i].sw, stops[i].std))
  }

  /** The frame after the switches of the path, each parsing what the one before emitted. */
  function Travel(f: bytes, stops: seq<Stop>): Option<bytes>
    requires ValidPath(stops)
  {
    if stops == [] then Some(f)
    else
      var g := Travel(f, stops[..|stops| - 1]);
      var last := stops[|stops| - 1];
      if g.None? then None else Switch.Forward(last.sw, Switch.Arrival(g.value, last.std)).1
  }

  /** How many of n switches find room for their record. */
  function PushedCount(f: bytes, n: nat): (k: nat)
    requires |f| >= UDP_END + SHIM_SIZE && HopCount(f) <= MAX_HOPS
  {
    if n <= MAX_HOPS - HopCount(f) then n else MAX_HOPS - HopCount(f)
  }

  /** g is f with k records pushed: longer by them, and so are its length fields, modulo 2^16. */
  predicate Grown(f: bytes, k: nat, g: bytes)
    requires |f| >= UDP_END + SHIM_SIZE
  {
    && |g| == |f| + INT_HOP_SIZE * k && HopCount(g) == HopCount(f) + k
    && FromBE(g[16..18]) == (FromBE(f[16..18]) + INT_HOP_SIZE * k) % U16
    && FromBE(g[38..40]) == (FromBE(f[38..40]) + INT_HOP_SIZE * k) % U16
  }

  /** g is f after switches that offered these records: the first ones with room pushed theirs,
      and the UDP payload is that of the path. */
  predicate Arrived(f: bytes, offered: seq<IntHop>, g: bytes)
    requires |f| >= UDP_END + SHIM_SIZE && HopCount(f) <= MAX_HOPS && AllInRange(offered)
  {
    && Grown(f, PushedCount(f, |offered|), g) && |g| >= UDP_END
    && g[UDP_END..] == AfterPath(f[UDP_END..], offered)
  }

  lemma FieldsFit(f: bytes)
    requires |f| >= UDP_END
    ensures FromBE(f[16..18]) % U16 == FromBE(f[16..18]) && FromBE(f[38..40]) % U16 == FromBE(f[38..40])
  {
    FromBEFits(f[16..18]);
    FromBEFits(f[38..40]);
    assert Pow256(2) == U16;
  }

  lemma WrapTwice(x: nat, y: nat)
    ensures (x % U16 + y) % U16 == (x + y) % U16
  {
  }

  /** h is what one switch that offers r makes of g. */
  predicate OneStop(g: bytes, r: IntHop, h: bytes)
    requires |g| >= UDP_END + SHIM_SIZE && r.InRange()
  {
    && |h| >= UDP_END + SHIM_SIZE && h[UDP_END..] == OneSwitch(g[UDP_END..], r)
    && if HopCount(g) < MAX_HOPS then
         && |h| == |g| + INT_HOP_SIZE && HopCount(h) == HopCount(g) + 1
         && FromBE(h[16..18]) == (FromBE(g[16..18]) + INT_HOP_SIZE) % U16
         && FromBE(h[38..40]) == (FromBE(g[38..40]) + INT_HOP_SIZE) % U16
       else h == g
  }

  lemma SpliceIsOneStop(g: bytes, r: IntHop)
    requires |g| >= UDP_END + SHIM_SIZE && HopCount(g) < MAX_HOPS && Complete(g[UDP_END..]) && r.InRange()
    ensures OneStop(g, r, SpliceFrame(g, r))
  {
    SplicedFields(g, r);
    SplicedPayloadComplete(g[UDP_END..], r);
    SpliceFrameFields(g, r);
    GrowAdds(g[16..18]);
    GrowAdds(g[38..40]);
  }

  /** One switch on the way of a data frame. */
  lemma ForwardIsOneStop(st: Stop, g: bytes)
    requires st.Valid() && IsData(g)
    ensures |g| >= UDP_END + SHIM_SIZE
    ensures var out := Switch.Forward(st.sw, Switch.Arrival(g, st.std)).1;
            out.Some? && IsData(out.value) && OneStop(g, Switch.Record(st.sw, st.std), out.value)
  {
    DataHasShim(g);
    var r := Switch.Record(st.sw, st.std);
    Switch.ForwardPushes(st.sw, Switch.Arrival(g, st.std));
    if Switch.Tagged(g) {
      SplicedIsData(g, r);
      SpliceIsOneStop(g, r);
    }
  }

  lemma AfterOneMore(p: bytes, offered: seq<IntHop>, r: IntHop)
    requires |p| >= SHIM_SIZE && AllInRange(offered) && r.InRange()
    ensures AllInRange(offered + [r]) && AfterPath(p, offered + [r]) == OneSwitch(AfterPath(p, offered), r)
  {
    assert (offered + [r])[..|offered|] == offered;
  }

  lemma Wrapped(start: nat, before: nat, after: nat, k: nat)
    requires before == (start + INT_HOP_SIZE * k) % U16 && after == (before + INT_HOP_SIZE) % U16
    ensures after == (start + INT_HOP_SIZE * (k + 1)) % U16
  {
    WrapTwice(start + INT_HOP_SIZE * k, INT_HOP_SIZE);
  }

  lemma LengthsNext(f: bytes, g: bytes, h: bytes, k: nat)
    requires |f| >= UDP_END && |g| >= UDP_END && |h| >= UDP_END
    requires FromBE(g[16..18]) == (FromBE(f[16..18]) + INT_HOP_SIZE * k) % U16
    requires FromBE(g[38..40]) == (FromBE(f[38..40]) + INT_HOP_SIZE * k) % U16
    requires FromBE(h[16..18]) == (FromBE(g[16..18]) + INT_HOP_SIZE) % U16
    requires FromBE(h[38..40]) == (FromBE(g[38..40]) + INT_HOP_SIZE) % U16
    ensures FromBE(h[16..18]) == (FromBE(f[16..18]) + INT_HOP_SIZE * (k + 1)) % U16
    ensures FromBE(h[38..40]) == (FromBE(f[38..40]) + INT_HOP_SIZE * (k + 1)) % U16
  {
    Wrapped(FromBE(f[16..18]), FromBE(g[16..18]), FromBE(h[16..18]), k);
    Wrapped(FromBE(f[38..40]), FromBE(g[38..40]), FromBE(h[38..40]), k);
  }

  lemma GrowsNext(f: bytes, k: nat, g: bytes, r: IntHop, h: bytes)
    requires |f| >= UDP_END + SHIM_SIZE && Grown(f, k, g) && r.InRange() && OneStop(g, r, h)
    ensures Grown(f, if HopCount(g) < MAX_HOPS then k + 1 else k, h)
  {
    if HopCount(g) < MAX_HOPS {
      LengthsNext(f, g, h, k);
    }
  }

  lemma ArrivesNext(f: bytes, offered: seq<IntHop>, g: bytes, r: IntHop, h: bytes)
    requires |f| >= UDP_END + SHIM_SIZE && HopCount(f) <= MAX_HOPS && AllInRange(offered) && r.InRange()
    requires Arrived(f, offered, g) && OneStop(g, r, h)
    ensures AllInRange(offered + [r]) && Arrived(f, offered + [r], h)
  {
    AfterOneMore(f[UDP_END..], offered, r);
    GrowsNext(f, PushedCount(f, |offered|), g, r, h);
  }

  lemma OfferedNext(stops: seq<Stop>)
    requires ValidPath(stops) && stops != []
    ensures var last := stops[|stops| - 1];
            Offered(stops) == Offered(stops[..|stops| - 1]) + [Switch.Record(last.sw, last.std)]
  {
  }

  /** The frame got through, as a data frame. */
  predicate Reached(f: bytes, stops: seq<Stop>)
    requires |f| >= UDP_END + SHIM_SIZE && HopCount(f) <= MAX_HOPS && ValidPath(stops)
  {
    var g := Travel(f, stops);
    g.Some? && IsData(g.value) && Arrived(f, Offered(stops), g.value)
  }

  lemma ReachesNext(f: bytes, stops: seq<Stop>)
    requires |f| >= UDP_END + SHIM_SIZE && HopCount(f) <= MAX_HOPS
    requires ValidPath(stops) && stops != [] && Reached(f, stops[..|stops| - 1])
    ensures Reached(f, stops)
  {
    var front, last := stops[..|stops| - 1], stops[|stops| - 1];
    OfferedNext(stops);
    ForwardIsOneStop(last, Travel(f, front).value);
    ArrivesNext(f, Offered(front), Travel(f, front).value, Switch.Record(last.sw, last.std), Travel(f, stops).value);
  }

  lemma ArrivedAtStart(f: bytes)
    requires |f| >= UDP_END + SHIM_SIZE && HopCount(f) <= MAX_HOPS
    ensures Arrived(f, [], f)
  {
    FieldsFit(f);
  }

  lemma ReachedAtStart(f: bytes)
    requires |f| >= UDP_END + SHIM_SIZE && HopCount(f) <= MAX_HOPS && IsData(f)
    ensures Reached(f, [])
  {
    ArrivedAtStart(f);
    assert Offered([]) == [];
  }

  /** Any data frame, over any path: every switch accepts it, the first ones with room push
      their record, and the payload is the one that the network model computes. */
  lemma {:induction false} TravelIsAfterPath(f: bytes, stops: seq<Stop>)
    requires |f| >= UDP_END + SHIM_SIZE && HopCount(f) <= MAX_HOPS && IsData(f) && ValidPath(stops)
    ensures Reached(f, stops)
  {
    if stops == [] {
      ReachedAtStart(f);
    } else {
      TravelIsAfterPath(f, stops[..|stops| - 1]);
      ReachesNext(f, stops);
    }
  }

  lemma LengthsOnArrival(f: bytes, offered: seq<IntHop>, g: bytes)
    requires |f| >= UDP_END + SHIM_SIZE && HopCount(f) <= MAX_HOPS && AllInRange(offered)
    requires LengthsConsistent(f) && Arrived(f, offered, g)
    ensures LengthsConsistent(g) <==> |f| - ETH + INT_HOP_SIZE * PushedCount(f, |offered|) < U16
  {
    var k := PushedCount(f, |offered|);
    SixteenBits(|f| - ETH + INT_HOP_SIZE * k);
    SixteenBits(|f| - IP_END + INT_HOP_SIZE * k);
  }

  /** The records of any path, end to end: a data frame arrives with exactly the records that
      found room, and lengths that were right stay right exactly when the datagram with all
      of them still fits sixteen bits. */
  lemma FrameAfterPath(f: bytes, stops: seq<Stop>)
    requires IsData(f) && ValidPath(stops)
    ensures |f| >= UDP_END + SHIM_SIZE && HopCount(f) <= MAX_HOPS && Reached(f, stops)
    ensures LengthsConsistent(f) ==>
              (LengthsConsistent(Travel(f, stops).value)
               <==> |f| - ETH + INT_HOP_SIZE * PushedCount(f, |stops|) < U16)
  {
    DataHasShim(f);
    TravelIsAfterPath(f, stops);
    if LengthsConsistent(f) {
      LengthsOnArrival(f, Offered(stops), Travel(f, stops).value);
    }
  }
}
