/**
 * The egress control of p4src/hpcc.p4 with its registers, the mutable state of a switch,
 * frame by frame and over whole runs.
 */
module Switch {
  import opened Common
  import opened Bytes
  import opened WireFormat
  import opened DataPlane

  // ---- the byte counter of one port ----

  /** A frame leaving a port; `tagged` says whether it gained a record there. */
  datatype Departure = Departure(port: nat, tagged: bool, length: nat)

  /** A port's counter after a departure: only tagged frames of that port count, as they leave. */
  function Counted(total: nat, d: Departure, port: nat): nat {
    if d.tagged && d.port == port then (total + d.length + INT_HOP_SIZE) % U48 else total
  }

  function CounterAfter(start: nat, log: seq<Departure>, port: nat): (total: nat)
    ensures start < U48 ==> total < U48
  {
    if log == [] then start
    else Counted(CounterAfter(start, log[..|log| - 1], port), log[|log| - 1], port)
  }

  /** Bytes, records included, of the tagged frames that left `port`. */
  function Traffic(log: seq<Departure>, port: nat): nat {
    if log == [] then 0
    else
      var d := log[|log| - 1];
      Traffic(log[..|log| - 1], port) + (if d.tagged && d.port == port then d.length + INT_HOP_SIZE else 0)
  }

  lemma {:induction false} CounterIsTraffic(start: nat, log: seq<Departure>, port: nat)
    requires start < U48
    ensures CounterAfter(start, log, port) == (start + Traffic(log, port)) % U48
  {
    if log != [] {
      var front, d := log[..|log| - 1], log[|log| - 1];
      CounterIsTraffic(start, front, port);
      AddWrapped(start + Traffic(front, port), d.length + INT_HOP_SIZE);
    }
  }

  lemma AddWrapped(a: nat, b: nat)
    ensures (a % U48 + b) % U48 == (a + b) % U48
  {
    var q := a / U48;
    assert a % U48 + b == (a + b) - U48 * q;
    ModShift(a + b, q);
  }

  lemma {:induction false} CounterComposes(start: nat, log: seq<Departure>, more: seq<Departure>, port: nat)
    ensures CounterAfter(start, log + more, port) == CounterAfter(CounterAfter(start, log, port), more, port)
  {
    if more == [] {
      assert log + more == log;
    } else {
      CounterComposes(start, log, more[..|more| - 1], port);
      assert (log + more)[..|log + more| - 1] == log + more[..|more| - 1];
    }
  }

  /** Two readings of one port's counter differ by the traffic in between, modulo 2^48;
      and as long as that traffic is below 2^48, the plain difference is the traffic
      exactly when it is not negative. */
  lemma CounterTelescopes(start: nat, log: seq<Departure>, between: seq<Departure>, port: nat)
    requires start < U48
    ensures var first := CounterAfter(start, log, port);
            var second := CounterAfter(start, log + between, port);
            && first < U48 && second < U48
            && (second - first) % U48 == Traffic(between, port) % U48
            && (Traffic(between, port) < U48 ==>
                  (second - first >= 0 <==> second - first == Traffic(between, port)))
  {
    CounterIsTraffic(start, log, port);
    var first := CounterAfter(start, log, port);
    CounterComposes(start, log, between, port);
    CounterIsTraffic(first, between, port);
    var t := Traffic(between, port);
    var second := (first + t) % U48;
    assert second - first == t - U48 * ((first + t) / U48);
    ModShift(t, (first + t) / U48);
  }

  /** So the plain difference is the traffic modulo 2^48, less 2^48 when the counter wrapped. */
  lemma CounterDifference(start: nat, log: seq<Departure>, between: seq<Departure>, port: nat)
    requires start < U48
    ensures var first, second := CounterAfter(start, log, port), CounterAfter(start, log + between, port);
            var sent: int := Traffic(between, port) % U48;
            second - first == if first + sent >= U48 then sent - U48 else sent
  {
    CounterTelescopes(start, log, between, port);
    var difference: int := CounterAfter(start, log + between, port) - CounterAfter(start, log, port);
    Residue(difference, Traffic(between, port) % U48);
  }

  lemma Residue(d: int, r: nat)
    requires -U48 < d < U48 && r < U48 && d % U48 == r
    ensures d == if d < 0 then r - U48 else r
  {
  }

  lemma ModShift(t: int, k: int)
    ensures (t - U48 * k) % U48 == t % U48
  {
    var q, q' := t / U48, (t - U48 * k) / U48;
    assert t == U48 * q + t % U48;
    assert t - U48 * k == U48 * q' + (t - U48 * k) % U48;
  }

  // ---- one frame ----

  datatype Switch = Switch(id: nat, capacities: seq<nat>, counters: seq<nat>) {
    predicate Valid() {
      && Fits(2, id) && |capacities| == |counters| == BMV2_MAX_PORTS
      && (forall p :: 0 <= p < BMV2_MAX_PORTS ==> Fits(6, counters[p]) && Fits(4, capacities[p]))
    }
  }

  datatype Arrival = Arrival(frame: bytes, std: StdMeta)

  lemma FortyEightBits()
    ensures Pow256(6) == U48
  {
  }

  lemma CounterFits(sw: Switch, port: nat)
    requires sw.Valid() && port < BMV2_MAX_PORTS
    ensures sw.counters[port] < U48
  {
    FortyEightBits();
  }

  /** The record that the next tagged frame gains: its port's counter moves on by the
      frame as it leaves, the record included. */
  function Record(sw: Switch, std: StdMeta): (r: IntHop)
    requires sw.Valid() && std.Valid()
    ensures r.InRange()
  {
    FortyEightBits();
    IntHop(sw.id, std.ingressPort, std.egressPort, std.enqQdepth, std.egressTstamp,
           (sw.counters[std.egressPort] + std.packetLength + INT_HOP_SIZE) % U48, sw.capacities[std.egressPort])
  }

  /** The parser accepts the frame, and the egress control tags it. */
  predicate Tagged(f: bytes) {
    Parse(f).Some? && Tags(Parse(f).value.hdr, Parse(f).value.isData)
  }

  lemma TaggedHasRoom(f: bytes)
    requires Tagged(f)
    ensures |f| >= UDP_END + SHIM_SIZE && f[UDP_END..][1] < MAX_HOPS
  {
    ParsedData(f);
  }

  /** What becomes of a frame, given whether the parser accepts it and the control tags it. */
  function ForwardAs(sw: Switch, a: Arrival, accepted: bool, tagged: bool): (r: (Switch, Option<bytes>))
    requires sw.Valid() && a.std.Valid()
    requires tagged ==> |a.frame| >= UDP_END + SHIM_SIZE && a.frame[UDP_END..][1] < MAX_HOPS
    ensures r.0.Valid()
  {
    if !tagged then (sw, if accepted then Some(a.frame) else None)
    else
      var r := Record(sw, a.std);
      (sw.(counters := sw.counters[a.std.egressPort := r.txByteCount]), Some(SpliceFrame(a.frame, r)))
  }

  function Forward(sw: Switch, a: Arrival): (r: (Switch, Option<bytes>))
    requires sw.Valid() && a.std.Valid()
    ensures r.0.Valid()
  {
    if Tagged(a.frame) then
      TaggedHasRoom(a.frame);
      ForwardAs(sw, a, true, true)
    else ForwardAs(sw, a, Parse(a.frame).Some?, false)
  }

  // ---- the egress registers and the pipeline ----

  class HpccEgress {
    const txByteCount: array<nat>
    const linkBps: array<nat>
    var switchId: nat

    predicate Valid()
      reads this, txByteCount, linkBps
    {
      && txByteCount.Length == linkBps.Length == BMV2_MAX_PORTS && txByteCount != linkBps
      && Fits(2, switchId)
      && (forall p :: 0 <= p < BMV2_MAX_PORTS ==> Fits(6, txByteCount[p]))
      && (forall p :: 0 <= p < BMV2_MAX_PORTS ==> Fits(4, linkBps[p]))
    }

    /** The counters start at zero, as the controller resets them. */
    constructor (id: nat, capacities: seq<nat>)
      requires Fits(2, id) && |capacities| == BMV2_MAX_PORTS
      requires forall p :: 0 <= p < BMV2_MAX_PORTS ==> Fits(4, capacities[p])
      ensures Valid() && fresh(txByteCount) && fresh(linkBps)
      ensures switchId == id && linkBps[..] == capacities
      ensures forall p :: 0 <= p < BMV2_MAX_PORTS ==> txByteCount[p] == 0
    {
      txByteCount := new nat[BMV2_MAX_PORTS](_ => 0);
      linkBps := new nat[BMV2_MAX_PORTS](i requires 0 <= i < |capacities| => capacities[i]);
      switchId := id;
      new;
      assert linkBps[..] == capacities;
    }

    function View(): Switch
      reads this, txByteCount, linkBps
    {
      Switch(switchId, linkBps[..], txByteCount[..])
    }

    /** The record that the next tagged frame would gain. */
    function NextRecord(std: StdMeta): (r: IntHop)
      requires Valid() && std.Valid()
      reads this, txByteCount, linkBps
      ensures r.InRange()
    {
      Record(View(), std)
    }

    /** A frame either passes untouched, counters included, or gains one record and has
        its grown length added to the counter of its port and of no other port. */
    method Apply(hdr: Headers, isData: bool, std: StdMeta) returns (out: Headers)
      requires Valid() && hdr.Valid() && std.Valid() && (isData ==> hdr.shim.Some? && hdr.udp.Some?)
      modifies txByteCount
      ensures Valid() && out.Valid()
      ensures !Tags(hdr, isData) ==> out == hdr && txByteCount[..] == old(txByteCount[..])
      ensures Tags(hdr, isData) ==>
                var record := old(NextRecord(std));
                && txByteCount[..] == old(txByteCount[..])[std.egressPort := record.txByteCount]
                && out == Tag(hdr, record)
    {
      out := hdr;
      if hdr.ipv4.None? || !isData {
        return;
      }
      if hdr.shim.value.hopCount >= MAX_HOPS {
        return;
      }
      var egport := std.egressPort;
      var bytesSoFar := txByteCount[egport];
      bytesSoFar := (bytesSoFar + std.packetLength + INT_HOP_SIZE) % U48;
      FortyEightBits();
      txByteCount[egport] := bytesSoFar;
      var record := IntHop(switchId, std.ingressPort, egport, std.enqQdepth, std.egressTstamp,
                           bytesSoFar, linkBps[egport]);
      out := out.(hops := PushFront(out.hops, record));
      out := out.(shim := Some(out.shim.value.(hopCount := out.shim.value.hopCount + 1)));
      out := out.(udp := Some(out.udp.value.(length := (out.udp.value.length + INT_HOP_SIZE) % U16)));
      out := out.(ipv4 := Some(out.ipv4.value.(totalLen := (out.ipv4.value.totalLen + INT_HOP_SIZE) % U16)));
      out := out.(udp := Some(out.udp.value.(checksum := 0)));
      assert Pow256(2) == U16 && Pow256(1) == 256;
    }

    /** Parser, egress control, deparser and the bytes past the headers, for frames that the
        parser accepts: the UDP payload of a data frame goes through one switch of a path,
        other frames pass.  `None` stands for a parser error, whose handling is left out. */
    method Process(f: bytes, std: StdMeta) returns (out: Option<bytes>)
      requires Valid() && std.Valid()
      modifies txByteCount
      ensures Valid() && (out.Some? <==> Parse(f).Some?)
      ensures (View(), out) == Forward(old(View()), Arrival(f, std))
      ensures var tagged := Tagged(f);
              var record := old(NextRecord(std));
              && (out.Some? && !tagged ==> out.value == f)
              && (tagged ==> |f| >= UDP_END + SHIM_SIZE && f[UDP_END..][1] < MAX_HOPS
                             && out.value == SpliceFrame(f, record)
                             && out.value[UDP_END..] == OneSwitch(f[UDP_END..], record))
              && (txByteCount[..] == if tagged then old(txByteCount[..])[std.egressPort := record.txByteCount]
                                     else old(txByteCount[..]))
    {
      var parsed := RunParser(f);
      if parsed.None? {
        return None;
      }
      var x := parsed.value;
      ghost var record := NextRecord(std);
      TaggingIsSplicing(f, record);
      var hdr := Apply(x.hdr, x.isData, std);
      out := Some(Deparse(hdr) + x.rest);
    }
  }

  // ---- a whole run of one switch ----

  /** `trace[i]` is the switch before frame i, `outs[i]` what it emits for it. */
  predicate Run(trace: seq<Switch>, arrivals: seq<Arrival>, outs: seq<Option<bytes>>) {
    && |trace| == |arrivals| + 1 && |outs| == |arrivals| && trace[0].Valid()
    && forall i :: 0 <= i < |arrivals| ==>
                     trace[i].Valid() && arrivals[i].std.Valid()
                     && (trace[i + 1], outs[i]) == Forward(trace[i], arrivals[i])
  }

  function Departed(a: Arrival): Departure {
    Departure(a.std.egressPort, Tagged(a.frame), a.std.packetLength)
  }

  /** The frames as they left. */
  function LogOf(arrivals: seq<Arrival>): (log: seq<Departure>)
    ensures |log| == |arrivals|
    ensures forall i :: 0 <= i < |log| ==> log[i] == Departed(arrivals[i])
  {
    seq(|arrivals|, i requires 0 <= i < |arrivals| => Departed(arrivals[i]))
  }

  lemma ForwardAsCounts(sw: Switch, a: Arrival, accepted: bool, tagged: bool, port: nat)
    requires sw.Valid() && a.std.Valid() && port < BMV2_MAX_PORTS
    requires tagged ==> |a.frame| >= UDP_END + SHIM_SIZE && a.frame[UDP_END..][1] < MAX_HOPS
    ensures var sw' := ForwardAs(sw, a, accepted, tagged).0;
            && sw'.id == sw.id && sw'.capacities == sw.capacities
            && sw'.counters[port]
               == Counted(sw.counters[port], Departure(a.std.egressPort, tagged, a.std.packetLength), port)
  {
  }

  lemma ForwardCounts(sw: Switch, a: Arrival, port: nat)
    requires sw.Valid() && a.std.Valid() && port < BMV2_MAX_PORTS
    ensures var sw' := Forward(sw, a).0;
            && sw'.id == sw.id && sw'.capacities == sw.capacities
            && sw'.counters[port] == Counted(sw.counters[port], Departed(a), port)
  {
    if Tagged(a.frame) {
      TaggedHasRoom(a.frame);
      ForwardAsCounts(sw, a, true, true, port);
    } else {
      ForwardAsCounts(sw, a, Parse(a.frame).Some?, false, port);
    }
  }

  lemma {:induction false} CountsAddUp(totals: seq<nat>, log: seq<Departure>, port: nat, n: nat)
    requires n <= |log| < |totals|
    requires forall i :: 0 <= i < n ==> totals[i + 1] == Counted(totals[i], log[i], port)
    ensures totals[n] == CounterAfter(totals[0], log[..n], port)
  {
    if n > 0 {
      CountsAddUp(totals, log, port, n - 1);
      assert log[..n][..n - 1] == log[..n - 1];
    }
  }

  lemma {:induction false} StaysTheSwitch(trace: seq<Switch>, arrivals: seq<Arrival>, outs: seq<Option<bytes>>, n: nat)
    requires Run(trace, arrivals, outs) && n <= |arrivals|
    ensures trace[n].Valid() && trace[n].id == trace[0].id && trace[n].capacities == trace[0].capacities
  {
    if n > 0 {
      StaysTheSwitch(trace, arrivals, outs, n - 1);
      ForwardCounts(trace[n - 1], arrivals[n - 1], 0);
    }
  }

  /** In every run each port's counter is its first value and the tagged traffic of that
      port, modulo 2^48. */
  lemma CountersFollowLog(trace: seq<Switch>, arrivals: seq<Arrival>, outs: seq<Option<bytes>>, n: nat, port: nat)
    requires Run(trace, arrivals, outs) && n <= |arrivals| && port < BMV2_MAX_PORTS
    ensures trace[0].Valid() && trace[n].Valid()
    ensures trace[n].counters[port] == CounterAfter(trace[0].counters[port], LogOf(arrivals)[..n], port)
  {
    forall i | 0 <= i <= |arrivals|
      ensures trace[i].Valid()
    {
      StaysTheSwitch(trace, arrivals, outs, i);
    }
    var totals := seq(|trace|, i requires 0 <= i < |trace| => trace[i].counters[port]);
    forall i | 0 <= i < n
      ensures totals[i + 1] == Counted(totals[i], LogOf(arrivals)[i], port)
    {
      ForwardCounts(trace[i], arrivals[i], port);
    }
    CountsAddUp(totals, LogOf(arrivals), port, n);
  }

  /** Frame k of a run leaves with this record. */
  predicate Pushed(arrivals: seq<Arrival>, outs: seq<Option<bytes>>, k: nat, r: IntHop) {
    && k < |arrivals| == |outs| && Tagged(arrivals[k].frame) && r.InRange()
    && |arrivals[k].frame| >= UDP_END + SHIM_SIZE && arrivals[k].frame[UDP_END..][1] < MAX_HOPS
    && outs[k] == Some(SpliceFrame(arrivals[k].frame, r))
  }

  lemma ForwardPushes(sw: Switch, a: Arrival)
    requires sw.Valid() && a.std.Valid()
    ensures Tagged(a.frame) ==>
              && |a.frame| >= UDP_END + SHIM_SIZE && a.frame[UDP_END..][1] < MAX_HOPS
              && Forward(sw, a).1 == Some(SpliceFrame(a.frame, Record(sw, a.std)))
              && Forward(sw, a).0.counters[a.std.egressPort] == Record(sw, a.std).txByteCount
    ensures !Tagged(a.frame) ==> Forward(sw, a) == (sw, if Parse(a.frame).Some? then Some(a.frame) else None)
  {
    if Tagged(a.frame) {
      TaggedHasRoom(a.frame);
    }
  }

  /** The record of a tagged frame reads its port's counter at that time, its own bytes included. */
  lemma ReadsItsCounter(trace: seq<Switch>, arrivals: seq<Arrival>, outs: seq<Option<bytes>>, k: nat)
    requires Run(trace, arrivals, outs) && k < |arrivals|
    ensures trace[0].Valid() && trace[k].Valid() && arrivals[k].std.Valid()
    ensures trace[k].id == trace[0].id && trace[k].capacities == trace[0].capacities
    ensures var port := arrivals[k].std.egressPort;
            Tagged(arrivals[k].frame) ==>
              Record(trace[k], arrivals[k].std).txByteCount
              == CounterAfter(trace[0].counters[port], LogOf(arrivals)[..k + 1], port)
  {
    StaysTheSwitch(trace, arrivals, outs, k);
    CountersFollowLog(trace, arrivals, outs, k + 1, arrivals[k].std.egressPort);
    ForwardPushes(trace[k], arrivals[k]);
  }

  /** In every run a frame that is tagged leaves with the record of its port's counter at
      that time, its own bytes included, and every other accepted frame as it came. */
  lemma PushesItsCounter(trace: seq<Switch>, arrivals: seq<Arrival>, outs: seq<Option<bytes>>, k: nat)
    requires Run(trace, arrivals, outs) && k < |arrivals|
    ensures trace[0].Valid() && trace[k].Valid() && arrivals[k].std.Valid()
    ensures var r, std := Record(trace[k], arrivals[k].std), arrivals[k].std;
            && r.switchId == trace[0].id && r.egressPort == std.egressPort && r.ingressPort == std.ingressPort
            && r.qdepth == std.enqQdepth && r.egressTstampUs == std.egressTstamp
            && r.linkBps == trace[0].capacities[std.egressPort]
            && (Tagged(arrivals[k].frame) ==>
                  && Pushed(arrivals, outs, k, r)
                  && r.txByteCount
                     == CounterAfter(trace[0].counters[std.egressPort], LogOf(arrivals)[..k + 1], std.egressPort))
            && (!Tagged(arrivals[k].frame) && outs[k].Some? ==> outs[k].value == arrivals[k].frame)
  {
    ReadsItsCounter(trace, arrivals, outs, k);
    ForwardPushes(trace[k], arrivals[k]);
    assert (trace[k + 1], outs[k]) == Forward(trace[k], arrivals[k]);
  }

  /** r reads its port's counter right after the k-th departure of the log. */
  predicate Reads(counters: seq<nat>, log: seq<Departure>, k: nat, r: IntHop) {
    && 0 <= r.egressPort < |counters| && counters[r.egressPort] < U48 && k < |log| && r.linkBps >= 0
    && r.txByteCount == CounterAfter(counters[r.egressPort], log[..k + 1], r.egressPort)
  }

  /** The record of a tagged frame: what it leaves with, and what it reads. */
  lemma PushedRecord(trace: seq<Switch>, arrivals: seq<Arrival>, outs: seq<Option<bytes>>, k: nat) returns (r: IntHop)
    requires Run(trace, arrivals, outs) && k < |arrivals| && Tagged(arrivals[k].frame)
    ensures Pushed(arrivals, outs, k, r)
    ensures Reads(trace[0].counters, LogOf(arrivals), k, r)
    ensures r.switchId == trace[0].id && r.egressPort == arrivals[k].std.egressPort
    ensures r.egressTstampUs == arrivals[k].std.egressTstamp
    ensures trace[0].Valid() && r.linkBps == trace[0].capacities[r.egressPort]
  {
    PushesItsCounter(trace, arrivals, outs, k);
    CounterFits(trace[0], arrivals[k].std.egressPort);
    r := Record(trace[k], arrivals[k].std);
  }

  /** Two tagged frames of one port never leave with the same counter, unless the traffic in
      between, at least the second frame, comes round the counter exactly. */
  lemma CountersDiffer(counters: seq<nat>, log: seq<Departure>, i: nat, j: nat, first: IntHop, second: IntHop)
    requires Reads(counters, log, i, first) && Reads(counters, log, j, second) && i < j
    requires first.egressPort == second.egressPort
    ensures first.txByteCount == second.txByteCount <==> Traffic(log[i + 1..j + 1], second.egressPort) % U48 == 0
  {
    var port := second.egressPort;
    assert log[..i + 1] + log[i + 1..j + 1] == log[..j + 1];
    CounterTelescopes(counters[port], log[..i + 1], log[i + 1..j + 1], port);
  }
}
