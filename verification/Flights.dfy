/**
 * Flights: when does an update of the second sender rest on feedback for everything that
 * was outstanding at the update before it?
 */
module Flights {
  import opened Common
  import opened WireFormat
  import opened Utilization
  import opened Window
  import opened SenderSpec
  import opened Conservation
  import opened Epochs
  import Rto

  // ---- every packet fits the window it was sent under ----

  /** Packet k and the unacknowledged packets before it fill at most its own snapshot. */
  predicate FlightFits(s: State) {
    forall k :: k in s.inFlight ==> k - s.cumAcked <= s.inFlight[k].wRef.Floor
  }

  lemma StepKeepsFit(v: Variant, c: Config, limit: Option<nat>, s: State, e: Event)
    requires c.Valid() && Inv(c, s) && Enabled(limit, s, e) && FlightFits(s) && !TimesOut(c, s, e)
    ensures FlightFits(Apply(v, c, s, e))
  {
    match e
    case Send(ts) =>
      FlightSize(c, s);
    case Ack(ackSeq, hops, now) =>
      var s1 := Advance(s, ackSeq);
      assert FlightFits(s1);
    case Timer(_, _) =>
  }

  /** A timeout re-tags the whole flight with the halved window, so it keeps the fit
      exactly when the flight fits the halved window. */
  lemma TimeoutKeepsFitIff(c: Config, s: State, clock: int -> int)
    requires c.Valid() && Inv(c, s)
    ensures FlightFits(Timeout(s, clock)) <==> |s.inFlight| <= Max(W_MIN, s.wRef / 2.0).Floor
  {
    FlightSize(c, s);
    var s' := Timeout(s, clock);
    if s.inFlight != map[] {
      assert s.nextSeq - 1 in s'.inFlight;
    }
  }

  /** A timeout, if the event is one, finds no more packets than the halved window holds. */
  predicate TimeoutFits(c: Config, s: State, e: Event) {
    TimesOut(c, s, e) ==> |s.inFlight| <= Max(W_MIN, s.wRef / 2.0).Floor
  }

  /** In a run without timeouts, or with fitting ones, every packet always fits. */
  lemma {:induction false} FlightAlwaysFits(v: Variant, c: Config, limit: Option<nat>, trace: seq<State>,
                                            events: seq<Event>, wInit: nat, t0: real, i: nat)
    requires c.Valid() && Run(v, c, limit, trace, events) && FromStart(c, trace, wInit, t0) && i <= |events|
    requires forall k :: 0 <= k < i ==> TimeoutFits(c, trace[k], events[k])
    ensures FlightFits(trace[i])
  {
    if i > 0 {
      var s, e := trace[i - 1], events[i - 1];
      FlightAlwaysFits(v, c, limit, trace, events, wInit, t0, i - 1);
      RunKeepsInv(v, c, limit, trace, events, wInit, t0, i - 1);
      if TimesOut(c, s, e) {
        TimeoutKeepsFitIff(c, s, e.clock);
      } else {
        StepKeepsFit(v, c, limit, s, e);
      }
    }
  }

  // ---- where the fit is lost, and where it returns ----

  /** What the last timeout sent again: the packets below `below`, under a window of `room` packets. */
  datatype Resent = Resent(below: nat, room: int)

  function NextResent(c: Config, s: State, e: Event, s': State, r: Resent): Resent {
    if TimesOut(c, s, e) then Resent(s'.nextSeq, s'.wRef.Floor) else r
  }

  function LastResent(c: Config, trace: seq<State>, events: seq<Event>, n: nat): Resent
    requires n <= |events| < |trace|
  {
    if n == 0 then Resent(0, 0)
    else NextResent(c, trace[n - 1], events[n - 1], trace[n], LastResent(c, trace, events, n - 1))
  }

  /** The cumulative point from which the packets of the last timeout fit their window. */
  function FitPoint(r: Resent): int {
    r.below - 1 - r.room
  }

  /** The packets that the last timeout sent again carry its window; those between them and
      `upTo` are no further from `base` than their own snapshot. */
  predicate Tagged(s: State, r: Resent, base: int, upTo: int) {
    && r.below <= s.nextSeq && (if r.below == 0 then r.room == 0 else r.room >= 1)
    && (forall k :: k in s.inFlight && k < r.below ==> s.inFlight[k].wRef.Floor == r.room)
    && (forall k :: k in s.inFlight && r.below <= k < upTo ==> k - base <= s.inFlight[k].wRef.Floor)
  }

  lemma ReceiveKeepsTagged(v: Variant, c: Config, s: State, ackSeq: nat, hops: seq<IntHop>, now: real,
                           r: Resent, base: int, upTo: int)
    requires c.Valid() && Reported(hops) && Tagged(s, r, base, upTo)
    ensures Tagged(Receive(v, c, s, ackSeq, hops, now), r, base, upTo)
  {
    var a := Advance(s, ackSeq);
    assert Tagged(a, r, base, upTo);
    FeedbackKeepsFlight(v, c, a, hops, now);
    FeedbackKeepsFlight(v, c, AtGate(v, c, s, ackSeq, hops), hops, now);
  }

  lemma StepKeepsTagged(v: Variant, c: Config, limit: Option<nat>, s: State, e: Event, r: Resent, base: int, upTo: int)
    requires c.Valid() && Inv(c, s) && Enabled(limit, s, e) && Tagged(s, r, base, upTo) && upTo <= s.nextSeq
    ensures Tagged(Apply(v, c, s, e), NextResent(c, s, e, Apply(v, c, s, e), r), base, upTo)
  {
    match e
    case Send(_) =>
    case Ack(ackSeq, hops, now) => ReceiveKeepsTagged(v, c, s, ackSeq, hops, now, r, base, upTo);
    case Timer(_, clock) => TimeoutKeepsInv(c, s, clock);
  }

  /** The flight itself is tagged from the cumulative point up to the last packet sent. */
  lemma StepKeepsFlightTagged(v: Variant, c: Config, limit: Option<nat>, s: State, e: Event, r: Resent)
    requires c.Valid() && Inv(c, s) && Enabled(limit, s, e) && Tagged(s, r, s.cumAcked, s.nextSeq)
    ensures var s' := Apply(v, c, s, e);
            Tagged(s', NextResent(c, s, e, s', r), s'.cumAcked, s'.nextSeq)
  {
    StepKeepsTagged(v, c, limit, s, e, r, s.cumAcked, s.nextSeq);
    StepKeepsInv(v, c, limit, s, e);
    FlightSize(c, s);
  }

  lemma {:induction false} FlightIsTagged(v: Variant, c: Config, limit: Option<nat>, trace: seq<State>,
                                          events: seq<Event>, wInit: nat, t0: real, n: nat)
    requires c.Valid() && Run(v, c, limit, trace, events) && FromStart(c, trace, wInit, t0) && n <= |events|
    ensures Tagged(trace[n], LastResent(c, trace, events, n), trace[n].cumAcked, trace[n].nextSeq)
  {
    if n > 0 {
      FlightIsTagged(v, c, limit, trace, events, wInit, t0, n - 1);
      RunKeepsInv(v, c, limit, trace, events, wInit, t0, n - 1);
      StepKeepsFlightTagged(v, c, limit, trace[n - 1], events[n - 1], LastResent(c, trace, events, n - 1));
    }
  }

  /** In every reachable state, timeouts included, all packets fit exactly when the
      cumulative point has come to the fit point of the last timeout. */
  lemma FitsFromPoint(v: Variant, c: Config, limit: Option<nat>, trace: seq<State>, events: seq<Event>,
                      wInit: nat, t0: real, n: nat)
    requires c.Valid() && Run(v, c, limit, trace, events) && FromStart(c, trace, wInit, t0) && n <= |events|
    ensures FlightFits(trace[n]) <==> trace[n].cumAcked >= FitPoint(LastResent(c, trace, events, n))
  {
    FlightIsTagged(v, c, limit, trace, events, wInit, t0, n);
    RunKeepsInv(v, c, limit, trace, events, wInit, t0, n);
    var s, r := trace[n], LastResent(c, trace, events, n);
    if s.cumAcked < r.below - 1 {
      assert r.below - 1 in s.inFlight;
    }
  }

  // ---- what the next update leaves unacknowledged ----

  /** Every update that an ACK could fire now acknowledges all packets below `upTo`. */
  ghost predicate UpdatesReach(v: Variant, c: Config, limit: Option<nat>, s: State, upTo: int)
    requires c.Valid()
  {
    forall ackSeq: nat, hops, now ::
      Enabled(limit, s, Ack(ackSeq, hops, now)) && Updates(v, c, s, Ack(ackSeq, hops, now)) ==>
        Apply(v, c, s, Ack(ackSeq, hops, now)).cumAcked >= upTo - 1
  }

  /** No packet below `upTo`, once it is the oldest, lets the gate open too early. */
  predicate HoldsGate(s: State, upTo: int) {
    forall k :: k in s.inFlight && s.cumAcked + 1 < k < upTo ==> k - s.lastUpdateSeq <= s.inFlight[k].wRef.Floor
  }

  lemma UpdateReaches(c: Config, limit: Option<nat>, s: State, e: Event, upTo: int)
    requires c.Valid() && Inv(c, s) && Enabled(limit, s, e) && Updates(V2, c, s, e)
    requires HoldsGate(s, upTo) && upTo <= s.nextSeq
    ensures Apply(V2, c, s, e).cumAcked >= upTo - 1
  {
    UpdateSets(V2, c, limit, s, e);
    StepKeepsInv(V2, c, limit, s, e);
    var g := AtGate(V2, c, s, e.ackSeq, e.hops);
    FlightSize(c, g);
    if g.cumAcked < upTo - 1 {
      assert false;
    }
  }

  /** An ACK without records changes nothing but the flight. */
  lemma BareAck(c: Config, s: State, ackSeq: int)
    ensures AtGate(V2, c, s, ackSeq, []) == Advance(s, ackSeq)
  {
  }

  /** When packet k is the oldest, the gate waits for its snapshot. */
  lemma GateOfOldest(c: Config, s: State, k: int, now: real)
    requires Inv(c, s) && k in s.inFlight && k == s.cumAcked + 1 && now >= s.lastUpdateTime + c.baseRtt
    ensures GateOpen(V2, c, s, now) <==> k - s.lastUpdateSeq > s.inFlight[k].wRef.Floor
  {
    FlightSize(c, s);
  }

  /** The ACK of the packet before k opens the gate of k's own snapshot. */
  lemma EarlyUpdate(c: Config, limit: Option<nat>, s: State, k: int)
    requires c.Valid() && Inv(c, s) && k in s.inFlight && k > s.cumAcked + 1
    requires k - s.lastUpdateSeq > s.inFlight[k].wRef.Floor
    ensures var e := Ack(k - 1, [], s.lastUpdateTime + c.baseRtt);
            Enabled(limit, s, e) && Updates(V2, c, s, e) && Apply(V2, c, s, e).cumAcked == k - 1
  {
    var a, now := Advance(s, k - 1), s.lastUpdateTime + c.baseRtt;
    AdvanceKeepsInv(c, s, k - 1);
    GateOfOldest(c, a, k, now);
    BareAck(c, s, k - 1);
    assert Receive(V2, c, s, k - 1, [], now) == ApplyUpdate(V2, c, a, now);
  }

  lemma ReachIffHoldsGate(c: Config, limit: Option<nat>, s: State, upTo: int)
    requires c.Valid() && Inv(c, s) && upTo <= s.nextSeq
    ensures UpdatesReach(V2, c, limit, s, upTo) <==> HoldsGate(s, upTo)
  {
    if HoldsGate(s, upTo) {
      forall ackSeq: nat, hops, now |
        Enabled(limit, s, Ack(ackSeq, hops, now)) && Updates(V2, c, s, Ack(ackSeq, hops, now))
        ensures Apply(V2, c, s, Ack(ackSeq, hops, now)).cumAcked >= upTo - 1
      {
        UpdateReaches(c, limit, s, Ack(ackSeq, hops, now), upTo);
      }
    } else {
      var k :| k in s.inFlight && s.cumAcked + 1 < k < upTo && k - s.lastUpdateSeq > s.inFlight[k].wRef.Floor;
      EarlyUpdate(c, limit, s, k);
    }
  }

  /** Of the packets below `upTo`, the last one that the timeout sent again is within its
      window of the last update, or is the next to be acknowledged. */
  predicate Covers(s: State, r: Resent, upTo: int) {
    var end := if r.below < upTo then r.below else upTo;
    end - 1 <= s.lastUpdateSeq + r.room || end - 1 <= s.cumAcked + 1
  }

  lemma HoldsGateIffCovers(c: Config, s: State, r: Resent, upTo: int)
    requires Inv(c, s) && upTo <= s.nextSeq && Tagged(s, r, s.lastUpdateSeq, upTo)
    ensures HoldsGate(s, upTo) <==> Covers(s, r, upTo)
  {
    var end := if r.below < upTo then r.below else upTo;
    if end - 1 > s.cumAcked + 1 {
      assert end - 1 in s.inFlight;
    }
  }

  // ---- between two updates of V1 ----

  predicate Quiet(v: Variant, c: Config, s: State, e: Event) {
    !Updates(v, c, s, e) && !TimesOut(c, s, e)
  }

  /** Nothing that an update decides has changed, and old packets keep their snapshots. */
  predicate Continues(s: State, s': State) {
    && s'.lastUpdateSeq == s.lastUpdateSeq && s'.wRef == s.wRef && s'.incarnation == s.incarnation
    && s'.cumAcked >= s.cumAcked && s'.nextSeq >= s.nextSeq
    && (forall k :: k in s'.inFlight && k < s.nextSeq ==> k in s.inFlight && s'.inFlight[k] == s.inFlight[k])
  }

  lemma QuietStep(v: Variant, c: Config, limit: Option<nat>, s: State, e: Event)
    requires c.Valid() && Inv(c, s) && Enabled(limit, s, e) && Quiet(v, c, s, e)
    ensures Continues(s, Apply(v, c, s, e))
  {
  }

  lemma {:induction false} QuietSpan(v: Variant, c: Config, limit: Option<nat>, trace: seq<State>,
                                     events: seq<Event>, wInit: nat, t0: real, i: nat, j: nat)
    requires c.Valid() && Run(v, c, limit, trace, events) && FromStart(c, trace, wInit, t0)
    requires i <= j <= |events| && forall k :: i <= k < j ==> Quiet(v, c, trace[k], events[k])
    ensures Continues(trace[i], trace[j])
  {
    if i < j {
      QuietSpan(v, c, limit, trace, events, wInit, t0, i, j - 1);
      RunKeepsInv(v, c, limit, trace, events, wInit, t0, j - 1);
      QuietStep(v, c, limit, trace[j - 1], events[j - 1]);
    }
  }

  /** Events i and j update the window and nothing in between updates it or times out. */
  predicate ConsecutiveUpdates(v: Variant, c: Config, trace: seq<State>, events: seq<Event>, i: nat, j: nat) {
    && i < j < |events| < |trace|
    && Updates(v, c, trace[i], events[i]) && Updates(v, c, trace[j], events[j])
    && (forall k :: i < k < j ==> Quiet(v, c, trace[k], events[k]))
  }

  /** V1 gates on the current window instead, so an update can fire over packets from
      before the previous one (exactly when, says module FlightsV1); but those belong to an
      older incarnation. */
  lemma LeftoversAreOld(c: Config, limit: Option<nat>, trace: seq<State>, events: seq<Event>,
                        wInit: nat, t0: real, i: nat, j: nat, k: int)
    requires c.Valid() && Run(V1, c, limit, trace, events) && FromStart(c, trace, wInit, t0)
    requires ConsecutiveUpdates(V1, c, trace, events, i, j) && FlightFits(trace[i + 1])
    requires k in trace[i + 1].inFlight && k in trace[j + 1].inFlight
    ensures trace[j + 1].inFlight[k].incarnation < trace[j].incarnation
  {
    RunKeepsInv(V1, c, limit, trace, events, wInit, t0, i);
    RunKeepsInv(V1, c, limit, trace, events, wInit, t0, j);
    RunKeepsInv(V1, c, limit, trace, events, wInit, t0, i + 1);
    UpdateSets(V1, c, limit, trace[i], events[i]);
    QuietSpan(V1, c, limit, trace, events, wInit, t0, i + 1, j);
    UpdateSets(V1, c, limit, trace[j], events[j]);
    RunSortsSnapshots(V1, c, limit, trace, events, wInit, t0, j);
    var g := AtGate(V1, c, trace[j], events[j].ackSeq, events[j].hops);
    assert k in g.inFlight && g.inFlight[k] == trace[i + 1].inFlight[k];
    assert g.cumAcked < k;
    assert g.inFlight[k].wRef.Floor > trace[j].wRef.Floor;
  }

  // ---- over the runs of V2 ----

  predicate NoUpdates(v: Variant, c: Config, trace: seq<State>, events: seq<Event>, i: nat, j: nat)
    requires j <= |events| < |trace|
  {
    forall k :: i <= k < j ==> !Updates(v, c, trace[k], events[k])
  }

  /** A timeout, if the event is one, halves the window to one that still reaches from
      `base` to the last packet below `upTo`, or finds that packet next in line. */
  predicate TimeoutSpares(c: Config, s: State, e: Event, base: int, upTo: int) {
    TimesOut(c, s, e) ==>
      upTo - 1 - base <= Max(W_MIN, s.wRef / 2.0).Floor || upTo - 1 <= s.cumAcked + 1
  }

  /** No timeout after event i and before event m leaves the next update room to fire early. */
  predicate TimeoutsSpare(c: Config, trace: seq<State>, events: seq<Event>, i: nat, m: nat)
    requires i < m <= |events| < |trace|
  {
    forall k :: i < k < m ==> TimeoutSpares(c, trace[k], events[k], trace[i + 1].cumAcked, trace[i + 1].nextSeq)
  }

  /** What stays in place from update i until the next one. */
  predicate Waits(s: State, first: State, r: Resent) {
    && first.nextSeq <= s.nextSeq && s.lastUpdateSeq == first.cumAcked
    && Tagged(s, r, first.cumAcked, first.nextSeq)
  }

  lemma WaitStep(c: Config, limit: Option<nat>, s: State, e: Event, r: Resent, first: State)
    requires c.Valid() && Inv(c, s) && Enabled(limit, s, e) && !Updates(V2, c, s, e) && Waits(s, first, r)
    ensures Waits(Apply(V2, c, s, e), first, NextResent(c, s, e, Apply(V2, c, s, e), r))
  {
    StepKeepsTagged(V2, c, limit, s, e, r, first.cumAcked, first.nextSeq);
    StepKeepsInv(V2, c, limit, s, e);
    StepKeepsLastUpdate(V2, c, s, e);
  }

  lemma StepKeepsLastUpdate(v: Variant, c: Config, s: State, e: Event)
    requires c.Valid() && !Updates(v, c, s, e) && (e.Ack? ==> Reported(e.hops))
    ensures Apply(v, c, s, e).lastUpdateSeq == s.lastUpdateSeq
  {
  }

  predicate WaitsAt(c: Config, trace: seq<State>, events: seq<Event>, i: nat, m: nat)
    requires i < m <= |events| < |trace|
  {
    Waits(trace[m], trace[i + 1], LastResent(c, trace, events, m))
  }

  lemma WaitsAtUpdate(c: Config, limit: Option<nat>, trace: seq<State>, events: seq<Event>,
                      wInit: nat, t0: real, i: nat)
    requires c.Valid() && Run(V2, c, limit, trace, events) && FromStart(c, trace, wInit, t0)
    requires i < |events| && Updates(V2, c, trace[i], events[i])
    ensures WaitsAt(c, trace, events, i, i + 1)
  {
    RunKeepsInv(V2, c, limit, trace, events, wInit, t0, i);
    UpdateSets(V2, c, limit, trace[i], events[i]);
    FlightIsTagged(V2, c, limit, trace, events, wInit, t0, i + 1);
  }

  lemma WaitRunStep(c: Config, limit: Option<nat>, trace: seq<State>, events: seq<Event>,
                    wInit: nat, t0: real, i: nat, m: nat, j: nat)
    requires c.Valid() && Run(V2, c, limit, trace, events) && FromStart(c, trace, wInit, t0)
    requires i < m < j <= |events| && NoUpdates(V2, c, trace, events, i + 1, j) && WaitsAt(c, trace, events, i, m)
    ensures WaitsAt(c, trace, events, i, m + 1)
  {
    RunKeepsInv(V2, c, limit, trace, events, wInit, t0, m);
    WaitStep(c, limit, trace[m], events[m], LastResent(c, trace, events, m), trace[i + 1]);
  }

  lemma {:induction false} WaitsOn(c: Config, trace: seq<State>, events: seq<Event>, i: nat, m: nat, j: nat)
    requires i < m <= j <= |events| < |trace| && WaitsAt(c, trace, events, i, i + 1)
    requires forall k :: i < k < j && WaitsAt(c, trace, events, i, k) ==> WaitsAt(c, trace, events, i, k + 1)
    ensures WaitsAt(c, trace, events, i, m)
  {
    if m > i + 1 {
      WaitsOn(c, trace, events, i, m - 1, j);
    }
  }

  lemma Waiting(c: Config, limit: Option<nat>, trace: seq<State>, events: seq<Event>,
                wInit: nat, t0: real, i: nat, m: nat, j: nat)
    requires c.Valid() && Run(V2, c, limit, trace, events) && FromStart(c, trace, wInit, t0)
    requires i < m <= j <= |events| && Updates(V2, c, trace[i], events[i]) && NoUpdates(V2, c, trace, events, i + 1, j)
    ensures WaitsAt(c, trace, events, i, m)
  {
    WaitsAtUpdate(c, limit, trace, events, wInit, t0, i);
    forall k | i < k < j && WaitsAt(c, trace, events, i, k)
      ensures WaitsAt(c, trace, events, i, k + 1)
    {
      WaitRunStep(c, limit, trace, events, wInit, t0, i, k, j);
    }
    WaitsOn(c, trace, events, i, m, j);
  }

  /** The exact flight property.  After update i and until the next one, with any timeouts
      in between: whatever ACK fires that update, it finds every packet acknowledged that
      was outstanding at update i, exactly when the last timeout covers those packets. */
  lemma NextUpdateReachesIff(c: Config, limit: Option<nat>, trace: seq<State>, events: seq<Event>,
                             wInit: nat, t0: real, i: nat, m: nat)
    requires c.Valid() && Run(V2, c, limit, trace, events) && FromStart(c, trace, wInit, t0)
    requires i < m <= |events| && Updates(V2, c, trace[i], events[i]) && NoUpdates(V2, c, trace, events, i + 1, m)
    ensures UpdatesReach(V2, c, limit, trace[m], trace[i + 1].nextSeq)
            <==> Covers(trace[m], LastResent(c, trace, events, m), trace[i + 1].nextSeq)
  {
    Waiting(c, limit, trace, events, wInit, t0, i, m, m);
    RunKeepsInv(V2, c, limit, trace, events, wInit, t0, m);
    ReachIffHoldsGate(c, limit, trace[m], trace[i + 1].nextSeq);
    HoldsGateIffCovers(c, trace[m], LastResent(c, trace, events, m), trace[i + 1].nextSeq);
  }

  lemma ResentSpares(c: Config, s: State, e: Event, s': State, r: Resent, first: State)
    requires TimesOut(c, s, e) && s' == Timeout(s, e.clock)
    requires first.nextSeq <= s.nextSeq && s.lastUpdateSeq == first.cumAcked
    ensures Covers(s', NextResent(c, s, e, s', r), first.nextSeq)
            <==> TimeoutSpares(c, s, e, first.cumAcked, first.nextSeq)
  {
  }

  lemma SparesIsCovered(c: Config, limit: Option<nat>, trace: seq<State>, events: seq<Event>,
                        wInit: nat, t0: real, i: nat, m: nat)
    requires c.Valid() && Run(V2, c, limit, trace, events) && FromStart(c, trace, wInit, t0)
    requires i < m < |events| && Updates(V2, c, trace[i], events[i]) && NoUpdates(V2, c, trace, events, i + 1, m + 1)
    requires TimesOut(c, trace[m], events[m])
    ensures Covers(trace[m + 1], LastResent(c, trace, events, m + 1), trace[i + 1].nextSeq)
            <==> TimeoutSpares(c, trace[m], events[m], trace[i + 1].cumAcked, trace[i + 1].nextSeq)
  {
    Waiting(c, limit, trace, events, wInit, t0, i, m, m + 1);
    ResentSpares(c, trace[m], events[m], trace[m + 1], LastResent(c, trace, events, m), trace[i + 1]);
  }

  /** After a timeout between two updates, the second cannot fire early exactly when the
      timeout spares it. */
  lemma TimeoutSparesIff(c: Config, limit: Option<nat>, trace: seq<State>, events: seq<Event>,
                         wInit: nat, t0: real, i: nat, m: nat)
    requires c.Valid() && Run(V2, c, limit, trace, events) && FromStart(c, trace, wInit, t0)
    requires i < m < |events| && Updates(V2, c, trace[i], events[i]) && NoUpdates(V2, c, trace, events, i + 1, m + 1)
    requires TimesOut(c, trace[m], events[m])
    ensures UpdatesReach(V2, c, limit, trace[m + 1], trace[i + 1].nextSeq)
            <==> TimeoutSpares(c, trace[m], events[m], trace[i + 1].cumAcked, trace[i + 1].nextSeq)
  {
    NextUpdateReachesIff(c, limit, trace, events, wInit, t0, i, m + 1);
    SparesIsCovered(c, limit, trace, events, wInit, t0, i, m);
  }

  /** Right after an update, to be past the fit point is to be covered. */
  lemma FitPointCovers(s: State, r: Resent)
    requires Waits(s, s, r) && s.cumAcked >= -1
    ensures s.cumAcked >= FitPoint(r) <==> Covers(s, r, s.nextSeq)
  {
  }

  lemma CoveredAtUpdate(c: Config, limit: Option<nat>, trace: seq<State>, events: seq<Event>,
                        wInit: nat, t0: real, i: nat)
    requires c.Valid() && Run(V2, c, limit, trace, events) && FromStart(c, trace, wInit, t0)
    requires i < |events| && Updates(V2, c, trace[i], events[i])
    ensures trace[i + 1].cumAcked >= FitPoint(LastResent(c, trace, events, i + 1))
            <==> Covers(trace[i + 1], LastResent(c, trace, events, i + 1), trace[i + 1].nextSeq)
  {
    Waiting(c, limit, trace, events, wInit, t0, i, i + 1, i + 1);
    RunKeepsInv(V2, c, limit, trace, events, wInit, t0, i + 1);
    FitPointCovers(trace[i + 1], LastResent(c, trace, events, i + 1));
  }

  /** Right after an update the three conditions are one: the cumulative point has passed
      the fit point of the last timeout; every packet fits its snapshot; the next update
      cannot fire before everything now outstanding is acknowledged. */
  lemma UpdateReachesIffFits(c: Config, limit: Option<nat>, trace: seq<State>, events: seq<Event>,
                             wInit: nat, t0: real, i: nat)
    requires c.Valid() && Run(V2, c, limit, trace, events) && FromStart(c, trace, wInit, t0)
    requires i < |events| && Updates(V2, c, trace[i], events[i])
    ensures FlightFits(trace[i + 1]) <==> trace[i + 1].cumAcked >= FitPoint(LastResent(c, trace, events, i + 1))
    ensures FlightFits(trace[i + 1]) <==> UpdatesReach(V2, c, limit, trace[i + 1], trace[i + 1].nextSeq)
  {
    FitsFromPoint(V2, c, limit, trace, events, wInit, t0, i + 1);
    NextUpdateReachesIff(c, limit, trace, events, wInit, t0, i, i + 1);
    CoveredAtUpdate(c, limit, trace, events, wInit, t0, i);
  }

  /** Consecutive updates i and j, timeouts in between or not: nothing that was outstanding
      at the first is at the second. */
  lemma UpdateClearsFlight(c: Config, limit: Option<nat>, trace: seq<State>, events: seq<Event>,
                           wInit: nat, t0: real, i: nat, j: nat)
    requires c.Valid() && Run(V2, c, limit, trace, events) && FromStart(c, trace, wInit, t0)
    requires i < j < |events| && NoUpdates(V2, c, trace, events, i + 1, j)
    requires Updates(V2, c, trace[i], events[i]) && Updates(V2, c, trace[j], events[j])
    requires Covers(trace[j], LastResent(c, trace, events, j), trace[i + 1].nextSeq)
    ensures trace[j + 1].cumAcked >= trace[i + 1].nextSeq - 1
    ensures trace[i + 1].inFlight.Keys !! trace[j + 1].inFlight.Keys
  {
    Waiting(c, limit, trace, events, wInit, t0, i, j, j);
    RunKeepsInv(V2, c, limit, trace, events, wInit, t0, j);
    HoldsGateIffCovers(c, trace[j], LastResent(c, trace, events, j), trace[i + 1].nextSeq);
    UpdateReaches(c, limit, trace[j], events[j], trace[i + 1].nextSeq);
    RunKeepsInv(V2, c, limit, trace, events, wInit, t0, i + 1);
    RunKeepsInv(V2, c, limit, trace, events, wInit, t0, j + 1);
  }

  lemma CoverStep(c: Config, limit: Option<nat>, s: State, e: Event, s': State, r: Resent, first: State)
    requires c.Valid() && Inv(c, s) && Enabled(limit, s, e) && !Updates(V2, c, s, e) && s' == Apply(V2, c, s, e)
    requires first.nextSeq <= s.nextSeq && s.lastUpdateSeq == first.cumAcked
    requires Covers(s, r, first.nextSeq) && TimeoutSpares(c, s, e, first.cumAcked, first.nextSeq)
    ensures Covers(s', NextResent(c, s, e, s', r), first.nextSeq)
  {
    StepKeepsInv(V2, c, limit, s, e);
    StepKeepsLastUpdate(V2, c, s, e);
  }

  predicate CoversAt(c: Config, trace: seq<State>, events: seq<Event>, i: nat, m: nat)
    requires i < m <= |events| < |trace|
  {
    Covers(trace[m], LastResent(c, trace, events, m), trace[i + 1].nextSeq)
  }

  lemma CoverRunStep(c: Config, limit: Option<nat>, trace: seq<State>, events: seq<Event>,
                     wInit: nat, t0: real, i: nat, m: nat, j: nat)
    requires c.Valid() && Run(V2, c, limit, trace, events) && FromStart(c, trace, wInit, t0)
    requires i < m < j <= |events| && Updates(V2, c, trace[i], events[i]) && NoUpdates(V2, c, trace, events, i + 1, j)
    requires TimeoutsSpare(c, trace, events, i, j) && CoversAt(c, trace, events, i, m)
    ensures CoversAt(c, trace, events, i, m + 1)
  {
    Waiting(c, limit, trace, events, wInit, t0, i, m, j);
    RunKeepsInv(V2, c, limit, trace, events, wInit, t0, m);
    CoverStep(c, limit, trace[m], events[m], trace[m + 1], LastResent(c, trace, events, m), trace[i + 1]);
  }

  lemma {:induction false} CoversOn(c: Config, trace: seq<State>, events: seq<Event>, i: nat, m: nat, j: nat)
    requires i < m <= j <= |events| < |trace| && CoversAt(c, trace, events, i, i + 1)
    requires forall k :: i < k < j && CoversAt(c, trace, events, i, k) ==> CoversAt(c, trace, events, i, k + 1)
    ensures CoversAt(c, trace, events, i, m)
  {
    if m > i + 1 {
      CoversOn(c, trace, events, i, m - 1, j);
    }
  }

  lemma StaysCovered(c: Config, limit: Option<nat>, trace: seq<State>, events: seq<Event>,
                     wInit: nat, t0: real, i: nat, m: nat, j: nat)
    requires c.Valid() && Run(V2, c, limit, trace, events) && FromStart(c, trace, wInit, t0)
    requires i < m <= j <= |events| && Updates(V2, c, trace[i], events[i]) && NoUpdates(V2, c, trace, events, i + 1, j)
    requires trace[i + 1].cumAcked >= FitPoint(LastResent(c, trace, events, i + 1))
    requires TimeoutsSpare(c, trace, events, i, j)
    ensures CoversAt(c, trace, events, i, m)
  {
    CoveredAtUpdate(c, limit, trace, events, wInit, t0, i);
    forall k | i < k < j && CoversAt(c, trace, events, i, k)
      ensures CoversAt(c, trace, events, i, k + 1)
    {
      CoverRunStep(c, limit, trace, events, wInit, t0, i, k, j);
    }
    CoversOn(c, trace, events, i, m, j);
  }

  /** Any two updates of a run are a flight apart, if the packets fitted at the first and
      the timeouts in between spare them; so in every run without timeouts. */
  lemma OneUpdatePerFlight(c: Config, limit: Option<nat>, trace: seq<State>, events: seq<Event>,
                           wInit: nat, t0: real, i: nat, j: nat)
    requires c.Valid() && Run(V2, c, limit, trace, events) && FromStart(c, trace, wInit, t0)
    requires i < j < |events| && trace[i + 1].cumAcked >= FitPoint(LastResent(c, trace, events, i + 1))
    requires TimeoutsSpare(c, trace, events, i, j)
    requires Updates(V2, c, trace[i], events[i]) && Updates(V2, c, trace[j], events[j])
    ensures trace[j + 1].cumAcked >= trace[i + 1].nextSeq - 1
    decreases j - i
  {
    if k :| i < k < j && Updates(V2, c, trace[k], events[k]) {
      OneUpdatePerFlight(c, limit, trace, events, wInit, t0, i, k);
      CumulativeGrows(V2, c, limit, trace, events, wInit, t0, k + 1, j + 1);
    } else {
      StaysCovered(c, limit, trace, events, wInit, t0, i, j, j);
      UpdateClearsFlight(c, limit, trace, events, wInit, t0, i, j);
    }
  }

  /** A run that has gone like the given one up to its n-th state. */
  ghost predicate Continuation(v: Variant, c: Config, limit: Option<nat>, trace: seq<State>, events: seq<Event>, n: nat,
                         trace': seq<State>, events': seq<Event>)
    requires c.Valid()
  {
    && Run(v, c, limit, trace', events') && n <= |events| && n <= |events'| && n < |trace|
    && trace'[..n + 1] == trace[..n + 1] && events'[..n] == events[..n]
  }

  lemma {:induction false} SameResent(c: Config, trace: seq<State>, events: seq<Event>, trace': seq<State>,
                                      events': seq<Event>, n: nat)
    requires n <= |events| < |trace| && n <= |events'| < |trace'|
    requires trace'[..n + 1] == trace[..n + 1] && events'[..n] == events[..n]
    ensures LastResent(c, trace', events', n) == LastResent(c, trace, events, n)
  {
    if n > 0 {
      assert trace'[..n] == trace'[..n + 1][..n] && trace[..n] == trace[..n + 1][..n];
      assert events'[..n - 1] == events'[..n][..n - 1] && events[..n - 1] == events[..n][..n - 1];
      SameResent(c, trace, events, trace', events', n - 1);
      assert trace'[..n + 1][n] == trace'[n] && trace'[..n + 1][n - 1] == trace'[n - 1];
      assert trace[..n + 1][n] == trace[n] && trace[..n + 1][n - 1] == trace[n - 1];
      assert events'[..n][n - 1] == events'[n - 1] && events[..n][n - 1] == events[n - 1];
    }
  }

  /** However the run goes on after update i, as long as the timeouts spare the next update:
      every later update finds all packets acknowledged that were outstanding then. */
  ghost predicate AlwaysFlightApart(v: Variant, c: Config, limit: Option<nat>, trace: seq<State>,
                                    events: seq<Event>, i: nat)
    requires c.Valid() && i + 1 < |trace|
  {
    forall trace': seq<State>, events': seq<Event>, j: nat ::
      Continuation(v, c, limit, trace, events, i + 1, trace', events') && i < j < |events'|
      && TimeoutsSpare(c, trace', events', i, j) && Updates(v, c, trace'[j], events'[j]) ==>
        trace'[j + 1].cumAcked >= trace[i + 1].nextSeq - 1
  }

  lemma ContinuationApart(c: Config, limit: Option<nat>, trace: seq<State>, events: seq<Event>, wInit: nat, t0: real,
                          i: nat, trace': seq<State>, events': seq<Event>, j: nat)
    requires c.Valid() && Run(V2, c, limit, trace, events) && FromStart(c, trace, wInit, t0)
    requires i < |events| && Updates(V2, c, trace[i], events[i])
    requires trace[i + 1].cumAcked >= FitPoint(LastResent(c, trace, events, i + 1))
    requires Continuation(V2, c, limit, trace, events, i + 1, trace', events') && i < j < |events'|
    requires TimeoutsSpare(c, trace', events', i, j) && Updates(V2, c, trace'[j], events'[j])
    ensures trace'[j + 1].cumAcked >= trace[i + 1].nextSeq - 1
  {
    SameResent(c, trace, events, trace', events', i + 1);
    var n := i + 1;
    assert trace'[..n + 1][0] == trace'[0] && trace[..n + 1][0] == trace[0];
    assert trace'[..n + 1][i] == trace'[i] && trace[..n + 1][i] == trace[i];
    assert trace'[..n + 1][n] == trace'[n] && trace[..n + 1][n] == trace[n];
    assert events'[..n][i] == events'[i] && events[..n][i] == events[i];
    OneUpdatePerFlight(c, limit, trace', events', wInit, t0, i, j);
  }

  lemma CloseContinuation(v: Variant, c: Config, limit: Option<nat>, trace: seq<State>, events: seq<Event>,
                          i: nat, e: Event)
      returns (trace': seq<State>, events': seq<Event>)
    requires c.Valid() && Run(v, c, limit, trace, events) && i < |events|
    requires Enabled(limit, trace[i + 1], e) && Updates(v, c, trace[i + 1], e)
    requires Apply(v, c, trace[i + 1], e).cumAcked < trace[i + 1].nextSeq - 1
    ensures Continuation(v, c, limit, trace, events, i + 1, trace', events') && |events'| == i + 2
    ensures TimeoutsSpare(c, trace', events', i, i + 1) && Updates(v, c, trace'[i + 1], events'[i + 1])
    ensures trace'[i + 2].cumAcked < trace[i + 1].nextSeq - 1
  {
    RunPrefix(v, c, limit, trace, events, i + 1);
    RunExtends(v, c, limit, trace[..i + 2], events[..i + 1], e);
    trace', events' := trace[..i + 2] + [Apply(v, c, trace[i + 1], e)], events[..i + 1] + [e];
  }

  /** The flight property of V2, exactly: after update i it holds in every continuation if
      and only if the cumulative point has passed the fit point of the last timeout. */
  lemma FlightApartIff(c: Config, limit: Option<nat>, trace: seq<State>, events: seq<Event>,
                       wInit: nat, t0: real, i: nat)
    requires c.Valid() && Run(V2, c, limit, trace, events) && FromStart(c, trace, wInit, t0)
    requires i < |events| && Updates(V2, c, trace[i], events[i])
    ensures AlwaysFlightApart(V2, c, limit, trace, events, i)
            <==> trace[i + 1].cumAcked >= FitPoint(LastResent(c, trace, events, i + 1))
  {
    UpdateReachesIffFits(c, limit, trace, events, wInit, t0, i);
    if trace[i + 1].cumAcked >= FitPoint(LastResent(c, trace, events, i + 1)) {
      forall trace': seq<State>, events': seq<Event>, j: nat |
        Continuation(V2, c, limit, trace, events, i + 1, trace', events') && i < j < |events'|
        && TimeoutsSpare(c, trace', events', i, j) && Updates(V2, c, trace'[j], events'[j])
        ensures trace'[j + 1].cumAcked >= trace[i + 1].nextSeq - 1
      {
        ContinuationApart(c, limit, trace, events, wInit, t0, i, trace', events', j);
      }
    } else {
      var ackSeq: nat, hops, now :|
        Enabled(limit, trace[i + 1], Ack(ackSeq, hops, now)) && Updates(V2, c, trace[i + 1], Ack(ackSeq, hops, now))
        && Apply(V2, c, trace[i + 1], Ack(ackSeq, hops, now)).cumAcked < trace[i + 1].nextSeq - 1;
      var trace', events' := CloseContinuation(V2, c, limit, trace, events, i, Ack(ackSeq, hops, now));
      assert !AlwaysFlightApart(V2, c, limit, trace, events, i);
    }
  }

  // ---- a timeout can separate updates by less than a flight ----

  const Idle: Config := Config(8, 1.0, 0.5, 0.0, 1.0)

  function Flight(lo: int, hi: int, sentUs: int, w: real, inc: nat): map<int, Entry> {
    map k | k in Between(lo, hi) :: Entry(sentUs, w, inc, 0)
  }

  predicate IdleStep(s: State, e: Event, s': State) {
    Idle.Valid() && Enabled(None, s, e) && s' == Apply(V2, Idle, s, e)
  }

  function Grown(i: nat): real {
    if i <= 4 then 1.5 else 2.0
  }

  /** Three packets leave under window 3, time out and leave again under 1.5; then the ACKs
      of packets 0 and 1 arrive, and each makes 2.0 of the 1.5 of the oldest packet. */
  function Scene(i: nat): State
    requires i <= 6
  {
    var s := Init(3, 0.0);
    if i <= 3 then s.(nextSeq := i, inFlight := Flight(-1, i, 0, 3.0, 0))
    else s.(nextSeq := 3, w := Grown(i), wRef := Grown(i), incarnation := 1, cumAcked := i - 5, lastUpdateSeq := i - 5,
            lastUpdateTime := (i - 4) as real, inFlight := Flight(i - 5, 3, 0, 1.5, 1))
  }

  function Cue(i: nat): Event {
    if i < 3 then Send(0) else if i == 3 then Timer(1000000, _ => 0) else Ack(i - 4, [], (i - 3) as real)
  }

  lemma SceneStep(i: nat)
    requires i < 6
    ensures IdleStep(Scene(i), Cue(i), Scene(i + 1))
    ensures i >= 4 ==> Updates(V2, Idle, Scene(i), Cue(i))
  {
    if i < 3 {
      SendsFlight(Scene(i), i);
    } else if i == 3 {
      TimesOutFlight(Scene(3), Scene(4));
    } else {
      AcksFlight(Scene(i), Scene(i + 1), i - 4, (i - 3) as real);
    }
  }

  lemma ScenesRun() returns (trace: seq<State>, events: seq<Event>)
    ensures |trace| == 7 && |events| == 6
    ensures forall i :: 0 <= i < 7 ==> trace[i] == Scene(i)
    ensures forall i :: 0 <= i < 6 ==> events[i] == Cue(i)
    ensures Idle.Valid() && Run(V2, Idle, None, trace, events)
  {
    trace := seq(7, i requires 0 <= i < 7 => Scene(i));
    events := seq(6, i requires 0 <= i < 6 => Cue(i));
    forall i | 0 <= i < 6
      ensures Enabled(None, trace[i], events[i]) && trace[i + 1] == Apply(V2, Idle, trace[i], events[i])
    {
      SceneStep(i);
    }
  }

  /** Without the fit, the flight theorem fails: events 4 and 5 each fire an update, although
      packet 2, outstanding at the first, still is at the second. */
  lemma TimeoutBreaksFlight() returns (trace: seq<State>, events: seq<Event>)
    ensures Idle.Valid() && Run(V2, Idle, None, trace, events) && FromStart(Idle, trace, 3, 0.0)
    ensures |events| == 6 && Updates(V2, Idle, trace[4], events[4]) && Updates(V2, Idle, trace[5], events[5])
    ensures 2 in trace[5].inFlight && 2 in trace[6].inFlight
    ensures trace[6].cumAcked < trace[5].nextSeq - 1
  {
    trace, events := ScenesRun();
    SceneStep(4);
    SceneStep(5);
    assert Scene(0) == Init(3, 0.0);
    assert 2 in Scene(5).inFlight && 2 in Scene(6).inFlight;
  }

  lemma FlightGrows(n: nat)
    ensures |Flight(-1, n, 0, 3.0, 0)| == n
    ensures Flight(-1, n, 0, 3.0, 0)[n := Entry(0, 3.0, 0, 0)] == Flight(-1, n + 1, 0, 3.0, 0)
  {
    var f := Flight(-1, n, 0, 3.0, 0);
    BetweenSize(-1, n);
    assert f.Keys == Between(-1, n);
    assert |f| == |f.Keys|;
  }

  lemma SendsFlight(s: State, n: nat)
    requires n < 3 && s == Init(3, 0.0).(nextSeq := n, inFlight := Flight(-1, n, 0, 3.0, 0))
    ensures IdleStep(s, Send(0), s.(nextSeq := n + 1, inFlight := Flight(-1, n + 1, 0, 3.0, 0)))
  {
    FlightGrows(n);
    assert n !in s.inFlight;
  }

  lemma TimesOutFlight(s: State, s': State)
    requires s == Init(3, 0.0).(nextSeq := 3, inFlight := Flight(-1, 3, 0, 3.0, 0))
    requires s' == s.(w := 1.5, wRef := 1.5, incarnation := 1, inFlight := Flight(-1, 3, 0, 1.5, 1))
    ensures IdleStep(s, Timer(1000000, _ => 0), s')
  {
    Rto.TimeoutMicros(1.0);
    assert 0 in s.inFlight && RtoUs(Idle) == 1000000;
    assert Expired(Idle, s, 1000000);
    assert Timeout(s, _ => 0).inFlight == s'.inFlight;
  }

  lemma AcksFlight(s: State, s': State, ackSeq: nat, now: real)
    requires ackSeq < 2 && now == (ackSeq + 1) as real
    requires s == Init(3, 0.0).(nextSeq := 3, cumAcked := ackSeq - 1, w := Grown(ackSeq + 4), wRef := Grown(ackSeq + 4),
                                incarnation := 1, lastUpdateSeq := ackSeq - 1, lastUpdateTime := ackSeq as real,
                                inFlight := Flight(ackSeq - 1, 3, 0, 1.5, 1))
    requires s' == s.(cumAcked := ackSeq, lastUpdateSeq := ackSeq, lastUpdateTime := now, w := 2.0, wRef := 2.0,
                      inFlight := Flight(ackSeq, 3, 0, 1.5, 1))
    ensures IdleStep(s, Ack(ackSeq, [], now), s') && Updates(V2, Idle, s, Ack(ackSeq, [], now))
  {
    assert ackSeq in s.inFlight && 2 in s'.inFlight;
    var g := AtGate(V2, Idle, s, ackSeq, []);
    assert Advance(s, ackSeq).inFlight == s'.inFlight;
    assert g == s.(cumAcked := ackSeq, inFlight := s'.inFlight);
    assert GateW(V2, g) == 1.5;
    assert 1.5.Floor == 1;
    NextWindowIsUpdate(Idle, 1.5, 1.0);
    assert NextWindow(Idle, 1.5, 1.0) == 2.0;
  }
}
