/**
 * The same question for the first sender, whose gate looks at the current window: an update
 * can fire over packets from before the previous one as soon as the window has shrunk.
 */
module FlightsV1 {
  import opened Common
  import opened WireFormat
  import opened Utilization
  import opened Window
  import opened SenderSpec
  import opened Conservation
  import opened Flights

  /** The last packet below `upTo` is within the current window of the last update, or is
      the next to be acknowledged. */
  predicate WindowHolds(s: State, upTo: int) {
    upTo - 1 <= s.lastUpdateSeq + s.wRef.Floor || upTo - 1 <= s.cumAcked + 1
  }

  lemma V1UpdateReaches(c: Config, limit: Option<nat>, s: State, e: Event, upTo: int)
    requires c.Valid() && Inv(c, s) && Enabled(limit, s, e) && Updates(V1, c, s, e) && WindowHolds(s, upTo)
    ensures Apply(V1, c, s, e).cumAcked >= upTo - 1
  {
    UpdateSets(V1, c, limit, s, e);
    StepKeepsInv(V1, c, limit, s, e);
  }

  lemma V1BareAck(c: Config, s: State, ackSeq: int)
    ensures AtGate(V1, c, s, ackSeq, []) == Advance(s, ackSeq)
  {
  }

  /** Any packet in flight that is a window past the last update opens the gate. */
  lemma V1EarlyUpdate(c: Config, limit: Option<nat>, s: State, ackSeq: nat)
    requires c.Valid() && Inv(c, s) && s.cumAcked < ackSeq < s.nextSeq && ackSeq >= s.lastUpdateSeq + s.wRef.Floor
    ensures var e := Ack(ackSeq, [], s.lastUpdateTime + c.baseRtt);
            Enabled(limit, s, e) && Updates(V1, c, s, e) && Apply(V1, c, s, e).cumAcked == ackSeq
  {
    var a, now := Advance(s, ackSeq), s.lastUpdateTime + c.baseRtt;
    AdvanceKeepsInv(c, s, ackSeq);
    V1BareAck(c, s, ackSeq);
    assert Receive(V1, c, s, ackSeq, [], now) == ApplyUpdate(V1, c, a, now);
  }

  lemma ReachIffWindowHolds(c: Config, limit: Option<nat>, s: State, upTo: int)
    requires c.Valid() && Inv(c, s) && upTo <= s.nextSeq
    ensures UpdatesReach(V1, c, limit, s, upTo) <==> WindowHolds(s, upTo)
  {
    if WindowHolds(s, upTo) {
      forall ackSeq: nat, hops, now |
        Enabled(limit, s, Ack(ackSeq, hops, now)) && Updates(V1, c, s, Ack(ackSeq, hops, now))
        ensures Apply(V1, c, s, Ack(ackSeq, hops, now)).cumAcked >= upTo - 1
      {
        V1UpdateReaches(c, limit, s, Ack(ackSeq, hops, now), upTo);
      }
    } else {
      V1EarlyUpdate(c, limit, s, upTo - 2);
    }
  }

  // ---- over runs ----

  predicate WaitsSince(s: State, first: State) {
    first.nextSeq <= s.nextSeq && s.lastUpdateSeq == first.cumAcked
  }

  lemma V1WaitStep(c: Config, limit: Option<nat>, s: State, e: Event, first: State)
    requires c.Valid() && Inv(c, s) && Enabled(limit, s, e) && !Updates(V1, c, s, e) && WaitsSince(s, first)
    ensures WaitsSince(Apply(V1, c, s, e), first)
    ensures Apply(V1, c, s, e).cumAcked >= s.cumAcked
    ensures Apply(V1, c, s, e).wRef == if TimesOut(c, s, e) then Max(W_MIN, s.wRef / 2.0) else s.wRef
  {
    StepKeepsInv(V1, c, limit, s, e);
    StepKeepsLastUpdate(V1, c, s, e);
  }

  lemma WaitsFromUpdate(c: Config, limit: Option<nat>, trace: seq<State>, events: seq<Event>,
                        wInit: nat, t0: real, i: nat)
    requires c.Valid() && Run(V1, c, limit, trace, events) && FromStart(c, trace, wInit, t0)
    requires i < |events| && Updates(V1, c, trace[i], events[i])
    ensures WaitsSince(trace[i + 1], trace[i + 1])
  {
    RunKeepsInv(V1, c, limit, trace, events, wInit, t0, i);
    UpdateSets(V1, c, limit, trace[i], events[i]);
  }

  lemma {:induction false} WaitsOn(trace: seq<State>, i: nat, m: nat, j: nat)
    requires i < m <= j < |trace| && WaitsSince(trace[i + 1], trace[i + 1])
    requires forall k :: i < k < j && WaitsSince(trace[k], trace[i + 1]) ==> WaitsSince(trace[k + 1], trace[i + 1])
    ensures WaitsSince(trace[m], trace[i + 1])
  {
    if m > i + 1 {
      WaitsOn(trace, i, m - 1, j);
    }
  }

  lemma V1Waiting(c: Config, limit: Option<nat>, trace: seq<State>, events: seq<Event>,
                  wInit: nat, t0: real, i: nat, m: nat, j: nat)
    requires c.Valid() && Run(V1, c, limit, trace, events) && FromStart(c, trace, wInit, t0)
    requires i < m <= j <= |events| && Updates(V1, c, trace[i], events[i]) && NoUpdates(V1, c, trace, events, i + 1, j)
    ensures WaitsSince(trace[m], trace[i + 1])
  {
    WaitsFromUpdate(c, limit, trace, events, wInit, t0, i);
    forall k | i < k < j && WaitsSince(trace[k], trace[i + 1])
      ensures WaitsSince(trace[k + 1], trace[i + 1])
    {
      RunKeepsInv(V1, c, limit, trace, events, wInit, t0, k);
      V1WaitStep(c, limit, trace[k], events[k], trace[i + 1]);
    }
    WaitsOn(trace, i, m, j);
  }

  /** After update i and until the next one, with any timeouts in between: every ACK that
      could fire that update finds the flight of update i acknowledged exactly when the end
      of that flight is within the window the sender has by then, or next in line. */
  lemma NextUpdateReachesIff(c: Config, limit: Option<nat>, trace: seq<State>, events: seq<Event>,
                             wInit: nat, t0: real, i: nat, m: nat)
    requires c.Valid() && Run(V1, c, limit, trace, events) && FromStart(c, trace, wInit, t0)
    requires i < m <= |events| && Updates(V1, c, trace[i], events[i]) && NoUpdates(V1, c, trace, events, i + 1, m)
    ensures UpdatesReach(V1, c, limit, trace[m], trace[i + 1].nextSeq)
            <==> trace[i + 1].nextSeq - 1 <= trace[i + 1].cumAcked + trace[m].wRef.Floor
                 || trace[i + 1].nextSeq - 1 <= trace[m].cumAcked + 1
  {
    V1Waiting(c, limit, trace, events, wInit, t0, i, m, m);
    RunKeepsInv(V1, c, limit, trace, events, wInit, t0, m);
    ReachIffWindowHolds(c, limit, trace[m], trace[i + 1].nextSeq);
  }

  /** Right after an update: exactly when the flight fits the window just set. */
  lemma UpdateReachesIffFits(c: Config, limit: Option<nat>, trace: seq<State>, events: seq<Event>,
                             wInit: nat, t0: real, i: nat)
    requires c.Valid() && Run(V1, c, limit, trace, events) && FromStart(c, trace, wInit, t0)
    requires i < |events| && Updates(V1, c, trace[i], events[i])
    ensures UpdatesReach(V1, c, limit, trace[i + 1], trace[i + 1].nextSeq)
            <==> |trace[i + 1].inFlight| <= trace[i + 1].wRef.Floor
  {
    RunKeepsInv(V1, c, limit, trace, events, wInit, t0, i + 1);
    FlightSize(c, trace[i + 1]);
    NextUpdateReachesIff(c, limit, trace, events, wInit, t0, i, i + 1);
  }

  // ---- over all continuations ----

  predicate HoldsAt(trace: seq<State>, i: nat, m: nat)
    requires i < m < |trace|
  {
    WindowHolds(trace[m], trace[i + 1].nextSeq)
  }

  lemma HoldStep(c: Config, limit: Option<nat>, s: State, e: Event, s': State, first: State)
    requires c.Valid() && Inv(c, s) && Enabled(limit, s, e) && !Updates(V1, c, s, e) && WaitsSince(s, first)
    requires s' == Apply(V1, c, s, e) && WindowHolds(s, first.nextSeq)
    requires TimeoutSpares(c, s, e, first.cumAcked, first.nextSeq)
    ensures WindowHolds(s', first.nextSeq)
  {
    V1WaitStep(c, limit, s, e, first);
  }

  lemma {:induction false} HoldsOn(trace: seq<State>, i: nat, m: nat, j: nat)
    requires i < m <= j < |trace| && HoldsAt(trace, i, i + 1)
    requires forall k :: i < k < j && HoldsAt(trace, i, k) ==> HoldsAt(trace, i, k + 1)
    ensures HoldsAt(trace, i, m)
  {
    if m > i + 1 {
      HoldsOn(trace, i, m - 1, j);
    }
  }

  lemma StaysHeld(c: Config, limit: Option<nat>, trace: seq<State>, events: seq<Event>,
                  wInit: nat, t0: real, i: nat, j: nat)
    requires c.Valid() && Run(V1, c, limit, trace, events) && FromStart(c, trace, wInit, t0)
    requires i < j <= |events| && Updates(V1, c, trace[i], events[i]) && NoUpdates(V1, c, trace, events, i + 1, j)
    requires TimeoutsSpare(c, trace, events, i, j) && HoldsAt(trace, i, i + 1)
    ensures HoldsAt(trace, i, j)
  {
    forall k | i < k < j && HoldsAt(trace, i, k)
      ensures HoldsAt(trace, i, k + 1)
    {
      V1Waiting(c, limit, trace, events, wInit, t0, i, k, j);
      RunKeepsInv(V1, c, limit, trace, events, wInit, t0, k);
      HoldStep(c, limit, trace[k], events[k], trace[k + 1], trace[i + 1]);
    }
    HoldsOn(trace, i, j, j);
  }

  /** Any two updates are a flight apart, if the flight fitted the window that the first one
      set and the timeouts in between spare it. */
  lemma OneUpdatePerFlight(c: Config, limit: Option<nat>, trace: seq<State>, events: seq<Event>,
                           wInit: nat, t0: real, i: nat, j: nat)
    requires c.Valid() && Run(V1, c, limit, trace, events) && FromStart(c, trace, wInit, t0)
    requires i < j < |events| && HoldsAt(trace, i, i + 1) && TimeoutsSpare(c, trace, events, i, j)
    requires Updates(V1, c, trace[i], events[i]) && Updates(V1, c, trace[j], events[j])
    ensures trace[j + 1].cumAcked >= trace[i + 1].nextSeq - 1
    decreases j - i
  {
    if k :| i < k < j && Updates(V1, c, trace[k], events[k]) {
      OneUpdatePerFlight(c, limit, trace, events, wInit, t0, i, k);
      CumulativeGrows(V1, c, limit, trace, events, wInit, t0, k + 1, j + 1);
    } else {
      StaysHeld(c, limit, trace, events, wInit, t0, i, j);
      RunKeepsInv(V1, c, limit, trace, events, wInit, t0, j);
      V1UpdateReaches(c, limit, trace[j], events[j], trace[i + 1].nextSeq);
    }
  }

  lemma ContinuationApart(c: Config, limit: Option<nat>, trace: seq<State>, events: seq<Event>, wInit: nat, t0: real,
                          i: nat, trace': seq<State>, events': seq<Event>, j: nat)
    requires c.Valid() && Run(V1, c, limit, trace, events) && FromStart(c, trace, wInit, t0)
    requires i < |events| && Updates(V1, c, trace[i], events[i]) && HoldsAt(trace, i, i + 1)
    requires Continuation(V1, c, limit, trace, events, i + 1, trace', events') && i < j < |events'|
    requires TimeoutsSpare(c, trace', events', i, j) && Updates(V1, c, trace'[j], events'[j])
    ensures trace'[j + 1].cumAcked >= trace[i + 1].nextSeq - 1
  {
    var n := i + 1;
    assert trace'[..n + 1][0] == trace'[0] && trace[..n + 1][0] == trace[0];
    assert trace'[..n + 1][i] == trace'[i] && trace[..n + 1][i] == trace[i];
    assert trace'[..n + 1][n] == trace'[n] && trace[..n + 1][n] == trace[n];
    assert events'[..n][i] == events'[i] && events[..n][i] == events[i];
    OneUpdatePerFlight(c, limit, trace', events', wInit, t0, i, j);
  }

  /** The flight property of V1, exactly: after update i it holds in every continuation if
      and only if the flight fits the window that the update has set. */
  lemma FlightApartIff(c: Config, limit: Option<nat>, trace: seq<State>, events: seq<Event>,
                       wInit: nat, t0: real, i: nat)
    requires c.Valid() && Run(V1, c, limit, trace, events) && FromStart(c, trace, wInit, t0)
    requires i < |events| && Updates(V1, c, trace[i], events[i])
    ensures AlwaysFlightApart(V1, c, limit, trace, events, i)
            <==> |trace[i + 1].inFlight| <= trace[i + 1].wRef.Floor
  {
    UpdateReachesIffFits(c, limit, trace, events, wInit, t0, i);
    if |trace[i + 1].inFlight| <= trace[i + 1].wRef.Floor {
      WaitsFromUpdate(c, limit, trace, events, wInit, t0, i);
      RunKeepsInv(V1, c, limit, trace, events, wInit, t0, i + 1);
      FlightSize(c, trace[i + 1]);
      assert HoldsAt(trace, i, i + 1);
      forall trace': seq<State>, events': seq<Event>, j: nat |
        Continuation(V1, c, limit, trace, events, i + 1, trace', events') && i < j < |events'|
        && TimeoutsSpare(c, trace', events', i, j) && Updates(V1, c, trace'[j], events'[j])
        ensures trace'[j + 1].cumAcked >= trace[i + 1].nextSeq - 1
      {
        ContinuationApart(c, limit, trace, events, wInit, t0, i, trace', events', j);
      }
    } else {
      var ackSeq: nat, hops, now :|
        Enabled(limit, trace[i + 1], Ack(ackSeq, hops, now)) && Updates(V1, c, trace[i + 1], Ack(ackSeq, hops, now))
        && Apply(V1, c, trace[i + 1], Ack(ackSeq, hops, now)).cumAcked < trace[i + 1].nextSeq - 1;
      var trace', events' := CloseContinuation(V1, c, limit, trace, events, i, Ack(ackSeq, hops, now));
      assert !AlwaysFlightApart(V1, c, limit, trace, events, i);
    }
  }

  // ---- a run without timeouts that breaks it ----

  /** Every update halves the window: eta is half the initial smoothed utilisation. */
  const Halving: Config := Config(8, 0.5, 0.0, 0.0, 1.0)

  predicate HalvingStep(s: State, e: Event, s': State) {
    Halving.Valid() && Enabled(None, s, e) && s' == Apply(V1, Halving, s, e)
  }

  function Out(cum: int, next: int): map<int, Entry> {
    Flight(cum, next, 0, 3.0, 0)
  }

  /** Three packets leave under window 3; the ACK of packet 1 lets two more out; the ACK of
      packet 2 fires an update to 1.5 with packets 3 and 4 out; so the ACK of packet 3 fires
      the next one, with packet 4 still out. */
  function Scene(i: nat): State
    requires i <= 8
  {
    var s := Init(3, 0.0);
    if i <= 3 then s.(nextSeq := i, inFlight := Out(-1, i))
    else if i <= 6 then s.(nextSeq := i - 1, cumAcked := 1, inFlight := Out(1, i - 1))
    else s.(nextSeq := 5, cumAcked := i - 5, lastUpdateSeq := i - 5, lastUpdateTime := (i - 6) as real,
            incarnation := i - 6, w := if i == 7 then 1.5 else 1.0, wRef := if i == 7 then 1.5 else 1.0,
            inFlight := Out(i - 5, 5))
  }

  function Cue(i: nat): Event {
    if i == 3 then Ack(1, [], 0.0) else if i < 6 then Send(0) else Ack(i - 4, [], (i - 5) as real)
  }

  lemma OutGrows(cum: int, n: nat)
    requires -1 <= cum < n
    ensures |Out(cum, n)| == n - 1 - cum && n !in Out(cum, n)
    ensures Out(cum, n)[n := Entry(0, 3.0, 0, 0)] == Out(cum, n + 1)
  {
    var f := Out(cum, n);
    BetweenSize(cum, n);
    assert f.Keys == Between(cum, n);
    assert |f| == |f.Keys|;
  }

  lemma OutShrinks(s: State, ackSeq: int)
    requires s.inFlight == Out(s.cumAcked, s.nextSeq) && s.cumAcked < ackSeq
    ensures Advance(s, ackSeq) == s.(cumAcked := ackSeq, inFlight := Out(ackSeq, s.nextSeq))
  {
    assert Advance(s, ackSeq).inFlight == Out(ackSeq, s.nextSeq);
  }

  lemma Sends(s: State, cum: int, n: nat)
    requires -1 <= cum < n && n - 1 - cum < 3
    requires s == Init(3, 0.0).(nextSeq := n, cumAcked := cum, inFlight := Out(cum, n))
    ensures HalvingStep(s, Send(0), s.(nextSeq := n + 1, inFlight := Out(cum, n + 1)))
  {
    OutGrows(cum, n);
  }

  lemma Acks(s: State, ackSeq: nat, now: real)
    requires s.inFlight == Out(s.cumAcked, s.nextSeq) && s.cumAcked < ackSeq < s.nextSeq
    ensures var a := s.(cumAcked := ackSeq, inFlight := Out(ackSeq, s.nextSeq));
            && HalvingStep(s, Ack(ackSeq, [], now), MaybeUpdate(V1, Halving, a, now))
            && (Updates(V1, Halving, s, Ack(ackSeq, [], now)) <==> GateOpen(V1, Halving, a, now))
  {
    OutShrinks(s, ackSeq);
    V1BareAck(Halving, s, ackSeq);
    assert ackSeq in s.inFlight;
  }

  /** At smoothed utilisation 1 an update halves the window, down to 1. */
  lemma Halves(w: real)
    requires 1.0 <= w <= 8.0
    ensures NextWindow(Halving, w, 1.0) == Max(1.0, w / 2.0)
  {
    NextWindowIsUpdate(Halving, w, 1.0);
  }

  lemma SceneStep(i: nat)
    requires i < 8
    ensures HalvingStep(Scene(i), Cue(i), Scene(i + 1))
    ensures i >= 6 ==> Updates(V1, Halving, Scene(i), Cue(i))
  {
    if i < 3 {
      Sends(Scene(i), -1, i);
    } else if i == 3 {
      Acks(Scene(3), 1, 0.0);
    } else if i < 6 {
      Sends(Scene(i), 1, i - 1);
    } else {
      Acks(Scene(i), i - 4, (i - 5) as real);
      Halves(Scene(i).wRef);
    }
  }

  lemma ScenesRun() returns (trace: seq<State>, events: seq<Event>)
    ensures |trace| == 9 && |events| == 8
    ensures forall i :: 0 <= i < 9 ==> trace[i] == Scene(i)
    ensures forall i :: 0 <= i < 8 ==> events[i] == Cue(i)
    ensures Halving.Valid() && Run(V1, Halving, None, trace, events)
  {
    trace := seq(9, i requires 0 <= i < 9 => Scene(i));
    events := seq(8, i requires 0 <= i < 8 => Cue(i));
    forall i | 0 <= i < 8
      ensures Enabled(None, trace[i], events[i]) && trace[i + 1] == Apply(V1, Halving, trace[i], events[i])
    {
      SceneStep(i);
    }
  }

  /** Without any timeout: events 6 and 7 each fire an update, although packet 4,
      outstanding at the first, still is at the second. */
  lemma ShrinkingBreaksFlight() returns (trace: seq<State>, events: seq<Event>)
    ensures Halving.Valid() && Run(V1, Halving, None, trace, events) && FromStart(Halving, trace, 3, 0.0)
    ensures |events| == 8 && Updates(V1, Halving, trace[6], events[6]) && Updates(V1, Halving, trace[7], events[7])
    ensures forall k :: 0 <= k < 8 ==> !events[k].Timer?
    ensures 4 in trace[7].inFlight && 4 in trace[8].inFlight && trace[8].cumAcked < trace[7].nextSeq - 1
  {
    trace, events := ScenesRun();
    SceneStep(6);
    SceneStep(7);
    assert Scene(0) == Init(3, 0.0);
    assert 4 in Scene(7).inFlight && 4 in Scene(8).inFlight;
  }
}
