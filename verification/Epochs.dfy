/**
 * The snapshots and incarnation tags that the packets in flight carry, over whole runs, and
 * which feedback the second sender therefore reads.
 */
module Epochs {
  import opened Common
  import opened WireFormat
  import opened Utilization
  import opened Window
  import opened SenderSpec
  import opened Conservation

  // ---- snapshots are sorted ----

  predicate TagsCurrent(s: State) {
    forall k :: k in s.inFlight ==>
                  && s.inFlight[k].incarnation <= s.incarnation
                  && (s.inFlight[k].incarnation == s.incarnation ==> s.inFlight[k].wRef <= s.wRef)
  }

  predicate SnapshotsSorted(s: State) {
    forall a, b :: a in s.inFlight && b in s.inFlight && a < b ==>
                     && s.inFlight[a].incarnation <= s.inFlight[b].incarnation
                     && (s.inFlight[a].incarnation == s.inFlight[b].incarnation ==>
                           s.inFlight[a].wRef <= s.inFlight[b].wRef)
  }

  lemma SendKeepsSorted(c: Config, s: State, ts: int)
    requires Inv(c, s) && TagsCurrent(s) && SnapshotsSorted(s)
    ensures TagsCurrent(SendNext(s, ts)) && SnapshotsSorted(SendNext(s, ts))
  {
    assert s.nextSeq !in s.inFlight;
    assert forall k :: k in s.inFlight ==> k < s.nextSeq;
  }

  lemma AdvanceKeepsSorted(s: State, ackSeq: int)
    requires TagsCurrent(s) && SnapshotsSorted(s)
    ensures TagsCurrent(Advance(s, ackSeq)) && SnapshotsSorted(Advance(s, ackSeq))
  {
  }

  lemma UpdateKeepsSorted(v: Variant, c: Config, s: State, now: real)
    requires c.Valid() && TagsCurrent(s) && SnapshotsSorted(s)
    ensures TagsCurrent(MaybeUpdate(v, c, s, now)) && SnapshotsSorted(MaybeUpdate(v, c, s, now))
  {
  }

  lemma ReceiveKeepsSorted(v: Variant, c: Config, s: State, ackSeq: nat, hops: seq<IntHop>, now: real)
    requires c.Valid() && TagsCurrent(s) && SnapshotsSorted(s) && Reported(hops)
    ensures TagsCurrent(Receive(v, c, s, ackSeq, hops, now)) && SnapshotsSorted(Receive(v, c, s, ackSeq, hops, now))
  {
    var a := Advance(s, ackSeq);
    AdvanceKeepsSorted(s, ackSeq);
    FeedbackKeepsFlight(v, c, a, hops, now);
    UpdateKeepsSorted(v, c, AtGate(v, c, s, ackSeq, hops), now);
  }

  lemma TimeoutKeepsSorted(s: State, clock: int -> int)
    ensures TagsCurrent(Timeout(s, clock)) && SnapshotsSorted(Timeout(s, clock))
  {
  }

  lemma StepKeepsSorted(v: Variant, c: Config, limit: Option<nat>, s: State, e: Event)
    requires c.Valid() && Inv(c, s) && Enabled(limit, s, e) && TagsCurrent(s) && SnapshotsSorted(s)
    ensures TagsCurrent(Apply(v, c, s, e)) && SnapshotsSorted(Apply(v, c, s, e))
  {
    match e
    case Send(ts) => SendKeepsSorted(c, s, ts);
    case Ack(ackSeq, hops, now) => ReceiveKeepsSorted(v, c, s, ackSeq, hops, now);
    case Timer(_, clock) => TimeoutKeepsSorted(s, clock);
  }

  /** In every reachable state of either sender, newer packets never carry an older
      incarnation, nor, within one incarnation, a smaller reference window. */
  lemma {:induction false} RunSortsSnapshots(v: Variant, c: Config, limit: Option<nat>, trace: seq<State>,
                                             events: seq<Event>, wInit: nat, t0: real, i: nat)
    requires c.Valid() && Run(v, c, limit, trace, events) && FromStart(c, trace, wInit, t0) && i <= |events|
    ensures TagsCurrent(trace[i]) && SnapshotsSorted(trace[i])
  {
    if i > 0 {
      RunSortsSnapshots(v, c, limit, trace, events, wInit, t0, i - 1);
      RunKeepsInv(v, c, limit, trace, events, wInit, t0, i - 1);
      StepKeepsSorted(v, c, limit, trace[i - 1], events[i - 1]);
    }
  }

  // ---- the incarnation tag is one boundary ----

  /** The boundary after an event. */
  function NextBoundary(v: Variant, c: Config, s: State, e: Event, s': State, boundary: int): int {
    if TimesOut(c, s, e) then s.cumAcked + 1
    else if Updates(v, c, s, e) && s'.wRef < s.wRef then s'.nextSeq
    else boundary
  }

  /** `next_seq` at the last shrinking update, or `cum_acked + 1` at the last timeout. */
  function Boundary(v: Variant, c: Config, trace: seq<State>, events: seq<Event>, n: nat): int
    requires n <= |events| < |trace|
  {
    if n == 0 then 0
    else NextBoundary(v, c, trace[n - 1], events[n - 1], trace[n], Boundary(v, c, trace, events, n - 1))
  }

  predicate TagsAre(s: State, boundary: int) {
    && boundary <= s.nextSeq
    && (forall k :: k in s.inFlight ==> s.inFlight[k].incarnation <= s.incarnation)
    && (forall k :: k in s.inFlight ==> (s.inFlight[k].incarnation == s.incarnation <==> k >= boundary))
  }

  lemma SendKeepsTags(c: Config, s: State, ts: int, boundary: int)
    requires Inv(c, s) && TagsAre(s, boundary)
    ensures TagsAre(SendNext(s, ts), boundary)
  {
    assert s.nextSeq !in s.inFlight;
  }

  lemma UpdateKeepsTags(v: Variant, c: Config, s: State, now: real, boundary: int)
    requires c.Valid() && Inv(c, s) && TagsAre(s, boundary)
    ensures var s' := MaybeUpdate(v, c, s, now);
            TagsAre(s', if s'.wRef < s.wRef then s'.nextSeq else boundary)
  {
    assert forall k :: k in s.inFlight ==> k < s.nextSeq;
  }

  lemma ReceiveKeepsTags(v: Variant, c: Config, s: State, ackSeq: nat, hops: seq<IntHop>, now: real, boundary: int)
    requires c.Valid() && Inv(c, s) && TagsAre(s, boundary) && ackSeq < s.nextSeq && Reported(hops)
    ensures var s' := Receive(v, c, s, ackSeq, hops, now);
            TagsAre(s', if s'.wRef < s.wRef then s'.nextSeq else boundary)
  {
    AdvanceKeepsInv(c, s, ackSeq);
    var g := AtGate(v, c, s, ackSeq, hops);
    FeedbackKeepsFlight(v, c, Advance(s, ackSeq), hops, now);
    assert TagsAre(g, boundary);
    UpdateKeepsTags(v, c, g, now, boundary);
  }

  lemma StepKeepsTags(v: Variant, c: Config, limit: Option<nat>, s: State, e: Event, boundary: int)
    requires c.Valid() && Inv(c, s) && Enabled(limit, s, e) && TagsAre(s, boundary)
    ensures TagsAre(Apply(v, c, s, e), NextBoundary(v, c, s, e, Apply(v, c, s, e), boundary))
  {
    match e
    case Send(ts) => SendKeepsTags(c, s, ts, boundary);
    case Ack(ackSeq, hops, now) =>
      ReceiveKeepsTags(v, c, s, ackSeq, hops, now, boundary);
      assert Apply(v, c, s, e).wRef < s.wRef ==> Updates(v, c, s, e);
    case Timer(_, _) =>
  }

  /** In every reachable state, timeouts included, a packet carries the current incarnation
      exactly when its sequence number is at or past the boundary. */
  lemma {:induction false} TagIsBoundary(v: Variant, c: Config, limit: Option<nat>, trace: seq<State>,
                                         events: seq<Event>, wInit: nat, t0: real, n: nat)
    requires c.Valid() && Run(v, c, limit, trace, events) && FromStart(c, trace, wInit, t0) && n <= |events|
    ensures TagsAre(trace[n], Boundary(v, c, trace, events, n))
  {
    if n > 0 {
      TagIsBoundary(v, c, limit, trace, events, wInit, t0, n - 1);
      RunKeepsInv(v, c, limit, trace, events, wInit, t0, n - 1);
      StepKeepsTags(v, c, limit, trace[n - 1], events[n - 1], Boundary(v, c, trace, events, n - 1));
    }
  }

  predicate SameFeedback(s: State, s': State) {
    s.uSmoothed == s'.uSmoothed && s.anchors == s'.anchors
  }

  lemma ReceiveReads(v: Variant, c: Config, s: State, ackSeq: nat, hops: seq<IntHop>, now: real)
    requires c.Valid() && Reported(hops) && !Stale(s, ackSeq)
    ensures SameFeedback(Receive(v, c, s, ackSeq, hops, now),
                         if Fresh(v, s, ackSeq) then Smooth(c, s, hops) else s)
  {
    var s1 := Advance(s, ackSeq);
    assert SameFeedback(s1, s);
    assert SameFeedback(Smooth(c, s1, hops), Smooth(c, s, hops));
    var g := AtGate(v, c, s, ackSeq, hops);
    assert SameFeedback(MaybeUpdate(v, c, g, now), g);
  }

  /** So V2 reads the telemetry of exactly the ACKs past the boundary. */
  lemma FeedbackPastBoundary(c: Config, limit: Option<nat>, trace: seq<State>, events: seq<Event>,
                             wInit: nat, t0: real, n: nat)
    requires c.Valid() && Run(V2, c, limit, trace, events) && FromStart(c, trace, wInit, t0)
    requires n < |events| && Accepts(trace[n], events[n])
    ensures var read := Smooth(c, trace[n], events[n].hops);
            SameFeedback(trace[n + 1],
                         if events[n].ackSeq >= Boundary(V2, c, trace, events, n) then read else trace[n])
  {
    TagIsBoundary(V2, c, limit, trace, events, wInit, t0, n);
    RunKeepsInv(V2, c, limit, trace, events, wInit, t0, n);
    StepKeepsInv(V2, c, limit, trace[n], events[n]);
    ReceiveReads(V2, c, trace[n], events[n].ackSeq, events[n].hops, events[n].now);
    assert events[n].ackSeq in trace[n].inFlight;
  }
}
