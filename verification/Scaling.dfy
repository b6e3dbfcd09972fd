/**
 * Which window an update scales.  The first sender always takes its current reference; the
 * second takes the snapshot of the oldest packet still unacknowledged, which is the current
 * reference until a timeout has intervened.
 */
module Scaling {
  import opened Common
  import opened WireFormat
  import opened Utilization
  import opened Window
  import opened SenderSpec
  import opened Conservation
  import opened Flights
  import opened SenderLaws
  import Rto

  lemma UpdateIsDue(v: Variant, c: Config, limit: Option<nat>, s: State, e: Event, s': State)
    requires c.Valid() && Inv(c, s) && Enabled(limit, s, e) && Updates(v, c, s, e) && s' == Apply(v, c, s, e)
    ensures Due(c, s, Base(v, s, s'), s'.cumAcked, e.now) && UpdateLaw(c, s, Base(v, s, s'), e.now, s')
    ensures WindowLaw(c, Base(v, s, s'), s'.uSmoothed, s'.wRef) && s'.w == s'.wRef
  {
    StepKeepsInv(v, c, limit, s, e);
    var (u, anchors) := Absorb(s.anchors, e.hops, c.baseRtt);
    var g := AtGate(v, c, s, e.ackSeq, e.hops);
    AtGateObeys(v, c, s, e.ackSeq, e.hops, u, anchors);
    GateIsDue(v, c, g, e.now);
    MaybeUpdateIsLaw(v, c, g, e.now, s');
    SameGate(v, c, s, e.ackSeq, u, anchors, g, e.now, s');
  }

  /** In every run of either sender, timeouts included, the window after an update is
      `b * eta / max(u, 1/1000) + w_ai` within [1, w_max].  In V2 the base b is the snapshot of
      packet cum_acked + 1, if that is in flight; otherwise, and in V1, the reference before. */
  lemma UpdateScales(v: Variant, c: Config, limit: Option<nat>, trace: seq<State>, events: seq<Event>,
                     wInit: nat, t0: real, n: nat)
    requires c.Valid() && Run(v, c, limit, trace, events) && FromStart(c, trace, wInit, t0)
    requires n < |events| && Updates(v, c, trace[n], events[n])
    ensures WindowLaw(c, Base(v, trace[n], trace[n + 1]), trace[n + 1].uSmoothed, trace[n + 1].wRef)
    ensures trace[n + 1].w == trace[n + 1].wRef
  {
    RunKeepsInv(v, c, limit, trace, events, wInit, t0, n);
    UpdateIsDue(v, c, limit, trace[n], events[n], trace[n + 1]);
  }

  // ---- without timeouts the snapshot is the current reference ----

  /** The first packet sent since the last update. */
  function FirstSince(v: Variant, c: Config, trace: seq<State>, events: seq<Event>, n: nat): nat
    requires n <= |events| < |trace|
  {
    if n == 0 then 0
    else if Updates(v, c, trace[n - 1], events[n - 1]) then trace[n].nextSeq
    else FirstSince(v, c, trace, events, n - 1)
  }

  predicate CurrentFrom(s: State, first: nat) {
    first <= s.nextSeq && forall k :: k in s.inFlight && k >= first ==> s.inFlight[k].wRef == s.wRef
  }

  lemma StepKeepsCurrent(v: Variant, c: Config, limit: Option<nat>, s: State, e: Event, first: nat)
    requires c.Valid() && Inv(c, s) && Enabled(limit, s, e) && !TimesOut(c, s, e) && CurrentFrom(s, first)
    ensures var s' := Apply(v, c, s, e);
            CurrentFrom(s', if Updates(v, c, s, e) then s'.nextSeq else first)
  {
    StepKeepsInv(v, c, limit, s, e);
    if !Updates(v, c, s, e) {
      QuietStep(v, c, limit, s, e);
      if e.Send? {
        SendKeepsInv(c, s, limit, e.ts);
      }
    }
  }

  /** As long as nothing times out, packets sent since the last update carry the current
      reference window. */
  lemma {:induction false} SentSinceIsCurrent(v: Variant, c: Config, limit: Option<nat>, trace: seq<State>,
                                              events: seq<Event>, wInit: nat, t0: real, n: nat)
    requires c.Valid() && Run(v, c, limit, trace, events) && FromStart(c, trace, wInit, t0) && n <= |events|
    requires forall k :: 0 <= k < n ==> !TimesOut(c, trace[k], events[k])
    ensures CurrentFrom(trace[n], FirstSince(v, c, trace, events, n))
  {
    if n > 0 {
      SentSinceIsCurrent(v, c, limit, trace, events, wInit, t0, n - 1);
      RunKeepsInv(v, c, limit, trace, events, wInit, t0, n - 1);
      StepKeepsCurrent(v, c, limit, trace[n - 1], events[n - 1], FirstSince(v, c, trace, events, n - 1));
    }
  }

  lemma {:induction false} FirstSinceIsUpdate(v: Variant, c: Config, trace: seq<State>, events: seq<Event>, n: nat)
      returns (i: nat)
    requires n <= |events| < |trace| && FirstSince(v, c, trace, events, n) > 0
    ensures i < n && Updates(v, c, trace[i], events[i]) && FirstSince(v, c, trace, events, n) == trace[i + 1].nextSeq
  {
    if Updates(v, c, trace[n - 1], events[n - 1]) {
      i := n - 1;
    } else {
      i := FirstSinceIsUpdate(v, c, trace, events, n - 1);
    }
  }

  lemma {:induction false} NothingResent(c: Config, trace: seq<State>, events: seq<Event>, n: nat)
    requires n <= |events| < |trace| && forall k :: 0 <= k < n ==> !TimesOut(c, trace[k], events[k])
    ensures LastResent(c, trace, events, n) == Resent(0, 0)
  {
    if n > 0 {
      NothingResent(c, trace, events, n - 1);
    }
  }

  /** Nothing sent before the previous update is in flight at an update. */
  lemma PastFirstSince(c: Config, limit: Option<nat>, trace: seq<State>, events: seq<Event>,
                       wInit: nat, t0: real, n: nat)
    requires c.Valid() && Run(V2, c, limit, trace, events) && FromStart(c, trace, wInit, t0)
    requires n < |events| && Updates(V2, c, trace[n], events[n])
    requires forall k :: 0 <= k < n ==> !TimesOut(c, trace[k], events[k])
    ensures trace[n + 1].cumAcked + 1 >= FirstSince(V2, c, trace, events, n)
  {
    RunKeepsInv(V2, c, limit, trace, events, wInit, t0, n + 1);
    if FirstSince(V2, c, trace, events, n) > 0 {
      var i := FirstSinceIsUpdate(V2, c, trace, events, n);
      NothingResent(c, trace, events, i + 1);
      RunKeepsInv(V2, c, limit, trace, events, wInit, t0, i + 1);
      OneUpdatePerFlight(c, limit, trace, events, wInit, t0, i, n);
    }
  }

  /** In a run of the second sender without timeouts every update scales its current
      reference window, as in the first sender. */
  lemma ScalesCurrent(c: Config, limit: Option<nat>, trace: seq<State>, events: seq<Event>,
                      wInit: nat, t0: real, n: nat)
    requires c.Valid() && Run(V2, c, limit, trace, events) && FromStart(c, trace, wInit, t0)
    requires n < |events| && Updates(V2, c, trace[n], events[n])
    requires forall k :: 0 <= k < n ==> !TimesOut(c, trace[k], events[k])
    ensures var after := trace[n + 1];
            after.cumAcked + 1 in after.inFlight ==> after.inFlight[after.cumAcked + 1].wRef == trace[n].wRef
    ensures WindowLaw(c, trace[n].wRef, trace[n + 1].uSmoothed, trace[n + 1].wRef)
  {
    PastFirstSince(c, limit, trace, events, wInit, t0, n);
    SentSinceIsCurrent(V2, c, limit, trace, events, wInit, t0, n);
    RunKeepsInv(V2, c, limit, trace, events, wInit, t0, n);
    UpdateSets(V2, c, limit, trace[n], events[n]);
    UpdateScales(V2, c, limit, trace, events, wInit, t0, n);
  }

  /** After a timeout it need not: in this run the last update finds a snapshot of 1.5 under a
      reference of 2.0, and scales the snapshot. */
  lemma TimeoutMakesDifference() returns (trace: seq<State>, events: seq<Event>)
    ensures Idle.Valid() && Run(V2, Idle, None, trace, events) && FromStart(Idle, trace, 3, 0.0)
    ensures |events| == 6 && Updates(V2, Idle, trace[5], events[5]) && TimesOut(Idle, trace[3], events[3])
    ensures var before, after := trace[5], trace[6];
            && after.cumAcked + 1 in after.inFlight && after.inFlight[after.cumAcked + 1].wRef == 1.5
            && before.wRef == 2.0 && after.uSmoothed == 1.0
            && WindowLaw(Idle, 1.5, 1.0, after.wRef) && !WindowLaw(Idle, 2.0, 1.0, after.wRef)
  {
    trace, events := ScenesRun();
    SceneStep(5);
    SceneTimesOut();
    assert Scene(0) == Init(3, 0.0);
    assert Scene(6).inFlight[2].wRef == 1.5;
  }

  lemma SceneTimesOut()
    ensures TimesOut(Idle, Scene(3), Cue(3))
  {
    Rto.TimeoutMicros(1.0);
    assert 0 in Scene(3).inFlight;
  }
}
