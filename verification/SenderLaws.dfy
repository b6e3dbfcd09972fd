/**
 * The steps of the two Python HPCC senders once more, as laws between the state before and
 * the state after: every number written out, nothing computed by the functions of
 * SenderSpec.  A step obeys its law, and the law leaves no other step.
 */
module SenderLaws {
  import opened Common
  import opened WireFormat
  import opened Utilization
  import opened Window
  import opened SenderSpec
  import opened Conservation
  import Rto

  // ---- sending ----

  predicate SendLaw(limit: Option<nat>, s: State, ts: int, s': State) {
    && s.nextSeq - 1 - s.cumAcked < s.w.Floor && (limit.Some? ==> s.nextSeq < limit.value)
    && s' == s.(nextSeq := s.nextSeq + 1, inFlight := s.inFlight[s.nextSeq := Entry(ts, s.wRef, s.incarnation, 0)])
  }

  lemma SendIsLaw(c: Config, limit: Option<nat>, s: State, ts: int, s': State)
    requires Inv(c, s)
    ensures SendLaw(limit, s, ts, s') <==> CanSend(s, limit) && s' == SendNext(s, ts)
  {
    FlightSize(c, s);
    assert s.nextSeq !in s.inFlight;
  }

  // ---- an update ----

  /** The window that an update scales and waits for: in V2 the snapshot of the oldest packet
      still unacknowledged after the ACK, if there is one. */
  function Base(v: Variant, s: State, s': State): real {
    if v.V2? && s'.cumAcked + 1 in s'.inFlight then s'.inFlight[s'.cumAcked + 1].wRef else s.wRef
  }

  predicate Due(c: Config, s: State, base: real, cumAcked: int, now: real) {
    && cumAcked >= s.lastUpdateSeq + (if base >= 1.0 then base.Floor else 1)
    && now - s.lastUpdateTime >= c.baseRtt
  }

  /** An update of window `base`, if one is due, otherwise none; s' is past it, s before. */
  predicate UpdateLaw(c: Config, s: State, base: real, now: real, s': State) {
    if Due(c, s, base, s'.cumAcked, now) then
      && WindowLaw(c, base, s'.uSmoothed, s'.wRef) && s'.w == s'.wRef
      && s'.incarnation == (if s'.wRef < s.wRef then s.incarnation + 1 else s.incarnation)
      && s'.lastUpdateSeq == s'.cumAcked && s'.lastUpdateTime == now
    else
      && s'.w == s.w && s'.wRef == s.wRef && s'.incarnation == s.incarnation
      && s'.lastUpdateSeq == s.lastUpdateSeq && s'.lastUpdateTime == s.lastUpdateTime
  }

  lemma GateIsDue(v: Variant, c: Config, g: State, now: real)
    requires c.Valid() && Inv(c, g)
    ensures GateW(v, g) == Base(v, g, g)
    ensures GateOpen(v, c, g, now) <==> Due(c, g, GateW(v, g), g.cumAcked, now)
  {
    FlightSize(c, g);
  }

  /** Two states that differ at most in what an update may set. */
  predicate SameOutside(g: State, s': State) {
    && s'.nextSeq == g.nextSeq && s'.cumAcked == g.cumAcked && s'.inFlight == g.inFlight
    && s'.uSmoothed == g.uSmoothed && s'.anchors == g.anchors
  }

  lemma MaybeUpdateIsLaw(v: Variant, c: Config, g: State, now: real, s': State)
    requires c.Valid() && Inv(c, g)
    ensures UpdateLaw(c, g, Base(v, g, s'), now, s') && SameOutside(g, s') <==> s' == MaybeUpdate(v, c, g, now)
  {
    GateIsDue(v, c, g, now);
    WindowLawIff(c, GateW(v, g), g.uSmoothed, s'.wRef);
  }

  /** Gate and formula of V1 and the C sender do not look at the flight. */
  lemma UpdateV1IsLaw(c: Config, g: State, now: real, s': State)
    requires c.Valid()
    ensures UpdateLaw(c, g, g.wRef, now, s') && SameOutside(g, s') <==> s' == MaybeUpdate(V1, c, g, now)
  {
    WindowLawIff(c, g.wRef, g.uSmoothed, s'.wRef);
  }

  // ---- one ACK ----

  /** Cumulative: everything up to `ackSeq` leaves the flight, the rest stays as it is. */
  predicate FlightLaw(s: State, ackSeq: int, s': State) {
    && s'.cumAcked == ackSeq && s'.nextSeq == s.nextSeq
    && (forall k :: k in s.inFlight && k > ackSeq ==> k in s'.inFlight)
    && (forall k :: k in s'.inFlight ==> k > ackSeq && k in s.inFlight && s'.inFlight[k] == s.inFlight[k])
  }

  /** The telemetry, unless V2 finds the packet's tag outdated; U is 0 if no record is usable. */
  predicate FeedbackLaw(v: Variant, c: Config, s: State, ackSeq: int, u: real, anchors: Anchors, s': State) {
    if v.V2? && ackSeq in s.inFlight && s.inFlight[ackSeq].incarnation != s.incarnation then
      s'.anchors == s.anchors && s'.uSmoothed == s.uSmoothed
    else
      && s'.anchors == anchors
      && s'.uSmoothed == if u > 0.0 then (1.0 - c.tau) * s.uSmoothed + c.tau * u else s.uSmoothed
  }

  predicate AckLaw(v: Variant, c: Config, s: State, ackSeq: int, hops: seq<IntHop>, now: real, s': State)
    requires Reported(hops)
  {
    if ackSeq <= s.cumAcked then s' == s
    else
      var (u, anchors) := Absorb(s.anchors, hops, c.baseRtt);
      && FlightLaw(s, ackSeq, s')
      && FeedbackLaw(v, c, s, ackSeq, u, anchors, s')
      && UpdateLaw(c, s, Base(v, s, s'), now, s')
  }

  /** The state at the update gate, from the laws. */
  predicate AtGateLaw(v: Variant, c: Config, s: State, ackSeq: int, u: real, anchors: Anchors, g: State) {
    && FlightLaw(s, ackSeq, g) && FeedbackLaw(v, c, s, ackSeq, u, anchors, g)
    && g.w == s.w && g.wRef == s.wRef && g.incarnation == s.incarnation
    && g.lastUpdateSeq == s.lastUpdateSeq && g.lastUpdateTime == s.lastUpdateTime
  }

  lemma AdvanceObeys(s: State, ackSeq: int)
    requires s.cumAcked < ackSeq && forall k :: k in s.inFlight ==> k > s.cumAcked
    ensures FlightLaw(s, ackSeq, Advance(s, ackSeq))
    ensures var a := Advance(s, ackSeq); a == s.(cumAcked := ackSeq, inFlight := a.inFlight)
  {
  }

  lemma SmoothFields(c: Config, a: State, hops: seq<IntHop>, u: real, anchors: Anchors)
    requires Reported(hops) && (u, anchors) == Absorb(a.anchors, hops, c.baseRtt)
    ensures Smooth(c, a, hops) == a.(anchors := anchors, uSmoothed := Blend(c.tau, a.uSmoothed, u))
  {
  }

  lemma FeedbackObeys(v: Variant, c: Config, s: State, ackSeq: int, u: real, anchors: Anchors, a: State, g: State)
    requires a.anchors == s.anchors && a.uSmoothed == s.uSmoothed
    requires g == (if Fresh(v, s, ackSeq) then a.(anchors := anchors, uSmoothed := Blend(c.tau, a.uSmoothed, u)) else a)
    ensures FeedbackLaw(v, c, s, ackSeq, u, anchors, g)
  {
  }

  lemma AtGateObeys(v: Variant, c: Config, s: State, ackSeq: int, hops: seq<IntHop>, u: real, anchors: Anchors)
    requires Inv(c, s) && s.cumAcked < ackSeq < s.nextSeq && Reported(hops)
    requires (u, anchors) == Absorb(s.anchors, hops, c.baseRtt)
    ensures AtGateLaw(v, c, s, ackSeq, u, anchors, AtGate(v, c, s, ackSeq, hops))
    ensures Inv(c, AtGate(v, c, s, ackSeq, hops))
  {
    AdvanceObeys(s, ackSeq);
    AdvanceKeepsInv(c, s, ackSeq);
    var a := Advance(s, ackSeq);
    SmoothFields(c, a, hops, u, anchors);
    FeedbackObeys(v, c, s, ackSeq, u, anchors, a, AtGate(v, c, s, ackSeq, hops));
  }

  lemma SameFlight(s: State, ackSeq: int, x: State, y: State)
    requires FlightLaw(s, ackSeq, x) && FlightLaw(s, ackSeq, y)
    ensures x.inFlight == y.inFlight
  {
    assert forall k :: k in x.inFlight <==> k in s.inFlight && k > ackSeq;
    assert forall k :: k in y.inFlight <==> k in s.inFlight && k > ackSeq;
  }

  lemma SameGate(v: Variant, c: Config, s: State, ackSeq: int, u: real, anchors: Anchors, g: State, now: real,
                 s': State)
    requires AtGateLaw(v, c, s, ackSeq, u, anchors, g)
    ensures FlightLaw(s, ackSeq, s') && FeedbackLaw(v, c, s, ackSeq, u, anchors, s') <==> SameOutside(g, s')
    ensures Base(v, s, s') == Base(v, g, s')
    ensures forall base :: UpdateLaw(c, s, base, now, s') <==> UpdateLaw(c, g, base, now, s')
  {
    if FlightLaw(s, ackSeq, s') {
      SameFlight(s, ackSeq, g, s');
    }
  }

  lemma AckIsLaw(v: Variant, c: Config, s: State, ackSeq: int, hops: seq<IntHop>, now: real, s': State)
    requires c.Valid() && Inv(c, s) && ackSeq < s.nextSeq && Reported(hops)
    ensures AckLaw(v, c, s, ackSeq, hops, now, s') <==> s' == Receive(v, c, s, ackSeq, hops, now)
  {
    if ackSeq > s.cumAcked {
      var (u, anchors) := Absorb(s.anchors, hops, c.baseRtt);
      var g := AtGate(v, c, s, ackSeq, hops);
      AtGateObeys(v, c, s, ackSeq, hops, u, anchors);
      SameGate(v, c, s, ackSeq, u, anchors, g, now, s');
      MaybeUpdateIsLaw(v, c, g, now, s');
    }
  }

  // ---- the timer ----

  predicate AnyOverdue(c: Config, s: State, nowUs: int) {
    exists k :: k in s.inFlight && Rto.Overdue(c.baseRtt, nowUs - s.inFlight[k].sentUs)
  }

  /** Half the window but at least one packet, a new incarnation, and everything outstanding
      sent again as if for the first time. */
  predicate HalvedLaw(s: State, clock: int -> int, s': State) {
    var half := if s.wRef < 2.0 then 1.0 else s.wRef / 2.0;
    && s' == s.(w := half, wRef := half, incarnation := s.incarnation + 1, inFlight := s'.inFlight)
    && s'.inFlight.Keys == s.inFlight.Keys
    && (forall k :: k in s'.inFlight ==> s'.inFlight[k] == Entry(clock(k), half, s.incarnation + 1, 0))
  }

  predicate TimerLaw(c: Config, s: State, nowUs: int, clock: int -> int, s': State) {
    if AnyOverdue(c, s, nowUs) then HalvedLaw(s, clock, s') else s' == s
  }

  lemma TimeoutIsLaw(s: State, clock: int -> int, s': State)
    ensures HalvedLaw(s, clock, s') <==> s' == Timeout(s, clock)
  {
    var t := Timeout(s, clock);
    assert t.inFlight.Keys == s.inFlight.Keys;
    if HalvedLaw(s, clock, s') {
      forall k | k in s'.inFlight
        ensures k in t.inFlight && s'.inFlight[k] == t.inFlight[k]
      {
        assert k in s'.inFlight.Keys;
      }
      assert s'.inFlight.Keys == t.inFlight.Keys;
      assert s'.inFlight == t.inFlight;
    }
  }

  lemma ExpiredIsOverdue(c: Config, s: State, nowUs: int)
    ensures Expired(c, s, nowUs) <==> AnyOverdue(c, s, nowUs)
  {
    forall k | k in s.inFlight
      ensures nowUs - s.inFlight[k].sentUs >= RtoUs(c) <==> Rto.Overdue(c.baseRtt, nowUs - s.inFlight[k].sentUs)
    {
      Rto.OverdueIff(c.baseRtt, nowUs - s.inFlight[k].sentUs);
    }
  }

  lemma TimerIsLaw(c: Config, s: State, nowUs: int, clock: int -> int, s': State)
    ensures TimerLaw(c, s, nowUs, clock, s') <==> s' == TimerPass(c, s, nowUs, clock)
  {
    ExpiredIsOverdue(c, s, nowUs);
    TimeoutIsLaw(s, clock, s');
  }

  // ---- steps and runs ----

  predicate StepLaw(v: Variant, c: Config, limit: Option<nat>, s: State, e: Event, s': State) {
    match e
    case Send(ts) => SendLaw(limit, s, ts, s')
    case Ack(ackSeq, hops, now) => ackSeq < s.nextSeq && Reported(hops) && AckLaw(v, c, s, ackSeq, hops, now, s')
    case Timer(nowUs, clock) => TimerLaw(c, s, nowUs, clock, s')
  }

  lemma StepIsLaw(v: Variant, c: Config, limit: Option<nat>, s: State, e: Event, s': State)
    requires c.Valid() && Inv(c, s)
    ensures StepLaw(v, c, limit, s, e, s') <==> Enabled(limit, s, e) && s' == Apply(v, c, s, e)
  {
    match e
    case Send(ts) => SendIsLaw(c, limit, s, ts, s');
    case Ack(ackSeq, hops, now) =>
      if ackSeq < s.nextSeq && Reported(hops) {
        AckIsLaw(v, c, s, ackSeq, hops, now, s');
      }
    case Timer(nowUs, clock) => TimerIsLaw(c, s, nowUs, clock, s');
  }

  predicate StartLaw(c: Config, s: State, wInit: nat, t0: real) {
    && 1 <= wInit <= c.wMax && s.nextSeq == 0 && s.cumAcked == s.lastUpdateSeq == -1 && s.inFlight == map[]
    && s.w == s.wRef == wInit as real && s.incarnation == 0 && s.uSmoothed == 1.0
    && s.lastUpdateTime == t0 && s.anchors == map[]
  }

  /** From the initial state, every step by its law. */
  predicate LawfulRun(v: Variant, c: Config, limit: Option<nat>, trace: seq<State>, events: seq<Event>,
                      wInit: nat, t0: real) {
    && |trace| == |events| + 1 && StartLaw(c, trace[0], wInit, t0)
    && forall i :: 0 <= i < |events| ==> StepLaw(v, c, limit, trace[i], events[i], trace[i + 1])
  }

  lemma {:induction false} LawsKeepInv(v: Variant, c: Config, limit: Option<nat>, trace: seq<State>,
                                       events: seq<Event>, wInit: nat, t0: real, i: nat)
    requires c.Valid() && LawfulRun(v, c, limit, trace, events, wInit, t0) && i <= |events|
    ensures Inv(c, trace[i])
  {
    if i == 0 {
      InitInv(c, wInit, t0);
    } else {
      LawsKeepInv(v, c, limit, trace, events, wInit, t0, i - 1);
      StepIsLaw(v, c, limit, trace[i - 1], events[i - 1], trace[i]);
      StepKeepsInv(v, c, limit, trace[i - 1], events[i - 1]);
    }
  }

  /** The runs of either sender's state machine are exactly the runs whose every step obeys
      its law. */
  lemma RunIsLawful(v: Variant, c: Config, limit: Option<nat>, trace: seq<State>, events: seq<Event>,
                    wInit: nat, t0: real)
    requires c.Valid()
    ensures Run(v, c, limit, trace, events) && FromStart(c, trace, wInit, t0)
            <==> LawfulRun(v, c, limit, trace, events, wInit, t0)
  {
    if Run(v, c, limit, trace, events) && FromStart(c, trace, wInit, t0) {
      forall i | 0 <= i < |events|
        ensures StepLaw(v, c, limit, trace[i], events[i], trace[i + 1])
      {
        RunKeepsInv(v, c, limit, trace, events, wInit, t0, i);
        StepIsLaw(v, c, limit, trace[i], events[i], trace[i + 1]);
      }
    }
    if LawfulRun(v, c, limit, trace, events, wInit, t0) {
      forall i | 0 <= i < |events|
        ensures Enabled(limit, trace[i], events[i]) && trace[i + 1] == Apply(v, c, trace[i], events[i])
      {
        LawsKeepInv(v, c, limit, trace, events, wInit, t0, i);
        StepIsLaw(v, c, limit, trace[i], events[i], trace[i + 1]);
      }
    }
  }
}
