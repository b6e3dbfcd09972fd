/** The steps of the C sender's machine as laws, every number written out (compare SenderLaws). */
module CSenderLaws {
  import opened Common
  import opened WireFormat
  import opened Utilization
  import opened Window
  import opened SenderSpec
  import opened Conservation
  import opened SenderLaws
  import opened CSenderSpec
  import Ring
  import Rto

  // ---- telemetry ----

  /** A table of 256 ports: full, it passes over the record of a new one. */
  predicate CSampleLaw(m: Anchors, h: IntHop, baseRtt: real, x: real, m': Anchors) {
    if h.linkBps != 0 && HopKey(h.switchId, h.egressPort) !in m && |m| >= 256 then x == 0.0 && m' == m
    else SampleLaw(m, h, baseRtt, x, m')
  }

  lemma CSampleLawIff(m: Anchors, h: IntHop, baseRtt: real, x: real, m': Anchors)
    requires h.linkBps >= 0
    ensures CSampleLaw(m, h, baseRtt, x, m') <==> x == HopU(m, h, baseRtt) && m' == CStore(m, h)
  {
    SampleLawIff(m, h, baseRtt, x, m');
  }

  /** Record by record, as in `Utilization.Chain`. */
  predicate CChain(hops: seq<IntHop>, baseRtt: real, us: seq<real>, ms: seq<Anchors>) {
    && |us| == |hops| && |ms| == |hops| + 1
    && forall i :: 0 <= i < |hops| ==> CSampleLaw(ms[i], hops[i], baseRtt, us[i], ms[i + 1])
  }

  lemma CChainNext(hops: seq<IntHop>, baseRtt: real, us: seq<real>, ms: seq<Anchors>, h: IntHop, x: real, m: Anchors)
    requires CChain(hops, baseRtt, us, ms) && CSampleLaw(ms[|hops|], h, baseRtt, x, m)
    ensures CChain(hops + [h], baseRtt, us + [x], ms + [m])
  {
  }

  lemma {:induction false} CAbsorbChain(m: Anchors, hops: seq<IntHop>, baseRtt: real)
      returns (us: seq<real>, ms: seq<Anchors>)
    requires Reported(hops)
    ensures CChain(hops, baseRtt, us, ms) && ms[0] == m
    ensures Greatest(CAbsorb(m, hops, baseRtt).0, us) && CAbsorb(m, hops, baseRtt).1 == ms[|hops|]
  {
    if hops == [] {
      us, ms := [], [m];
    } else {
      var front, h := hops[..|hops| - 1], hops[|hops| - 1];
      us, ms := CAbsorbChain(m, front, baseRtt);
      var before := ms[|front|];
      CSampleLawIff(before, h, baseRtt, HopU(before, h, baseRtt), CStore(before, h));
      GreatestNext(CAbsorb(m, front, baseRtt).0, us, HopU(before, h, baseRtt));
      CChainNext(front, baseRtt, us, ms, h, HopU(before, h, baseRtt), CStore(before, h));
      us, ms := us + [HopU(before, h, baseRtt)], ms + [CStore(before, h)];
      assert hops == front + [h];
    }
  }

  ghost predicate CAbsorbLaw(m: Anchors, hops: seq<IntHop>, baseRtt: real, u: real, m': Anchors) {
    exists us: seq<real>, ms: seq<Anchors> ::
      CChain(hops, baseRtt, us, ms) && ms[0] == m && ms[|hops|] == m' && Greatest(u, us)
  }

  lemma CAbsorbObeys(m: Anchors, hops: seq<IntHop>, baseRtt: real)
    requires Reported(hops)
    ensures var r := CAbsorb(m, hops, baseRtt); CAbsorbLaw(m, hops, baseRtt, r.0, r.1)
  {
    var us, ms := CAbsorbChain(m, hops, baseRtt);
  }

  // ---- one ACK ----

  /** Tracked: in flight, or the number that marks empty slots if no packet occupies its own. */
  predicate Tracked(s: State, ackSeq: int) {
    ackSeq < s.nextSeq || (ackSeq == 0xFFFF_FFFF && forall k :: k in s.inFlight ==> k % 4096 != 4095)
  }

  predicate CFlightLaw(s: State, ackSeq: int, s': State) {
    if Tracked(s, ackSeq) then FlightLaw(s, ackSeq, s')
    else s'.cumAcked == s.cumAcked && s'.nextSeq == s.nextSeq && s'.inFlight == s.inFlight
  }

  predicate CAckLaw(c: Config, s: State, ackSeq: int, hops: seq<IntHop>, now: real, s': State)
    requires Reported(hops)
  {
    if ackSeq <= s.cumAcked then s' == s
    else
      var (u, anchors) := CAbsorb(s.anchors, hops, c.baseRtt);
      && CFlightLaw(s, ackSeq, s')
      && FeedbackLaw(V1, c, s, ackSeq, u, anchors, s')
      && UpdateLaw(c, s, s.wRef, now, s')
  }

  lemma MarkerIs(s: State)
    requires forall k :: k in s.inFlight ==> k >= 0
    ensures MarkerFree(s) <==> forall k :: k in s.inFlight ==> k % 4096 != 4095
  {
  }

  lemma CAdvanceObeys(c: Config, s: State, ackSeq: int)
    requires CInv(c, s) && s.cumAcked < ackSeq
    ensures CFlightLaw(s, ackSeq, CAdvance(s, ackSeq))
    ensures var a := CAdvance(s, ackSeq); a == s.(cumAcked := a.cumAcked, inFlight := a.inFlight)
    ensures !Stale(s, ackSeq)
  {
    MarkerIs(s);
    AdvanceObeys(s, ackSeq);
    assert ackSeq in s.inFlight <==> ackSeq < s.nextSeq;
  }

  lemma CSmoothFields(c: Config, a: State, hops: seq<IntHop>, u: real, anchors: Anchors)
    requires Reported(hops) && (u, anchors) == CAbsorb(a.anchors, hops, c.baseRtt)
    ensures CSmooth(c, a, hops) == a.(anchors := anchors, uSmoothed := Blend(c.tau, a.uSmoothed, u))
  {
  }

  /** The state at the update gate, from the laws. */
  predicate CAtGateLaw(c: Config, s: State, ackSeq: int, u: real, anchors: Anchors, g: State) {
    && CFlightLaw(s, ackSeq, g) && FeedbackLaw(V1, c, s, ackSeq, u, anchors, g)
    && g.w == s.w && g.wRef == s.wRef && g.incarnation == s.incarnation
    && g.lastUpdateSeq == s.lastUpdateSeq && g.lastUpdateTime == s.lastUpdateTime
  }

  lemma CAtGateObeys(c: Config, s: State, ackSeq: int, hops: seq<IntHop>, u: real, anchors: Anchors)
    requires CInv(c, s) && s.cumAcked < ackSeq && Reported(hops)
    requires (u, anchors) == CAbsorb(s.anchors, hops, c.baseRtt)
    ensures CAtGateLaw(c, s, ackSeq, u, anchors, CSmooth(c, CAdvance(s, ackSeq), hops))
  {
    CAdvanceObeys(c, s, ackSeq);
    var a := CAdvance(s, ackSeq);
    CSmoothFields(c, a, hops, u, anchors);
    FeedbackObeys(V1, c, s, ackSeq, u, anchors, a, CSmooth(c, a, hops));
  }

  lemma CSameGate(c: Config, s: State, ackSeq: int, u: real, anchors: Anchors, g: State, now: real, s': State)
    requires CAtGateLaw(c, s, ackSeq, u, anchors, g)
    ensures CFlightLaw(s, ackSeq, s') && FeedbackLaw(V1, c, s, ackSeq, u, anchors, s') <==> SameOutside(g, s')
    ensures UpdateLaw(c, s, s.wRef, now, s') <==> UpdateLaw(c, g, g.wRef, now, s')
  {
    if Tracked(s, ackSeq) && FlightLaw(s, ackSeq, s') {
      SameFlight(s, ackSeq, g, s');
    }
  }

  lemma CAckIsLaw(c: Config, s: State, ackSeq: nat, hops: seq<IntHop>, now: real, s': State)
    requires c.Valid() && CInv(c, s) && Reported(hops)
    ensures CAckLaw(c, s, ackSeq, hops, now, s') <==> s' == CReceive(c, s, ackSeq, hops, now)
  {
    if ackSeq > s.cumAcked {
      var (u, anchors) := CAbsorb(s.anchors, hops, c.baseRtt);
      var g := CSmooth(c, CAdvance(s, ackSeq), hops);
      CAtGateObeys(c, s, ackSeq, hops, u, anchors);
      CSameGate(c, s, ackSeq, u, anchors, g, now, s');
      UpdateV1IsLaw(c, g, now, s');
      CAdvanceObeys(c, s, ackSeq);
    }
  }

  // ---- the timer ----

  /** Ages are differences of 64-bit words. */
  predicate CAnyOverdue(c: Config, s: State, nowUs: int) {
    exists k :: k in s.inFlight && Rto.Overdue(c.baseRtt, (nowUs - s.inFlight[k].sentUs) % 0x1_0000_0000_0000_0000)
  }

  predicate CTimerLaw(c: Config, s: State, nowUs: int, clock: int -> int, s': State) {
    if CAnyOverdue(c, s, nowUs) then HalvedLaw(s, clock, s') else s' == s
  }

  lemma CTimerIsLaw(c: Config, s: State, nowUs: int, clock: int -> int, s': State)
    ensures CTimerLaw(c, s, nowUs, clock, s') <==> s' == CTimerPass(c, s, nowUs, clock)
  {
    forall k | k in s.inFlight
      ensures Ring.Sub64(nowUs, s.inFlight[k].sentUs) >= RtoUs(c)
              <==> Rto.Overdue(c.baseRtt, (nowUs - s.inFlight[k].sentUs) % 0x1_0000_0000_0000_0000)
    {
      Rto.OverdueIff(c.baseRtt, (nowUs - s.inFlight[k].sentUs) % 0x1_0000_0000_0000_0000);
    }
    TimeoutIsLaw(s, clock, s');
  }

  // ---- steps and runs ----

  predicate CStepLaw(c: Config, limit: Option<nat>, s: State, e: Event, s': State) {
    match e
    case Send(ts) => SendLaw(limit, s, ts, s')
    case Ack(ackSeq, hops, now) => Reported(hops) && CAckLaw(c, s, ackSeq, hops, now, s')
    case Timer(nowUs, clock) => CTimerLaw(c, s, nowUs, clock, s')
  }

  lemma CStepIsLaw(c: Config, limit: Option<nat>, s: State, e: Event, s': State)
    requires c.Valid() && CInv(c, s) && CEnabled(limit, s, e)
    ensures CStepLaw(c, limit, s, e, s') <==> s' == CApply(c, s, e)
  {
    match e
    case Send(ts) => SendIsLaw(c, limit, s, ts, s');
    case Ack(ackSeq, hops, now) => CAckIsLaw(c, s, ackSeq, hops, now, s');
    case Timer(nowUs, clock) => CTimerIsLaw(c, s, nowUs, clock, s');
  }

  predicate CLawfulRun(c: Config, limit: Option<nat>, trace: seq<State>, events: seq<Event>, wInit: nat, t0: real) {
    && |trace| == |events| + 1 && StartLaw(c, trace[0], wInit, t0)
    && forall i :: 0 <= i < |events| ==> CStepLaw(c, limit, trace[i], events[i], trace[i + 1])
  }

  lemma {:induction false} CLawsKeepInv(c: Config, limit: Option<nat>, trace: seq<State>, events: seq<Event>,
                                        wInit: nat, t0: real, i: nat)
    requires c.Valid() && AllEnabled(limit, trace, events) && CLawfulRun(c, limit, trace, events, wInit, t0)
    requires i <= |events|
    ensures CInv(c, trace[i])
  {
    if i == 0 {
      CInitInv(c, wInit, t0);
    } else {
      CLawsKeepInv(c, limit, trace, events, wInit, t0, i - 1);
      CStepIsLaw(c, limit, trace[i - 1], events[i - 1], trace[i]);
      CStepKeepsInv(c, limit, trace[i - 1], events[i - 1]);
    }
  }

  /** The runs of the C machine over enabled events are exactly those whose every step obeys
      its law. */
  lemma CRunIsLawful(c: Config, limit: Option<nat>, trace: seq<State>, events: seq<Event>, wInit: nat, t0: real)
    requires c.Valid() && AllEnabled(limit, trace, events)
    ensures CRun(c, limit, trace, events) && FromStart(c, trace, wInit, t0)
            <==> CLawfulRun(c, limit, trace, events, wInit, t0)
  {
    if CRun(c, limit, trace, events) && FromStart(c, trace, wInit, t0) {
      forall i | 0 <= i < |events|
        ensures CStepLaw(c, limit, trace[i], events[i], trace[i + 1])
      {
        CRunKeepsInv(c, limit, trace, events, wInit, t0, i);
        CStepIsLaw(c, limit, trace[i], events[i], trace[i + 1]);
      }
    }
    if CLawfulRun(c, limit, trace, events, wInit, t0) {
      forall i | 0 <= i < |events|
        ensures trace[i + 1] == CApply(c, trace[i], events[i])
      {
        CLawsKeepInv(c, limit, trace, events, wInit, t0, i);
        CStepIsLaw(c, limit, trace[i], events[i], trace[i + 1]);
      }
    }
  }
}
