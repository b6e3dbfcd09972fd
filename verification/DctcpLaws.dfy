/** The steps of the DCTCP sender as laws, every number written out (compare SenderLaws). */
module DctcpLaws {
  import opened Average
  import opened Common
  import opened DctcpSpec
  import opened Dctcp
  import Rto

  predicate SendLaw(limit: Option<nat>, s: State, ts: int, s': State) {
    && s.nextSeq - 1 - s.cumAcked < s.w.Floor && (limit.Some? ==> s.nextSeq < limit.value)
    && s' == s.(nextSeq := s.nextSeq + 1, inFlight := s.inFlight[s.nextSeq := Sent(ts, 0)])
  }

  lemma SendIsLaw(c: Config, limit: Option<nat>, s: State, ts: int, s': State)
    requires Inv(c, s)
    ensures SendLaw(limit, s, ts, s') <==> CanSend(s, limit) && s' == SendNext(s, ts)
  {
    FlightSize(c, s);
    assert s.nextSeq !in s.inFlight;
  }

  // ---- an update ----

  /** alpha' is (1 - g) * alpha + g * marked / total. */
  predicate AlphaLaw(g: real, alpha: real, marked: nat, total: nat, alpha': real) {
    total as real * (alpha' - (1.0 - g) * alpha) == g * marked as real
  }

  /** A marked window loses the share alpha / 2, but keeps at least a packet; an unmarked one
      gains a packet, up to the cap. */
  predicate WindowLaw(c: Config, w: real, marked: bool, alpha': real, w': real) {
    if marked then
      w' >= 1.0 && (w' > 1.0 ==> 2.0 * (w - w') == w * alpha') && (w' == 1.0 ==> 2.0 * (w - 1.0) <= w * alpha')
    else w' == if w + 1.0 <= c.wMax as real then w + 1.0 else c.wMax as real
  }

  lemma FractionScales(g: real, marked: nat, total: nat)
    requires total > 0
    ensures total as real * (g * Fraction(marked, total)) == g * marked as real
  {
    assert total as real * Fraction(marked, total) == marked as real;
  }

  lemma AlphaIsLaw(g: real, alpha: real, marked: nat, total: nat, alpha': real)
    requires total > 0
    ensures AlphaLaw(g, alpha, marked, total, alpha') <==> alpha' == Ewma(g, alpha, Fraction(marked, total))
  {
    FractionScales(g, marked, total);
    var x, y := alpha' - (1.0 - g) * alpha, g * Fraction(marked, total);
    Cancels(total as real, x, y);
  }

  lemma Cancels(t: real, x: real, y: real)
    requires t > 0.0
    ensures t * x == t * y <==> x == y
  {
    assert t * x == t * y ==> t * (x - y) == 0.0;
  }

  lemma CutIsLaw(c: Config, w: real, alpha': real, w': real)
    ensures WindowLaw(c, w, true, alpha', w') <==> w' == Cut(w, Share(w, alpha'))
  {
  }

  /** What a mark costs. */
  predicate CutLaw(w: real, alpha': real, w': real) {
    && w' >= 1.0 && (w' > 1.0 ==> 2.0 * (w - w') == w * alpha')
    && (w' == 1.0 <==> w * (1.0 - alpha' / 2.0) <= 1.0)
  }

  lemma CutToOneIff(c: Config, w: real, alpha': real, w': real)
    requires WindowLaw(c, w, true, alpha', w')
    ensures CutLaw(w, alpha', w')
  {
    HalfCut(w, alpha');
  }

  /** One more ACK is counted, and if it completes a window of acknowledgements the window is
      updated and the count starts over; s' is past it, s before. */
  predicate UpdateLaw(c: Config, s: State, ecn: bool, s': State) {
    var total, marked := s.total + 1, s.marked + (if ecn then 1 else 0);
    if s'.cumAcked >= s.lastUpdateSeq + s.w.Floor then
      && AlphaLaw(c.g, s.alpha, marked, total, s'.alpha) && WindowLaw(c, s.w, marked > 0, s'.alpha, s'.w)
      && s'.lastUpdateSeq == s'.cumAcked && s'.total == s'.marked == 0
    else
      && s'.alpha == s.alpha && s'.w == s.w && s'.lastUpdateSeq == s.lastUpdateSeq
      && s'.total == total && s'.marked == marked
  }

  predicate FlightLaw(s: State, ackSeq: int, s': State) {
    && s'.cumAcked == ackSeq && s'.nextSeq == s.nextSeq
    && (forall k :: k in s.inFlight && k > ackSeq ==> k in s'.inFlight)
    && (forall k :: k in s'.inFlight ==> k > ackSeq && k in s.inFlight && s'.inFlight[k] == s.inFlight[k])
  }

  predicate AckLaw(c: Config, s: State, ackSeq: int, ecn: bool, s': State) {
    if ackSeq <= s.cumAcked then s' == s else FlightLaw(s, ackSeq, s') && UpdateLaw(c, s, ecn, s')
  }

  predicate SameFlightAs(g: State, s': State) {
    s'.nextSeq == g.nextSeq && s'.cumAcked == g.cumAcked && s'.inFlight == g.inFlight
  }

  lemma SameFlight(s: State, ackSeq: int, x: State, y: State)
    requires FlightLaw(s, ackSeq, x)
    ensures FlightLaw(s, ackSeq, y) <==> SameFlightAs(x, y)
  {
    assert forall k :: k in x.inFlight <==> k in s.inFlight && k > ackSeq;
    if FlightLaw(s, ackSeq, y) {
      assert forall k :: k in y.inFlight <==> k in s.inFlight && k > ackSeq;
    }
  }

  lemma AdvanceObeys(s: State, ackSeq: int)
    requires s.cumAcked < ackSeq && forall k :: k in s.inFlight ==> k > s.cumAcked
    ensures FlightLaw(s, ackSeq, Advance(s, ackSeq))
    ensures var a := Advance(s, ackSeq); a == s.(cumAcked := ackSeq, inFlight := a.inFlight)
  {
  }

  lemma MaybeUpdateIsLaw(c: Config, s: State, a: State, ecn: bool, s': State)
    requires a == s.(cumAcked := a.cumAcked, inFlight := a.inFlight)
    ensures UpdateLaw(c, s, ecn, s') && SameFlightAs(a, s') <==> s' == MaybeUpdate(c, Count(a, ecn))
  {
    var total, marked := s.total + 1, s.marked + (if ecn then 1 else 0);
    AlphaIsLaw(c.g, s.alpha, marked, total, s'.alpha);
    CutIsLaw(c, s.w, s'.alpha, s'.w);
  }

  lemma AckIsLaw(c: Config, s: State, ackSeq: nat, ecn: bool, s': State)
    requires Inv(c, s) && ackSeq < s.nextSeq
    ensures AckLaw(c, s, ackSeq, ecn, s') <==> s' == Receive(c, s, ackSeq, ecn)
  {
    AckAdvances(c, s, ackSeq, ecn);
    if ackSeq > s.cumAcked {
      var a := Advance(s, ackSeq);
      AdvanceObeys(s, ackSeq);
      SameFlight(s, ackSeq, a, s');
      MaybeUpdateIsLaw(c, s, a, ecn, s');
    }
  }

  // ---- the timer ----

  predicate AnyOverdue(c: Config, s: State, nowUs: int) {
    exists k :: k in s.inFlight && Rto.Overdue(c.baseRtt, nowUs - s.inFlight[k].ts)
  }

  /** Half the window but at least one packet, and everything outstanding sent again. */
  predicate HalvedLaw(s: State, clock: int -> int, s': State) {
    && s' == s.(w := if s.w < 2.0 then 1.0 else s.w / 2.0, inFlight := s'.inFlight)
    && s'.inFlight.Keys == s.inFlight.Keys
    && (forall k :: k in s'.inFlight ==> s'.inFlight[k] == Sent(clock(k), 0))
  }

  predicate TimerLaw(c: Config, s: State, nowUs: int, clock: int -> int, s': State) {
    if AnyOverdue(c, s, nowUs) then HalvedLaw(s, clock, s') else s' == s
  }

  lemma TimeoutIsLaw(s: State, clock: int -> int, s': State)
    ensures HalvedLaw(s, clock, s') <==> s' == Timeout(s, clock)
  {
    var t := Timeout(s, clock);
    assert t.inFlight.Keys == s.inFlight.Keys;
    if HalvedLaw(s, clock, s') {
      forall k | k in s'.inFlight
        ensures k in t.inFlight && s'.inFlight[k] == t.inFlight[k]
      {
        assert k in s'.inFlight.Keys;
      }
      assert s'.inFlight.Keys == t.inFlight.Keys;
      assert s'.inFlight == t.inFlight;
    }
  }

  lemma TimerIsLaw(c: Config, s: State, nowUs: int, clock: int -> int, s': State)
    ensures TimerLaw(c, s, nowUs, clock, s') <==> s' == TimerPass(c, s, nowUs, clock)
  {
    forall k | k in s.inFlight
      ensures nowUs - s.inFlight[k].ts >= Rto.Timeout(c.baseRtt)
              <==> Rto.Overdue(c.baseRtt, nowUs - s.inFlight[k].ts)
    {
      Rto.OverdueIff(c.baseRtt, nowUs - s.inFlight[k].ts);
    }
    TimeoutIsLaw(s, clock, s');
  }

  // ---- steps and runs ----

  predicate StepLaw(c: Config, limit: Option<nat>, s: State, e: Event, s': State) {
    match e
    case Send(ts) => SendLaw(limit, s, ts, s')
    case Ack(ackSeq, ecn) => ackSeq < s.nextSeq && AckLaw(c, s, ackSeq, ecn, s')
    case Timer(nowUs, clock) => TimerLaw(c, s, nowUs, clock, s')
  }

  lemma StepIsLaw(c: Config, limit: Option<nat>, s: State, e: Event, s': State)
    requires c.Valid() && Inv(c, s)
    ensures StepLaw(c, limit, s, e, s') <==> Enabled(limit, s, e) && s' == Apply(c, s, e)
  {
    match e
    case Send(ts) => SendIsLaw(c, limit, s, ts, s');
    case Ack(ackSeq, ecn) =>
      if ackSeq < s.nextSeq {
        AckIsLaw(c, s, ackSeq, ecn, s');
      }
    case Timer(nowUs, clock) => TimerIsLaw(c, s, nowUs, clock, s');
  }

  predicate StartLaw(c: Config, s: State, wInit: nat) {
    && c.Valid() && 1 <= wInit <= c.wMax && s.nextSeq == 0 && s.cumAcked == s.lastUpdateSeq == -1
    && s.inFlight == map[] && s.w == wInit as real && s.alpha == 0.0 && s.total == s.marked == 0
  }

  predicate LawfulRun(c: Config, limit: Option<nat>, trace: seq<State>, events: seq<Event>, wInit: nat) {
    && |trace| == |events| + 1 && StartLaw(c, trace[0], wInit)
    && forall i :: 0 <= i < |events| ==> StepLaw(c, limit, trace[i], events[i], trace[i + 1])
  }

  lemma {:induction false} LawsKeepInv(c: Config, limit: Option<nat>, trace: seq<State>, events: seq<Event>,
                                       wInit: nat, i: nat)
    requires LawfulRun(c, limit, trace, events, wInit) && i <= |events|
    ensures Inv(c, trace[i])
  {
    if i == 0 {
      assert trace[0].inFlight.Keys == Between(-1, 0);
    } else {
      LawsKeepInv(c, limit, trace, events, wInit, i - 1);
      StepIsLaw(c, limit, trace[i - 1], events[i - 1], trace[i]);
      StepKeepsInv(c, limit, trace[i - 1], events[i - 1]);
    }
  }

  /** The runs of the DCTCP machine are exactly the runs whose every step obeys its law. */
  lemma RunIsLawful(c: Config, limit: Option<nat>, trace: seq<State>, events: seq<Event>, wInit: nat)
    ensures Run(c, limit, trace, events) && FromStart(c, trace, wInit)
            <==> LawfulRun(c, limit, trace, events, wInit)
  {
    if Run(c, limit, trace, events) && FromStart(c, trace, wInit) {
      forall i | 0 <= i < |events|
        ensures StepLaw(c, limit, trace[i], events[i], trace[i + 1])
      {
        RunKeepsInv(c, limit, trace, events, wInit, i);
        StepIsLaw(c, limit, trace[i], events[i], trace[i + 1]);
      }
    }
    if LawfulRun(c, limit, trace, events, wInit) {
      forall i | 0 <= i < |events|
        ensures Enabled(limit, trace[i], events[i]) && trace[i + 1] == Apply(c, trace[i], events[i])
      {
        LawsKeepInv(c, limit, trace, events, wInit, i);
        StepIsLaw(c, limit, trace[i], events[i], trace[i + 1]);
      }
    }
  }

  // ---- one update per window of acknowledgements ----

  /** The acknowledgements that the updates among the first n events waited for: a window each. */
  function Awaited(trace: seq<State>, events: seq<Event>, n: nat): int
    requires n <= |events| < |trace|
  {
    if n == 0 then 0
    else Awaited(trace, events, n - 1) + (if Updates(trace[n - 1], events[n - 1]) then trace[n - 1].w.Floor else 0)
  }

  lemma StepAwaits(c: Config, limit: Option<nat>, s: State, e: Event)
    requires c.Valid() && Inv(c, s) && Enabled(limit, s, e)
    ensures var s' := Apply(c, s, e);
            && (Updates(s, e) ==> s'.lastUpdateSeq == s'.cumAcked >= s.lastUpdateSeq + s.w.Floor)
            && (!Updates(s, e) ==> s'.lastUpdateSeq == s.lastUpdateSeq)
  {
  }

  /** An accepted ACK updates the window exactly when a whole window of acknowledgements has
      come in since the last update. */
  lemma UpdatesIff(c: Config, limit: Option<nat>, s: State, e: Event)
    requires c.Valid() && Inv(c, s) && Enabled(limit, s, e)
    ensures Updates(s, e) <==> e.Ack? && e.ackSeq > s.cumAcked && e.ackSeq >= s.lastUpdateSeq + s.w.Floor
  {
    if e.Ack? {
      AckAdvances(c, s, e.ackSeq, e.ecn);
    }
  }

  /** Over any run the windows that updates waited for sum to at most cum_acked + 1. */
  lemma {:induction false} RunBudget(c: Config, limit: Option<nat>, trace: seq<State>, events: seq<Event>,
                                     wInit: nat, n: nat)
    requires Run(c, limit, trace, events) && FromStart(c, trace, wInit) && n <= |events|
    ensures Awaited(trace, events, n) <= trace[n].lastUpdateSeq + 1 <= trace[n].cumAcked + 1
  {
    RunKeepsInv(c, limit, trace, events, wInit, n);
    if n > 0 {
      RunBudget(c, limit, trace, events, wInit, n - 1);
      RunKeepsInv(c, limit, trace, events, wInit, n - 1);
      StepAwaits(c, limit, trace[n - 1], events[n - 1]);
    }
  }

  lemma MarkedStep(c: Config, s: State, ackSeq: int, ecn: bool, s': State)
    requires AckLaw(c, s, ackSeq, ecn, s') && ackSeq > s.cumAcked && ackSeq >= s.lastUpdateSeq + s.w.Floor
    requires s.marked > 0 || ecn
    ensures CutLaw(s.w, s'.alpha, s'.w)
    ensures AlphaLaw(c.g, s.alpha, s.marked + (if ecn then 1 else 0), s.total + 1, s'.alpha)
  {
    CutToOneIff(c, s.w, s'.alpha, s'.w);
  }

  /** In every run an update with a mark in its window leaves w' > 1 with 2 (w - w') = w alpha',
      or exactly 1; the latter if and only if w (1 - alpha' / 2) <= 1. */
  lemma MarkedCut(c: Config, limit: Option<nat>, trace: seq<State>, events: seq<Event>, wInit: nat, n: nat)
    requires Run(c, limit, trace, events) && FromStart(c, trace, wInit) && n < |events|
    requires Updates(trace[n], events[n]) && (trace[n].marked > 0 || events[n].ecn)
    ensures CutLaw(trace[n].w, trace[n + 1].alpha, trace[n + 1].w)
    ensures AlphaLaw(c.g, trace[n].alpha, trace[n].marked + (if events[n].ecn then 1 else 0), trace[n].total + 1,
                     trace[n + 1].alpha)
  {
    RunKeepsInv(c, limit, trace, events, wInit, n);
    UpdatesIff(c, limit, trace[n], events[n]);
    AckIsLaw(c, trace[n], events[n].ackSeq, events[n].ecn, trace[n + 1]);
    MarkedStep(c, trace[n], events[n].ackSeq, events[n].ecn, trace[n + 1]);
  }
}
