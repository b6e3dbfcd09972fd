/** What the DCTCP sender keeps over every run, and where its alpha comes from. */
module Dctcp {
  import opened Common
  import opened Average
  import opened DctcpSpec

  predicate Inv(c: Config, s: State) {
    && -1 <= s.lastUpdateSeq <= s.cumAcked < s.nextSeq
    && s.inFlight.Keys == Between(s.cumAcked, s.nextSeq)
    && s.nextSeq - 1 - s.cumAcked <= c.wMax
    && W_MIN <= s.w <= c.WMax()
    && 0.0 <= s.alpha <= 1.0
    && s.marked <= s.total <= s.cumAcked - s.lastUpdateSeq
    && (forall k :: k in s.inFlight ==> s.inFlight[k].rtx == 0)
  }

  lemma FlightSize(c: Config, s: State)
    requires Inv(c, s)
    ensures |s.inFlight| == s.nextSeq - 1 - s.cumAcked
    ensures s.inFlight == map[] <==> s.nextSeq == s.cumAcked + 1
  {
    BetweenSize(s.cumAcked, s.nextSeq);
    assert |s.inFlight| == |s.inFlight.Keys|;
    if s.nextSeq > s.cumAcked + 1 {
      assert s.cumAcked + 1 in s.inFlight;
    } else {
      assert s.inFlight.Keys == {};
    }
  }

  lemma FractionBounds(marked: nat, total: nat)
    requires marked <= total && total > 0
    ensures 0.0 <= Fraction(marked, total) <= 1.0
    ensures marked > 0 ==> Fraction(marked, total) > 0.0
  {
    var f := Fraction(marked, total);
    assert f * total as real == marked as real;
  }

  lemma EwmaBounds(g: real, alpha: real, f: real, cap: real)
    requires 0.0 <= g <= 1.0 && 0.0 <= alpha <= cap && 0.0 <= f <= 1.0
    ensures 0.0 <= Ewma(g, alpha, f) <= (1.0 - g) * cap + g
  {
    assert 0.0 <= g * f <= g;
    assert 0.0 <= (1.0 - g) * alpha <= (1.0 - g) * cap;
  }

  lemma PartOf(w: real, a: real)
    requires w > 0.0 && 0.0 <= a <= 1.0
    ensures 0.0 <= Share(w, a) <= w
    ensures a < 1.0 ==> Share(w, a) < w
  {
  }

  /** The source writes the cut as w * (1 - alpha / 2). */
  lemma HalfCut(w: real, a: real)
    ensures w * (1.0 - a / 2.0) == w - Share(w, a) / 2.0
  {
  }

  lemma ShareCut(w: real, share: real)
    requires w >= W_MIN && 0.0 <= share <= w
    ensures W_MIN <= Cut(w, share) <= w && Cut(w, share) >= w / 2.0
    ensures share < w ==> Cut(w, share) > w / 2.0
  {
  }

  lemma CutBounds(w: real, alpha: real)
    requires w >= W_MIN && 0.0 <= alpha <= 1.0
    ensures W_MIN <= Cut(w, Share(w, alpha)) <= w
    ensures alpha < 1.0 ==> Cut(w, Share(w, alpha)) > w / 2.0
  {
    PartOf(w, alpha);
    ShareCut(w, Share(w, alpha));
  }

  lemma UpdateKeepsInv(c: Config, s: State)
    requires c.Valid() && Inv(c, s)
    ensures Inv(c, MaybeUpdate(c, s))
  {
    if GateOpen(s) {
      FractionBounds(s.marked, s.total);
      EwmaBounds(c.g, s.alpha, Fraction(s.marked, s.total), 1.0);
      var alpha := Ewma(c.g, s.alpha, Fraction(s.marked, s.total));
      CutBounds(s.w, alpha);
    }
  }

  lemma AtGateInv(c: Config, s: State, ackSeq: nat, ecn: bool)
    requires Inv(c, s) && s.cumAcked < ackSeq < s.nextSeq
    ensures Inv(c, AtGate(s, ackSeq, ecn))
  {
    assert Advance(s, ackSeq).inFlight.Keys == Between(ackSeq, s.nextSeq);
  }

  /** An accepted ACK always advances the cumulative point, is counted before the gate is
      tried, and so never finds an empty window there. */
  lemma AckAdvances(c: Config, s: State, ackSeq: nat, ecn: bool)
    requires Inv(c, s) && ackSeq < s.nextSeq
    ensures Stale(s, ackSeq) <==> ackSeq !in s.inFlight
    ensures Stale(s, ackSeq) <==> ackSeq <= s.cumAcked
    ensures AtGate(s, ackSeq, ecn).total > 0
  {
  }

  lemma SendKeepsInv(c: Config, s: State, limit: Option<nat>, ts: int)
    requires Inv(c, s) && CanSend(s, limit)
    ensures Inv(c, SendNext(s, ts))
  {
    FlightSize(c, s);
    assert s.w.Floor <= c.wMax by {
      assert s.w <= c.wMax as real;
    }
    assert s.nextSeq !in s.inFlight;
    assert SendNext(s, ts).inFlight == s.inFlight[s.nextSeq := Sent(ts, 0)];
    assert SendNext(s, ts).inFlight.Keys == Between(s.cumAcked, s.nextSeq + 1);
  }

  lemma StepKeepsInv(c: Config, limit: Option<nat>, s: State, e: Event)
    requires c.Valid() && Inv(c, s) && Enabled(limit, s, e)
    ensures Inv(c, Apply(c, s, e))
    ensures Apply(c, s, e).cumAcked == if Accepts(s, e) then e.ackSeq else s.cumAcked
    ensures Accepts(s, e) ==> s.cumAcked < e.ackSeq
    ensures Apply(c, s, e).nextSeq == if e.Send? then s.nextSeq + 1 else s.nextSeq
  {
    match e
    case Send(ts) => SendKeepsInv(c, s, limit, ts);
    case Ack(ackSeq, ecn) =>
      AckAdvances(c, s, ackSeq, ecn);
      if !Stale(s, ackSeq) {
        AtGateInv(c, s, ackSeq, ecn);
        UpdateKeepsInv(c, AtGate(s, ackSeq, ecn));
      }
    case Timer(nowUs, clock) =>
      assert Timeout(s, clock).inFlight.Keys == s.inFlight.Keys;
  }

  /** Conservation, window range and window bookkeeping over whole runs. */
  lemma {:induction false} RunKeepsInv(c: Config, limit: Option<nat>, trace: seq<State>, events: seq<Event>,
                                       wInit: nat, i: nat)
    requires Run(c, limit, trace, events) && FromStart(c, trace, wInit) && i <= |events|
    ensures Inv(c, trace[i])
  {
    if i == 0 {
      assert trace[0].inFlight.Keys == Between(-1, 0);
    } else {
      RunKeepsInv(c, limit, trace, events, wInit, i - 1);
      StepKeepsInv(c, limit, trace[i - 1], events[i - 1]);
    }
  }

  lemma {:induction false} CumulativeGrows(c: Config, limit: Option<nat>, trace: seq<State>, events: seq<Event>,
                                           wInit: nat, i: nat, j: nat)
    requires Run(c, limit, trace, events) && FromStart(c, trace, wInit) && i <= j <= |events|
    ensures trace[i].cumAcked <= trace[j].cumAcked
  {
    if i < j {
      CumulativeGrows(c, limit, trace, events, wInit, i, j - 1);
      RunKeepsInv(c, limit, trace, events, wInit, j - 1);
      StepKeepsInv(c, limit, trace[j - 1], events[j - 1]);
    }
  }

  /** Accepted ACKs carry strictly increasing sequence numbers, so none is counted twice. */
  lemma AcceptedIncrease(c: Config, limit: Option<nat>, trace: seq<State>, events: seq<Event>,
                         wInit: nat, i: nat, j: nat)
    requires Run(c, limit, trace, events) && FromStart(c, trace, wInit)
    requires i < j < |events| && Accepts(trace[i], events[i]) && Accepts(trace[j], events[j])
    ensures events[i].ackSeq < events[j].ackSeq
  {
    RunKeepsInv(c, limit, trace, events, wInit, i);
    StepKeepsInv(c, limit, trace[i], events[i]);
    CumulativeGrows(c, limit, trace, events, wInit, i + 1, j);
    RunKeepsInv(c, limit, trace, events, wInit, j);
    StepKeepsInv(c, limit, trace[j], events[j]);
  }

  /** The fill loop; packet k leaves at `clock(k)`. */
  function Fill(c: Config, s: State, limit: Option<nat>, clock: int -> int): (r: State)
    requires Inv(c, s)
    ensures Inv(c, r) && !CanSend(r, limit)
    decreases s.w.Floor - (s.nextSeq - 1 - s.cumAcked)
  {
    FlightSize(c, s);
    if CanSend(s, limit) then
      SendKeepsInv(c, s, limit, clock(s.nextSeq));
      Fill(c, SendNext(s, clock(s.nextSeq)), limit, clock)
    else s
  }

  lemma FillStep(c: Config, s: State, limit: Option<nat>, clock: int -> int)
    requires Inv(c, s) && CanSend(s, limit)
    ensures var s' := SendNext(s, clock(s.nextSeq));
            && Inv(c, s') && Fill(c, s', limit, clock) == Fill(c, s, limit, clock)
            && s'.nextSeq - 1 - s'.cumAcked <= s.w.Floor
  {
    FlightSize(c, s);
    SendKeepsInv(c, s, limit, clock(s.nextSeq));
  }

  /** r is s with packets sent on top of it, packet k at `clock(k)`. */
  predicate SentOnTop(s: State, r: State, clock: int -> int) {
    && r == s.(nextSeq := r.nextSeq, inFlight := r.inFlight) && r.nextSeq >= s.nextSeq
    && (forall k :: k in s.inFlight ==> k in r.inFlight && r.inFlight[k] == s.inFlight[k])
    && (forall k :: k in r.inFlight && k !in s.inFlight ==> r.inFlight[k] == Sent(clock(k), 0))
  }

  lemma SendIsOnTop(c: Config, s: State, r: State, clock: int -> int)
    requires Inv(c, s) && SentOnTop(SendNext(s, clock(s.nextSeq)), r, clock)
    ensures SentOnTop(s, r, clock)
  {
    assert s.nextSeq !in s.inFlight;
  }

  /** In closed form: the old flight as it was, and new packets up to the window or the
      limit, whichever binds first. */
  lemma {:induction false} FillAdds(c: Config, s: State, limit: Option<nat>, clock: int -> int)
    requires Inv(c, s)
    ensures SentOnTop(s, Fill(c, s, limit, clock), clock)
    ensures |Fill(c, s, limit, clock).inFlight| >= s.w.Floor
            || (limit.Some? && Fill(c, s, limit, clock).nextSeq >= limit.value)
    decreases s.w.Floor - (s.nextSeq - 1 - s.cumAcked)
  {
    FlightSize(c, s);
    if CanSend(s, limit) {
      FillStep(c, s, limit, clock);
      FillAdds(c, SendNext(s, clock(s.nextSeq)), limit, clock);
      SendIsOnTop(c, s, Fill(c, s, limit, clock), clock);
    }
  }

  // ---- every accepted ACK is counted in exactly one window ----

  datatype Tally = Tally(marked: nat, total: nat)

  function Fractions(closed: seq<Tally>): (fs: seq<real>)
    requires forall i :: 0 <= i < |closed| ==> closed[i].total > 0
    ensures |fs| == |closed|
    ensures forall i :: 0 <= i < |closed| ==> fs[i] == Fraction(closed[i].marked, closed[i].total)
  {
    seq(|closed|, i requires 0 <= i < |closed| => Fraction(closed[i].marked, closed[i].total))
  }

  /** The windows closed so far, after one more event. */
  function CloseNext(ts: seq<Tally>, s: State, e: Event): seq<Tally> {
    if Updates(s, e) then ts + [Tally(AtGate(s, e.ackSeq, e.ecn).marked, AtGate(s, e.ackSeq, e.ecn).total)] else ts
  }

  /** The windows that updates closed among the first n events, in order. */
  function Closed(trace: seq<State>, events: seq<Event>, n: nat): (ts: seq<Tally>)
    requires n <= |events| < |trace|
    ensures forall i :: 0 <= i < |ts| ==> ts[i].total > 0
  {
    if n == 0 then [] else CloseNext(Closed(trace, events, n - 1), trace[n - 1], events[n - 1])
  }

  function Sum(ts: seq<Tally>): Tally {
    if ts == [] then Tally(0, 0)
    else
      var front, last := Sum(ts[..|ts| - 1]), ts[|ts| - 1];
      Tally(front.marked + last.marked, front.total + last.total)
  }

  function AcceptNext(t: Tally, s: State, e: Event): Tally {
    if Accepts(s, e) then Tally(t.marked + (if e.ecn then 1 else 0), t.total + 1) else t
  }

  /** Accepted ACKs, and marked ones, among the first n events. */
  function Accepted(trace: seq<State>, events: seq<Event>, n: nat): Tally
    requires n <= |events| < |trace|
  {
    if n == 0 then Tally(0, 0) else AcceptNext(Accepted(trace, events, n - 1), trace[n - 1], events[n - 1])
  }

  lemma StepCounts(c: Config, s: State, e: Event)
    ensures var s' := Apply(c, s, e);
            && (!Accepts(s, e) ==> s'.total == s.total && s'.marked == s.marked)
            && (Accepts(s, e) && !Updates(s, e) ==>
                  s'.total == s.total + 1 && s'.marked == s.marked + (if e.ecn then 1 else 0))
            && (Updates(s, e) ==>
                  && s'.total == 0 && s'.marked == 0
                  && AtGate(s, e.ackSeq, e.ecn).total == s.total + 1
                  && AtGate(s, e.ackSeq, e.ecn).marked == s.marked + (if e.ecn then 1 else 0))
  {
  }

  lemma SumNext(ts: seq<Tally>, t: Tally)
    ensures Sum(ts + [t]) == Tally(Sum(ts).marked + t.marked, Sum(ts).total + t.total)
  {
    assert (ts + [t])[..|ts|] == ts;
  }

  /** The accepted ACKs are those of the closed windows and of the open one. */
  predicate Balanced(accepted: Tally, closed: Tally, s: State) {
    accepted == Tally(closed.marked + s.marked, closed.total + s.total)
  }

  lemma StepBalances(c: Config, s: State, e: Event, s': State, accepted: Tally, ts: seq<Tally>)
    requires s' == Apply(c, s, e) && Balanced(accepted, Sum(ts), s)
    ensures Balanced(AcceptNext(accepted, s, e), Sum(CloseNext(ts, s, e)), s')
  {
    StepCounts(c, s, e);
    if Updates(s, e) {
      SumNext(ts, Tally(AtGate(s, e.ackSeq, e.ecn).marked, AtGate(s, e.ackSeq, e.ecn).total));
    }
  }

  lemma {:induction false} CountedOnce(c: Config, limit: Option<nat>, trace: seq<State>, events: seq<Event>,
                                       wInit: nat, n: nat)
    requires Run(c, limit, trace, events) && FromStart(c, trace, wInit) && n <= |events|
    ensures Balanced(Accepted(trace, events, n), Sum(Closed(trace, events, n)), trace[n])
  {
    if n > 0 {
      CountedOnce(c, limit, trace, events, wInit, n - 1);
      StepBalances(c, trace[n - 1], events[n - 1], trace[n],
                   Accepted(trace, events, n - 1), Closed(trace, events, n - 1));
    }
  }

  // ---- alpha is a weighted sum of the mark fractions of the closed windows ----

  lemma StepAlpha(c: Config, s: State, e: Event)
    ensures Apply(c, s, e).alpha
            == if Updates(s, e)
               then Ewma(c.g, s.alpha, Fraction(AtGate(s, e.ackSeq, e.ecn).marked, AtGate(s, e.ackSeq, e.ecn).total))
               else s.alpha
  {
  }

  /** After any run, alpha is the exponentially weighted sum of the mark fractions of the
      windows closed so far. */
  lemma {:induction false} AlphaIsWeightedSum(c: Config, limit: Option<nat>, trace: seq<State>,
                                              events: seq<Event>, wInit: nat, n: nat)
    requires Run(c, limit, trace, events) && FromStart(c, trace, wInit) && n <= |events|
    ensures var fs := Fractions(Closed(trace, events, n));
            trace[n].alpha == Weighted(c.g, fs, |fs|, |fs|)
  {
    if n > 0 {
      AlphaIsWeightedSum(c, limit, trace, events, wInit, n - 1);
      StepAlpha(c, trace[n - 1], events[n - 1]);
      var fs, fs' := Fractions(Closed(trace, events, n - 1)), Fractions(Closed(trace, events, n));
      if Updates(trace[n - 1], events[n - 1]) {
        WeightedNext(c.g, fs, fs'[|fs|]);
        assert fs' == fs + [fs'[|fs|]];
      } else {
        assert fs' == fs;
      }
    }
  }

  lemma {:induction false} PowBounds(r: real, n: nat)
    requires 0.0 < r <= 1.0
    ensures 0.0 < Pow(r, n) <= 1.0
  {
    if n > 0 {
      PowBounds(r, n - 1);
      PartOf(Pow(r, n - 1), r);
    }
  }

  lemma CapStep(g: real, alpha: real, f: real, p: real, p': real)
    requires 0.0 <= g <= 1.0 && 0.0 <= alpha <= 1.0 - p && 0.0 <= f <= 1.0 && p' == (1.0 - g) * p
    ensures 0.0 <= Ewma(g, alpha, f) <= 1.0 - p'
  {
    EwmaBounds(g, alpha, f, 1.0 - p);
    assert (1.0 - g) * (1.0 - p) + g == 1.0 - p';
  }

  lemma StepCap(c: Config, limit: Option<nat>, s: State, e: Event, p: real, p': real)
    requires c.Valid() && Inv(c, s) && Enabled(limit, s, e) && Updates(s, e)
    requires s.alpha <= 1.0 - p && p' == (1.0 - c.g) * p
    ensures 0.0 <= Apply(c, s, e).alpha <= 1.0 - p'
  {
    AckAdvances(c, s, e.ackSeq, e.ecn);
    AtGateInv(c, s, e.ackSeq, e.ecn);
    var a := AtGate(s, e.ackSeq, e.ecn);
    FractionBounds(a.marked, a.total);
    StepAlpha(c, s, e);
    CapStep(c.g, s.alpha, Fraction(a.marked, a.total), p, p');
  }

  lemma StepCapped(c: Config, limit: Option<nat>, s: State, e: Event, s': State, n: nat)
    requires c.Valid() && Inv(c, s) && Enabled(limit, s, e) && s' == Apply(c, s, e)
    requires s.alpha <= 1.0 - Pow(1.0 - c.g, n)
    ensures 0.0 <= s'.alpha <= 1.0 - Pow(1.0 - c.g, if Updates(s, e) then n + 1 else n)
  {
    if Updates(s, e) {
      StepCap(c, limit, s, e, Pow(1.0 - c.g, n), Pow(1.0 - c.g, n + 1));
    } else {
      StepAlpha(c, s, e);
    }
  }

  /** After n updates alpha is at most 1 - (1 - g)^n. */
  lemma {:induction false} AlphaIsCapped(c: Config, limit: Option<nat>, trace: seq<State>, events: seq<Event>,
                                         wInit: nat, n: nat)
    requires Run(c, limit, trace, events) && FromStart(c, trace, wInit) && n <= |events|
    ensures 0.0 <= trace[n].alpha <= 1.0 - Pow(1.0 - c.g, |Closed(trace, events, n)|)
  {
    if n > 0 {
      AlphaIsCapped(c, limit, trace, events, wInit, n - 1);
      RunKeepsInv(c, limit, trace, events, wInit, n - 1);
      StepCapped(c, limit, trace[n - 1], events[n - 1], trace[n], |Closed(trace, events, n - 1)|);
    }
  }

  /** A congested window is cut, but with g < 1 more than half of it is kept; an unmarked
      one grows by a packet up to the cap. */
  lemma UpdateMovesWindow(c: Config, limit: Option<nat>, trace: seq<State>, events: seq<Event>, wInit: nat, n: nat)
    requires Run(c, limit, trace, events) && FromStart(c, trace, wInit) && n < |events|
    requires Updates(trace[n], events[n]) && c.g < 1.0
    ensures var closed := Closed(trace, events, n + 1);
            if closed[|closed| - 1].marked > 0 then trace[n].w / 2.0 < trace[n + 1].w <= trace[n].w
            else trace[n + 1].w == Min(c.WMax(), trace[n].w + 1.0)
  {
    RunKeepsInv(c, limit, trace, events, wInit, n);
    AlphaIsCapped(c, limit, trace, events, wInit, n + 1);
    PowBounds(1.0 - c.g, |Closed(trace, events, n + 1)|);
    CutBounds(trace[n].w, trace[n + 1].alpha);
  }

  // ---- progress ----

  lemma ProgressWithLimit(c: Config, limit: nat, s: State, e: Event)
    requires c.Valid() && Inv(c, s) && s.nextSeq <= limit && Enabled(Some(limit), s, e)
    ensures var s' := Apply(c, s, e);
            && s'.nextSeq <= limit
            && (Accepts(s, e) ==> limit - 1 - s'.cumAcked < limit - 1 - s.cumAcked)
            && (e.Timer? ==> s'.cumAcked == s.cumAcked && s'.inFlight.Keys == s.inFlight.Keys)
    ensures s.nextSeq >= limit && s.inFlight == map[] <==> s.nextSeq == limit && s.cumAcked + 1 == limit
    ensures s.inFlight != map[] || CanSend(s, Some(limit)) || s.nextSeq >= limit
  {
    FlightSize(c, s);
    StepKeepsInv(c, Some(limit), s, e);
    if e.Timer? {
      assert Timeout(s, e.clock).inFlight.Keys == s.inFlight.Keys;
    }
  }
}
