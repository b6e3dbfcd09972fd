/** Sums over the updates of a whole run, and where the window of a run comes from. */
module Budgets {
  import opened Average
  import opened Common
  import opened WireFormat
  import opened Utilization
  import opened Window
  import opened SenderSpec
  import opened Conservation
  import opened Epochs

  function GateState(v: Variant, c: Config, s: State, e: Event): State
    requires Updates(v, c, s, e)
  {
    AtGate(v, c, s, e.ackSeq, e.hops)
  }

  /** The acknowledgements that the first n events' updates waited for. */
  function Awaited(v: Variant, c: Config, trace: seq<State>, events: seq<Event>, n: nat): int
    requires n <= |events| < |trace|
  {
    if n == 0 then 0
    else Awaited(v, c, trace, events, n - 1)
         + (if Updates(v, c, trace[n - 1], events[n - 1])
            then GatePackets(v, GateState(v, c, trace[n - 1], events[n - 1])) else 0)
  }

  function UpdateCount(v: Variant, c: Config, trace: seq<State>, events: seq<Event>, n: nat): nat
    requires n <= |events| < |trace|
  {
    if n == 0 then 0
    else UpdateCount(v, c, trace, events, n - 1) + (if Updates(v, c, trace[n - 1], events[n - 1]) then 1 else 0)
  }

  /** Shrinking updates and timeouts. */
  function Cuts(v: Variant, c: Config, trace: seq<State>, events: seq<Event>, n: nat): nat
    requires n <= |events| < |trace|
  {
    if n == 0 then 0
    else Cuts(v, c, trace, events, n - 1)
         + (if TimesOut(c, trace[n - 1], events[n - 1])
               || (Updates(v, c, trace[n - 1], events[n - 1]) && trace[n].wRef < trace[n - 1].wRef) then 1 else 0)
  }

  lemma StepBudget(v: Variant, c: Config, limit: Option<nat>, s: State, e: Event)
    requires c.Valid() && Inv(c, s) && Enabled(limit, s, e)
    ensures var s' := Apply(v, c, s, e);
            && (Updates(v, c, s, e) ==>
                  && s'.lastUpdateSeq >= s.lastUpdateSeq + GatePackets(v, GateState(v, c, s, e))
                  && s'.lastUpdateTime >= s.lastUpdateTime + c.baseRtt
                  && GatePackets(v, GateState(v, c, s, e)) >= 1)
            && (!Updates(v, c, s, e) ==> s'.lastUpdateSeq == s.lastUpdateSeq && s'.lastUpdateTime == s.lastUpdateTime)
            && s'.incarnation == s.incarnation
                 + (if TimesOut(c, s, e) || (Updates(v, c, s, e) && s'.wRef < s.wRef) then 1 else 0)
  {
    if Updates(v, c, s, e) {
      UpdateSets(v, c, limit, s, e);
    }
  }

  /** Over any run the updates wait for at most one acknowledgement per packet: the sum of
      `int(max(gate, 1))` over the updates is at most cum_acked + 1. */
  lemma {:induction false} RunBudget(v: Variant, c: Config, limit: Option<nat>, trace: seq<State>,
                                     events: seq<Event>, wInit: nat, t0: real, n: nat)
    requires c.Valid() && Run(v, c, limit, trace, events) && FromStart(c, trace, wInit, t0) && n <= |events|
    ensures UpdateCount(v, c, trace, events, n) <= Awaited(v, c, trace, events, n)
            <= trace[n].lastUpdateSeq + 1 <= trace[n].cumAcked + 1
  {
    RunKeepsInv(v, c, limit, trace, events, wInit, t0, n);
    if n > 0 {
      RunBudget(v, c, limit, trace, events, wInit, t0, n - 1);
      RunKeepsInv(v, c, limit, trace, events, wInit, t0, n - 1);
      StepBudget(v, c, limit, trace[n - 1], events[n - 1]);
    }
  }

  /** A clock that only moves at counted ticks, and by at least b at each. */
  predicate Ticks(t: real, n: nat, t': real, n': nat, b: real) {
    (n' == n && t' == t) || (n' == n + 1 && t' >= t + b)
  }

  lemma {:induction false} TicksAddUp(times: seq<real>, counts: seq<nat>, b: real, n: nat)
    requires n < |times| == |counts| && counts[0] == 0
    requires forall k :: 0 <= k < n ==> Ticks(times[k], counts[k], times[k + 1], counts[k + 1], b)
    ensures Ramp(times[0], b, counts[n]) <= times[n]
  {
    if n > 0 {
      TicksAddUp(times, counts, b, n - 1);
      assert Ticks(times[n - 1], counts[n - 1], times[n - 1 + 1], counts[n - 1 + 1], b);
    }
  }

  lemma StepTicks(v: Variant, c: Config, limit: Option<nat>, s: State, e: Event, n: nat)
    requires c.Valid() && Inv(c, s) && Enabled(limit, s, e)
    ensures Ticks(s.lastUpdateTime, n, Apply(v, c, s, e).lastUpdateTime,
                  n + (if Updates(v, c, s, e) then 1 else 0), c.baseRtt)
  {
    StepBudget(v, c, limit, s, e);
  }

  /** Updates are at least a base RTT apart: n of them take the clock to t0 + n base RTTs. */
  lemma {:induction false} UpdatesApart(v: Variant, c: Config, limit: Option<nat>, trace: seq<State>,
                                        events: seq<Event>, wInit: nat, t0: real, n: nat)
    requires c.Valid() && Run(v, c, limit, trace, events) && FromStart(c, trace, wInit, t0) && n <= |events|
    ensures Ramp(t0, c.baseRtt, UpdateCount(v, c, trace, events, n)) <= trace[n].lastUpdateTime
  {
    var times := seq(n + 1, i requires 0 <= i <= n => trace[i].lastUpdateTime);
    var counts := seq(n + 1, i requires 0 <= i <= n => UpdateCount(v, c, trace, events, i));
    forall k | 0 <= k < n
      ensures Ticks(times[k], counts[k], times[k + 1], counts[k + 1], c.baseRtt)
    {
      RunKeepsInv(v, c, limit, trace, events, wInit, t0, k);
      StepTicks(v, c, limit, trace[k], events[k], counts[k]);
    }
    TicksAddUp(times, counts, c.baseRtt, n);
  }

  /** The incarnation counts the cuts. */
  lemma {:induction false} IncarnationCountsCuts(v: Variant, c: Config, limit: Option<nat>, trace: seq<State>,
                                                 events: seq<Event>, wInit: nat, t0: real, n: nat)
    requires c.Valid() && Run(v, c, limit, trace, events) && FromStart(c, trace, wInit, t0) && n <= |events|
    ensures trace[n].incarnation == Cuts(v, c, trace, events, n)
  {
    if n > 0 {
      IncarnationCountsCuts(v, c, limit, trace, events, wInit, t0, n - 1);
      RunKeepsInv(v, c, limit, trace, events, wInit, t0, n - 1);
      StepBudget(v, c, limit, trace[n - 1], events[n - 1]);
    }
  }

  // ---- the window of a V1 run is the iterated update ----

  /** The gains so far, after one more event. */
  function GainsNext(c: Config, gains: seq<real>, s: State, e: Event): seq<real>
    requires c.Valid()
  {
    if Updates(V1, c, s, e) then gains + [Gain(c, GateState(V1, c, s, e).uSmoothed)] else gains
  }

  /** The gain of each update among the first n events. */
  function UpdateGains(c: Config, trace: seq<State>, events: seq<Event>, n: nat): seq<real>
    requires c.Valid() && n <= |events| < |trace|
  {
    if n == 0 then [] else GainsNext(c, UpdateGains(c, trace, events, n - 1), trace[n - 1], events[n - 1])
  }

  lemma StepWindow(c: Config, limit: Option<nat>, s: State, e: Event)
    requires c.Valid() && Enabled(limit, s, e) && !TimesOut(c, s, e)
    ensures Apply(V1, c, s, e).wRef
            == if Updates(V1, c, s, e) then Update(c, s.wRef, Gain(c, GateState(V1, c, s, e).uSmoothed)) else s.wRef
  {
    if Updates(V1, c, s, e) {
      NextWindowIsUpdate(c, s.wRef, GateState(V1, c, s, e).uSmoothed);
    }
  }

  predicate Iterated(c: Config, w0: real, gains: seq<real>, w: real)
    requires c.Valid()
  {
    w == After(c, w0, gains) && Positive(gains)
  }

  lemma IteratesOnce(c: Config, w0: real, gains: seq<real>, w: real, g: real)
    requires c.Valid() && Iterated(c, w0, gains, w) && g > 0.0
    ensures Iterated(c, w0, gains + [g], Update(c, w, g))
  {
    assert (gains + [g])[..|gains|] == gains;
  }

  lemma StepIterates(c: Config, limit: Option<nat>, s: State, e: Event, s': State, w0: real, gains: seq<real>)
    requires c.Valid() && Enabled(limit, s, e) && !TimesOut(c, s, e) && s' == Apply(V1, c, s, e)
    requires Iterated(c, w0, gains, s.wRef)
    ensures Iterated(c, w0, GainsNext(c, gains, s, e), s'.wRef)
  {
    StepWindow(c, limit, s, e);
    if Updates(V1, c, s, e) {
      IteratesOnce(c, w0, gains, s.wRef, Gain(c, GateState(V1, c, s, e).uSmoothed));
    }
  }

  lemma {:induction false} WindowIsIterated(c: Config, limit: Option<nat>, trace: seq<State>, events: seq<Event>,
                                            wInit: nat, t0: real, n: nat)
    requires c.Valid() && Run(V1, c, limit, trace, events) && FromStart(c, trace, wInit, t0) && n <= |events|
    requires forall k :: 0 <= k < n ==> !TimesOut(c, trace[k], events[k])
    ensures Iterated(c, wInit as real, UpdateGains(c, trace, events, n), trace[n].wRef)
  {
    if n > 0 {
      WindowIsIterated(c, limit, trace, events, wInit, t0, n - 1);
      StepIterates(c, limit, trace[n - 1], events[n - 1], trace[n], wInit as real,
                   UpdateGains(c, trace, events, n - 1));
    }
  }

  lemma GapAfter(c: Config, w1: real, w2: real, gains: seq<real>, end1: real, end2: real, bound: real)
    requires c.Valid() && Positive(gains) && end1 == After(c, w1, gains) && end2 == After(c, w2, gains)
    requires bound == ScaledGap(Abs(w1 - w2), gains)
    ensures Abs(end1 - end2) <= bound
  {
    SameGainsContract(c, w1, w2, gains);
  }

  lemma WindowAtEnd(c: Config, limit: Option<nat>, trace: seq<State>, events: seq<Event>, wInit: nat, t0: real,
                    gains: seq<real>)
    requires c.Valid() && Run(V1, c, limit, trace, events) && FromStart(c, trace, wInit, t0)
    requires forall k :: 0 <= k < |events| ==> !TimesOut(c, trace[k], events[k])
    requires gains == UpdateGains(c, trace, events, |events|)
    ensures trace[|events|].wRef == After(c, wInit as real, gains) && Positive(gains)
  {
    WindowIsIterated(c, limit, trace, events, wInit, t0, |events|);
  }

  lemma ConvergeWith(c: Config, limit: Option<nat>, trace: seq<State>, events: seq<Event>, wInit: nat, t0: real,
                     trace': seq<State>, events': seq<Event>, wInit': nat, t0': real, gains: seq<real>, bound: real)
    requires c.Valid() && bound == ScaledGap(Abs(wInit as real - wInit' as real), gains)
    requires Run(V1, c, limit, trace, events) && FromStart(c, trace, wInit, t0)
    requires Run(V1, c, limit, trace', events') && FromStart(c, trace', wInit', t0')
    requires forall k :: 0 <= k < |events| ==> !TimesOut(c, trace[k], events[k])
    requires forall k :: 0 <= k < |events'| ==> !TimesOut(c, trace'[k], events'[k])
    requires gains == UpdateGains(c, trace, events, |events|) && gains == UpdateGains(c, trace', events', |events'|)
    ensures Abs(trace[|events|].wRef - trace'[|events'|].wRef) <= bound
  {
    WindowAtEnd(c, limit, trace, events, wInit, t0, gains);
    WindowAtEnd(c, limit, trace', events', wInit', t0', gains);
    GapAfter(c, wInit as real, wInit' as real, gains, trace[|events|].wRef, trace'[|events'|].wRef, bound);
  }

  /** Two timeout-free V1 senders that update with the same gains end up at most the scaled
      gap of their initial windows apart, however their packets and ACKs interleave. */
  lemma SendersConverge(c: Config, limit: Option<nat>, trace: seq<State>, events: seq<Event>, wInit: nat, t0: real,
                        trace': seq<State>, events': seq<Event>, wInit': nat, t0': real)
    requires c.Valid()
    requires Run(V1, c, limit, trace, events) && FromStart(c, trace, wInit, t0)
    requires Run(V1, c, limit, trace', events') && FromStart(c, trace', wInit', t0')
    requires forall k :: 0 <= k < |events| ==> !TimesOut(c, trace[k], events[k])
    requires forall k :: 0 <= k < |events'| ==> !TimesOut(c, trace'[k], events'[k])
    requires UpdateGains(c, trace, events, |events|) == UpdateGains(c, trace', events', |events'|)
    ensures Abs(trace[|events|].wRef - trace'[|events'|].wRef)
            <= ScaledGap(Abs(wInit as real - wInit' as real), UpdateGains(c, trace, events, |events|))
  {
    var gains := UpdateGains(c, trace, events, |events|);
    ConvergeWith(c, limit, trace, events, wInit, t0, trace', events', wInit', t0', gains,
                 ScaledGap(Abs(wInit as real - wInit' as real), gains));
  }

  // ---- the smoothed utilisation ----

  /** The positive samples read among the first n events, in order. */
  function Samples(v: Variant, c: Config, trace: seq<State>, events: seq<Event>, n: nat): seq<real>
    requires n <= |events| < |trace|
  {
    if n == 0 then []
    else
      var s, e := trace[n - 1], events[n - 1];
      var before := Samples(v, c, trace, events, n - 1);
      if Accepts(s, e) && Reported(e.hops) && Fresh(v, s, e.ackSeq) && Absorb(s.anchors, e.hops, c.baseRtt).0 > 0.0
      then before + [Absorb(s.anchors, e.hops, c.baseRtt).0] else before
  }

  /** After any run the smoothed utilisation is the initial 1 and the samples read, each
      weighted by tau and by a factor 1 - tau for every later sample. */
  lemma {:induction false} SmoothedIsWeightedSum(v: Variant, c: Config, limit: Option<nat>, trace: seq<State>,
                                                 events: seq<Event>, wInit: nat, t0: real, n: nat)
    requires c.Valid() && Run(v, c, limit, trace, events) && FromStart(c, trace, wInit, t0) && n <= |events|
    ensures trace[n].uSmoothed == Smoothed(c.tau, 1.0, Samples(v, c, trace, events, n))
  {
    if n > 0 {
      var s, e := trace[n - 1], events[n - 1];
      SmoothedIsWeightedSum(v, c, limit, trace, events, wInit, t0, n - 1);
      if Accepts(s, e) {
        ReceiveReads(v, c, s, e.ackSeq, e.hops, e.now);
        SmoothedNext(c.tau, 1.0, Samples(v, c, trace, events, n - 1), Absorb(s.anchors, e.hops, c.baseRtt).0);
      }
    }
  }
}
