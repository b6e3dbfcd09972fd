/** What every step of the HPCC senders keeps, timeouts included. */
module Conservation {
  import opened Common
  import opened WireFormat
  import opened Utilization
  import opened Window
  import opened SenderSpec

  /** The packets in flight are exactly those past the cumulative point; there are at most
      w_max of them, the window stays in its range, and no snapshot is a retransmission
      count: the timer clears the map first, so `rtx + 1` is never reached. */
  predicate Inv(c: Config, s: State) {
    && -1 <= s.lastUpdateSeq <= s.cumAcked < s.nextSeq
    && s.inFlight.Keys == Between(s.cumAcked, s.nextSeq)
    && s.nextSeq - 1 - s.cumAcked <= c.wMax
    && W_MIN <= s.w == s.wRef <= c.WMax()
    && (forall k :: k in s.inFlight ==> W_MIN <= s.inFlight[k].wRef <= c.WMax() && s.inFlight[k].rtx == 0)
  }

  lemma FlightSize(c: Config, s: State)
    requires Inv(c, s)
    ensures |s.inFlight| == s.nextSeq - 1 - s.cumAcked
    ensures s.inFlight == map[] <==> s.nextSeq == s.cumAcked + 1
    ensures s.inFlight != map[] ==> MinKey(s.inFlight.Keys) == s.cumAcked + 1
    ensures forall v :: W_MIN <= GateW(v, s) <= c.WMax()
  {
    BetweenSize(s.cumAcked, s.nextSeq);
    assert |s.inFlight| == |s.inFlight.Keys|;
    if s.nextSeq > s.cumAcked + 1 {
      assert s.cumAcked + 1 in s.inFlight;
    } else {
      assert s.inFlight.Keys == {};
    }
  }

  lemma InitInv(c: Config, wInit: nat, now: real)
    requires 1 <= wInit <= c.wMax
    ensures Inv(c, Init(wInit, now))
  {
    assert Init(wInit, now).inFlight.Keys == Between(-1, 0);
  }

  lemma SendKeepsInv(c: Config, s: State, limit: Option<nat>, ts: int)
    requires Inv(c, s) && CanSend(s, limit)
    ensures Inv(c, SendNext(s, ts))
    ensures SendNext(s, ts).inFlight[s.nextSeq] == Entry(ts, s.wRef, s.incarnation, 0)
  {
    FlightSize(c, s);
    FloorBelow(s.w, c.wMax);
    assert s.nextSeq !in s.inFlight;
    var s' := SendNext(s, ts);
    assert s'.inFlight == s.inFlight[s.nextSeq := Entry(ts, s.wRef, s.incarnation, 0)];
    assert s'.inFlight.Keys == Between(s.cumAcked, s.nextSeq + 1);
  }

  lemma FloorBelow(w: real, m: nat)
    requires w <= m as real
    ensures w.Floor <= m
  {
  }

  lemma AdvanceKeepsInv(c: Config, s: State, ackSeq: int)
    requires Inv(c, s) && ackSeq < s.nextSeq
    ensures Inv(c, Advance(s, ackSeq))
    ensures Advance(s, ackSeq).cumAcked == if ackSeq > s.cumAcked then ackSeq else s.cumAcked
  {
    assert Advance(s, ackSeq).inFlight.Keys == Between(Advance(s, ackSeq).cumAcked, s.nextSeq);
  }

  lemma UpdateKeepsInv(v: Variant, c: Config, s: State, now: real)
    requires c.Valid() && Inv(c, s)
    ensures Inv(c, MaybeUpdate(v, c, s, now))
  {
    NextWindowIsUpdate(c, GateW(v, s), s.uSmoothed);
  }

  /** Neither the telemetry nor an update touches the flight, nor an update the anchors. */
  lemma FeedbackKeepsFlight(v: Variant, c: Config, s: State, hops: seq<IntHop>, now: real)
    requires c.Valid() && Reported(hops)
    ensures var r := Smooth(c, s, hops);
            && r.cumAcked == s.cumAcked && r.nextSeq == s.nextSeq && r.inFlight == s.inFlight
            && r.anchors == Absorb(s.anchors, hops, c.baseRtt).1
    ensures var s' := MaybeUpdate(v, c, s, now);
            && s'.cumAcked == s.cumAcked && s'.nextSeq == s.nextSeq && s'.inFlight == s.inFlight
            && s'.anchors == s.anchors && s'.uSmoothed == s.uSmoothed
  {
  }

  lemma ReceiveKeepsInv(v: Variant, c: Config, s: State, ackSeq: nat, hops: seq<IntHop>, now: real)
    requires c.Valid() && Inv(c, s) && ackSeq < s.nextSeq && Reported(hops)
    ensures Inv(c, Receive(v, c, s, ackSeq, hops, now))
    ensures Receive(v, c, s, ackSeq, hops, now).cumAcked == if ackSeq > s.cumAcked then ackSeq else s.cumAcked
    ensures Stale(s, ackSeq) <==> ackSeq <= s.cumAcked
    ensures Stale(s, ackSeq) <==> ackSeq !in s.inFlight
  {
    AdvanceKeepsInv(c, s, ackSeq);
    assert Inv(c, AtGate(v, c, s, ackSeq, hops));
    UpdateKeepsInv(v, c, AtGate(v, c, s, ackSeq, hops), now);
  }

  /** An ACK of a sequence number that was never sent is the one thing that breaks the
      invariant: the cumulative point then overtakes the sender. */
  lemma AckKeepsInvIff(v: Variant, c: Config, s: State, ackSeq: nat, hops: seq<IntHop>, now: real)
    requires c.Valid() && Inv(c, s) && Reported(hops)
    ensures Inv(c, Receive(v, c, s, ackSeq, hops, now)) <==> ackSeq < s.nextSeq
  {
    if ackSeq < s.nextSeq {
      ReceiveKeepsInv(v, c, s, ackSeq, hops, now);
    } else {
      assert ackSeq !in s.inFlight;
      assert AtGate(v, c, s, ackSeq, hops).cumAcked == ackSeq;
    }
  }

  lemma HalfWindow(c: Config, s: State)
    requires Inv(c, s)
    ensures W_MIN <= Max(W_MIN, s.wRef / 2.0) <= s.wRef
  {
  }

  lemma TimeoutKeepsInv(c: Config, s: State, clock: int -> int)
    requires Inv(c, s)
    ensures Inv(c, Timeout(s, clock))
  {
    HalfWindow(c, s);
    assert Timeout(s, clock).inFlight.Keys == s.inFlight.Keys;
  }

  lemma TimerKeepsInv(c: Config, s: State, nowUs: int, clock: int -> int)
    requires Inv(c, s)
    ensures Inv(c, TimerPass(c, s, nowUs, clock))
  {
    TimeoutKeepsInv(c, s, clock);
  }

  lemma StepKeepsInv(v: Variant, c: Config, limit: Option<nat>, s: State, e: Event)
    requires c.Valid() && Inv(c, s) && Enabled(limit, s, e)
    ensures Inv(c, Apply(v, c, s, e))
    ensures Apply(v, c, s, e).cumAcked == if Accepts(s, e) then e.ackSeq else s.cumAcked
    ensures Accepts(s, e) ==> s.cumAcked < e.ackSeq
    ensures Apply(v, c, s, e).nextSeq == if e.Send? then s.nextSeq + 1 else s.nextSeq
  {
    match e
    case Send(ts) => SendKeepsInv(c, s, limit, ts);
    case Ack(ackSeq, hops, now) => ReceiveKeepsInv(v, c, s, ackSeq, hops, now);
    case Timer(nowUs, clock) => TimerKeepsInv(c, s, nowUs, clock);
  }

  /** What an update finds at its gate and leaves behind. */
  lemma UpdateSets(v: Variant, c: Config, limit: Option<nat>, s: State, e: Event)
    requires c.Valid() && Inv(c, s) && Enabled(limit, s, e) && Updates(v, c, s, e)
    ensures var g, s' := AtGate(v, c, s, e.ackSeq, e.hops), Apply(v, c, s, e);
            && Inv(c, g) && g.cumAcked == e.ackSeq == s'.cumAcked == s'.lastUpdateSeq
            && g.lastUpdateSeq == s.lastUpdateSeq && g.nextSeq == s.nextSeq == s'.nextSeq
            && g.wRef == s.wRef && g.inFlight == s'.inFlight
            && (forall k :: k in g.inFlight ==> k in s.inFlight && g.inFlight[k] == s.inFlight[k])
            && g.cumAcked >= s.lastUpdateSeq + GatePackets(v, g)
  {
    StepKeepsInv(v, c, limit, s, e);
    ReceiveKeepsInv(v, c, s, e.ackSeq, e.hops, e.now);
    AdvanceKeepsInv(c, s, e.ackSeq);
  }

  /** Conservation over whole runs: sends, ACKs and go-back-N timeouts in any order. */
  lemma {:induction false} RunKeepsInv(v: Variant, c: Config, limit: Option<nat>, trace: seq<State>,
                                       events: seq<Event>, wInit: nat, t0: real, i: nat)
    requires c.Valid() && Run(v, c, limit, trace, events) && FromStart(c, trace, wInit, t0) && i <= |events|
    ensures Inv(c, trace[i])
  {
    if i == 0 {
      InitInv(c, wInit, t0);
    } else {
      RunKeepsInv(v, c, limit, trace, events, wInit, t0, i - 1);
      StepKeepsInv(v, c, limit, trace[i - 1], events[i - 1]);
    }
  }

  lemma RunStepGrows(v: Variant, c: Config, limit: Option<nat>, trace: seq<State>, events: seq<Event>,
                     wInit: nat, t0: real, i: nat)
    requires c.Valid() && Run(v, c, limit, trace, events) && FromStart(c, trace, wInit, t0) && i < |events|
    ensures trace[i].cumAcked <= trace[i + 1].cumAcked && trace[i].nextSeq <= trace[i + 1].nextSeq
  {
    RunKeepsInv(v, c, limit, trace, events, wInit, t0, i);
    StepKeepsInv(v, c, limit, trace[i], events[i]);
  }

  lemma {:induction false} CumulativeGrows(v: Variant, c: Config, limit: Option<nat>, trace: seq<State>,
                                           events: seq<Event>, wInit: nat, t0: real, i: nat, j: nat)
    requires c.Valid() && Run(v, c, limit, trace, events) && FromStart(c, trace, wInit, t0)
    requires i <= j <= |events|
    ensures trace[i].cumAcked <= trace[j].cumAcked && trace[i].nextSeq <= trace[j].nextSeq
  {
    if i < j {
      CumulativeGrows(v, c, limit, trace, events, wInit, t0, i, j - 1);
      RunStepGrows(v, c, limit, trace, events, wInit, t0, j - 1);
    }
  }

  /** Accepted ACKs carry strictly increasing sequence numbers, so none is accepted twice. */
  lemma AcceptedIncrease(v: Variant, c: Config, limit: Option<nat>, trace: seq<State>, events: seq<Event>,
                         wInit: nat, t0: real, i: nat, j: nat)
    requires c.Valid() && Run(v, c, limit, trace, events) && FromStart(c, trace, wInit, t0)
    requires i < j < |events| && Accepts(trace[i], events[i]) && Accepts(trace[j], events[j])
    ensures events[i].ackSeq < events[j].ackSeq
  {
    RunKeepsInv(v, c, limit, trace, events, wInit, t0, i);
    StepKeepsInv(v, c, limit, trace[i], events[i]);
    CumulativeGrows(v, c, limit, trace, events, wInit, t0, i + 1, j);
    RunKeepsInv(v, c, limit, trace, events, wInit, t0, j);
    StepKeepsInv(v, c, limit, trace[j], events[j]);
  }

  lemma RunPrefix(v: Variant, c: Config, limit: Option<nat>, trace: seq<State>, events: seq<Event>, n: nat)
    requires c.Valid() && Run(v, c, limit, trace, events) && n <= |events|
    ensures Run(v, c, limit, trace[..n + 1], events[..n])
  {
  }

  lemma RunExtends(v: Variant, c: Config, limit: Option<nat>, trace: seq<State>, events: seq<Event>, e: Event)
    requires c.Valid() && Run(v, c, limit, trace, events) && Enabled(limit, trace[|events|], e)
    ensures Run(v, c, limit, trace + [Apply(v, c, trace[|events|], e)], events + [e])
  {
    var trace', events' := trace + [Apply(v, c, trace[|events|], e)], events + [e];
    forall i | 0 <= i < |events'|
      ensures Enabled(limit, trace'[i], events'[i]) && trace'[i + 1] == Apply(v, c, trace'[i], events'[i])
    {
      if i < |events| {
        assert trace'[i] == trace[i] && trace'[i + 1] == trace[i + 1] && events'[i] == events[i];
      }
    }
  }

  // ---- progress of a run with a packet limit ----

  predicate Finished(s: State, limit: nat) {
    s.nextSeq >= limit && s.inFlight == map[]
  }

  predicate WithinLimit(c: Config, s: State, limit: nat) {
    Inv(c, s) && s.nextSeq <= limit
  }

  lemma StepKeepsLimit(v: Variant, c: Config, limit: nat, s: State, e: Event)
    requires c.Valid() && WithinLimit(c, s, limit) && Enabled(Some(limit), s, e)
    ensures WithinLimit(c, Apply(v, c, s, e), limit)
  {
    StepKeepsInv(v, c, Some(limit), s, e);
  }

  /** The early exit is taken only when everything was sent and acknowledged; until then
      something is in flight or the window admits a send. */
  lemma NeverStuck(c: Config, s: State, limit: nat)
    requires WithinLimit(c, s, limit)
    ensures Finished(s, limit) <==> s.nextSeq == limit && s.cumAcked + 1 == limit
    ensures !Finished(s, limit) ==> s.inFlight != map[] || CanSend(s, Some(limit))
  {
    FlightSize(c, s);
  }

  /** Accepted ACKs come strictly closer to completion; nothing else, timeouts included,
      moves away from it or forgets a packet. */
  lemma RemainingWork(v: Variant, c: Config, limit: nat, s: State, e: Event)
    requires c.Valid() && WithinLimit(c, s, limit) && Enabled(Some(limit), s, e)
    ensures var s' := Apply(v, c, s, e);
            && (Accepts(s, e) ==> 0 <= limit - 1 - s'.cumAcked < limit - 1 - s.cumAcked)
            && (!Accepts(s, e) ==> s'.cumAcked == s.cumAcked)
            && (e.Timer? ==> s'.inFlight.Keys == s.inFlight.Keys && s'.nextSeq == s.nextSeq)
  {
    StepKeepsInv(v, c, Some(limit), s, e);
    StepKeepsLimit(v, c, limit, s, e);
    if e.Timer? {
      assert Timeout(s, e.clock).inFlight.Keys == s.inFlight.Keys;
    }
  }

  /** From every state a run can be in, some continuation completes the transfer. */
  lemma {:induction false} CanFinish(v: Variant, c: Config, limit: nat, s: State)
      returns (trace: seq<State>, events: seq<Event>)
    requires c.Valid() && WithinLimit(c, s, limit)
    ensures Run(v, c, Some(limit), trace, events) && trace[0] == s
    ensures Finished(trace[|events|], limit)
    decreases limit - s.cumAcked, limit - s.nextSeq
  {
    NeverStuck(c, s, limit);
    FlightSize(c, s);
    if Finished(s, limit) {
      trace, events := [s], [];
    } else {
      var e := if s.inFlight != map[] then Ack(s.nextSeq - 1, [], s.lastUpdateTime) else Send(0);
      StepKeepsInv(v, c, Some(limit), s, e);
      StepKeepsLimit(v, c, limit, s, e);
      var s' := Apply(v, c, s, e);
      var trace', events' := CanFinish(v, c, limit, s');
      trace, events := [s] + trace', [e] + events';
      assert trace[1..] == trace' && events[1..] == events';
      forall i | 0 <= i < |events|
        ensures Enabled(Some(limit), trace[i], events[i]) && trace[i + 1] == Apply(v, c, trace[i], events[i])
      {
        if i > 0 {
          assert trace[i] == trace'[i - 1] && events[i] == events'[i - 1] && trace[i + 1] == trace'[i];
        }
      }
    }
  }

  // ---- the fill loop ----

  /** Send steps until the window is full or the limit is reached; packet k leaves at `clock(k)`. */
  function Fill(c: Config, s: State, limit: Option<nat>, clock: int -> int): (r: State)
    requires Inv(c, s)
    ensures Inv(c, r) && !CanSend(r, limit)
    decreases s.w.Floor - (s.nextSeq - 1 - s.cumAcked)
  {
    FlightSize(c, s);
    if CanSend(s, limit) then
      SendKeepsInv(c, s, limit, clock(s.nextSeq));
      Fill(c, SendNext(s, clock(s.nextSeq)), limit, clock)
    else s
  }

  lemma FillStep(c: Config, s: State, limit: Option<nat>, clock: int -> int)
    requires Inv(c, s) && CanSend(s, limit)
    ensures var s' := SendNext(s, clock(s.nextSeq));
            && Inv(c, s') && Fill(c, s', limit, clock) == Fill(c, s, limit, clock)
            && s'.nextSeq - 1 - s'.cumAcked <= s.w.Floor
  {
    FlightSize(c, s);
    SendKeepsInv(c, s, limit, clock(s.nextSeq));
  }

  /** r is s with packets sent on top of it, packet k at `clock(k)`. */
  predicate SentOnTop(s: State, r: State, clock: int -> int) {
    && r == s.(nextSeq := r.nextSeq, inFlight := r.inFlight) && r.nextSeq >= s.nextSeq
    && (forall k :: k in s.inFlight ==> k in r.inFlight && r.inFlight[k] == s.inFlight[k])
    && (forall k :: k in r.inFlight && k !in s.inFlight ==> r.inFlight[k] == Entry(clock(k), s.wRef, s.incarnation, 0))
  }

  lemma SendIsOnTop(c: Config, s: State, r: State, limit: Option<nat>, clock: int -> int)
    requires Inv(c, s) && CanSend(s, limit) && SentOnTop(SendNext(s, clock(s.nextSeq)), r, clock)
    ensures SentOnTop(s, r, clock)
  {
    SendKeepsInv(c, s, limit, clock(s.nextSeq));
    assert s.nextSeq !in s.inFlight;
  }

  /** In closed form: the old flight with its snapshots, and new packets with the current
      ones, up to the window or the limit, whichever binds first. */
  lemma {:induction false} FillAdds(c: Config, s: State, limit: Option<nat>, clock: int -> int)
    requires Inv(c, s)
    ensures SentOnTop(s, Fill(c, s, limit, clock), clock)
    ensures |Fill(c, s, limit, clock).inFlight| >= s.w.Floor
            || (limit.Some? && Fill(c, s, limit, clock).nextSeq >= limit.value)
    decreases s.w.Floor - (s.nextSeq - 1 - s.cumAcked)
  {
    FlightSize(c, s);
    if CanSend(s, limit) {
      FillStep(c, s, limit, clock);
      FillAdds(c, SendNext(s, clock(s.nextSeq)), limit, clock);
      SendIsOnTop(c, s, Fill(c, s, limit, clock), limit, clock);
    }
  }
}
