/**
 * extensions/csender/hpcc_sender.c as atomic steps on the state of SenderSpec, and exactly
 * where they are not the V1 steps: its hop table holds 256 ports, it does not believe an ACK
 * of a packet it is not tracking, and its timer subtracts unsigned words.
 */
module CSenderSpec {
  import opened Common
  import opened WireFormat
  import opened Utilization
  import opened Window
  import opened SenderSpec
  import opened Conservation
  import HopTable
  import Ring
  import Rto

  // ---- telemetry with a bounded table ----

  /** With every slot taken, the record of a new port is dropped. */
  function CStore(m: Anchors, h: IntHop): Anchors {
    if h.linkBps == 0 || (KeyOf(h) !in m && |m| >= HopTable.SIZE) then m else m[KeyOf(h) := AnchorOf(h)]
  }

  function CAbsorb(m: Anchors, hops: seq<IntHop>, baseRtt: real): (r: (real, Anchors))
    requires Reported(hops)
  {
    if hops == [] then (0.0, m)
    else
      var h := hops[|hops| - 1];
      var (u, before) := CAbsorb(m, hops[..|hops| - 1], baseRtt);
      (Max(u, HopU(before, h, baseRtt)), CStore(before, h))
  }

  lemma CAbsorbNext(m: Anchors, hops: seq<IntHop>, i: nat, baseRtt: real)
    requires Reported(hops) && i < |hops|
    ensures var (u, before) := CAbsorb(m, hops[..i], baseRtt);
            CAbsorb(m, hops[..i + 1], baseRtt)
            == (Max(u, HopU(before, hops[i], baseRtt)), CStore(before, hops[i]))
    ensures hops[..|hops|] == hops
  {
    assert hops[..i + 1][..i] == hops[..i];
  }

  lemma {:induction false} CAbsorbSize(m: Anchors, hops: seq<IntHop>, baseRtt: real)
    requires Reported(hops) && |m| <= HopTable.SIZE
    ensures |CAbsorb(m, hops, baseRtt).1| <= HopTable.SIZE
  {
    if hops != [] {
      var front, h := hops[..|hops| - 1], hops[|hops| - 1];
      CAbsorbSize(m, front, baseRtt);
      var before := CAbsorb(m, front, baseRtt).1;
      if h.linkBps != 0 {
        InsertSize(before, KeyOf(h), AnchorOf(h));
      }
    }
  }

  lemma InsertSize(m: Anchors, k: HopKey, a: Anchor)
    ensures |m[k := a]| == if k in m then |m| else |m| + 1
  {
    var m' := m[k := a];
    assert m'.Keys == m.Keys + {k};
    assert |m| == |m.Keys| && |m'| == |m'.Keys|;
  }

  /** Room in the hop table for every record of an ACK. */
  predicate TableHasRoom(m: Anchors, hops: seq<IntHop>) {
    |m.Keys + Keys(hops)| <= HopTable.SIZE
  }

  lemma {:induction false} AbsorbKeys(m: Anchors, hops: seq<IntHop>, baseRtt: real)
    requires Reported(hops)
    ensures Absorb(m, hops, baseRtt).1.Keys == m.Keys + Keys(hops)
  {
    if hops == [] {
      assert Keys(hops) == {};
    } else {
      var front, h := hops[..|hops| - 1], hops[|hops| - 1];
      AbsorbKeys(m, front, baseRtt);
      assert hops == front + [h];
      KeysSnoc(front, h);
    }
  }

  /** With room for the last record and those before it, the last store drops nothing. */
  lemma RoomyStore(before: Anchors, all: set<HopKey>, h: IntHop)
    requires |all| <= HopTable.SIZE && before.Keys <= all && (h.linkBps != 0 ==> KeyOf(h) in all)
    ensures CStore(before, h) == Store(before, h)
  {
    if h.linkBps != 0 && KeyOf(h) !in before {
      HopTable.SubsetSize(before.Keys + {KeyOf(h)}, all);
      assert |before| == |before.Keys|;
    }
  }

  lemma {:induction false} RoomySame(m: Anchors, hops: seq<IntHop>, all: set<HopKey>, baseRtt: real)
    requires Reported(hops) && m.Keys + Keys(hops) <= all && |all| <= HopTable.SIZE
    ensures CAbsorb(m, hops, baseRtt) == Absorb(m, hops, baseRtt)
  {
    if hops != [] {
      var front, h := hops[..|hops| - 1], hops[|hops| - 1];
      assert hops == front + [h];
      KeysSnoc(front, h);
      RoomySame(m, front, all, baseRtt);
      AbsorbKeys(m, front, baseRtt);
      RoomyStore(Absorb(m, front, baseRtt).1, all, h);
    }
  }

  /** The bounded table leaves what the dict would hold exactly when all ports fit; then U
      is the same too. */
  lemma TableSufficesIff(m: Anchors, hops: seq<IntHop>, baseRtt: real)
    requires Reported(hops) && |m| <= HopTable.SIZE
    ensures CAbsorb(m, hops, baseRtt).1 == Absorb(m, hops, baseRtt).1 <==> TableHasRoom(m, hops)
    ensures TableHasRoom(m, hops) ==> CAbsorb(m, hops, baseRtt) == Absorb(m, hops, baseRtt)
  {
    if TableHasRoom(m, hops) {
      RoomySame(m, hops, m.Keys + Keys(hops), baseRtt);
    } else {
      AbsorbKeys(m, hops, baseRtt);
      CAbsorbSize(m, hops, baseRtt);
    }
  }

  // ---- the steps ----

  function CSmooth(c: Config, s: State, hops: seq<IntHop>): State
    requires Reported(hops)
  {
    var (u, anchors) := CAbsorb(s.anchors, hops, c.baseRtt);
    s.(anchors := anchors, uSmoothed := Blend(c.tau, s.uSmoothed, u))
  }

  /** No packet in flight occupies the slot of the number that marks empty slots. */
  predicate MarkerFree(s: State) {
    forall k :: k in s.inFlight && k >= 0 ==> Ring.Idx(k) != Ring.Idx(Ring.EMPTY)
  }

  /** What the ring takes for tracked: the packets in flight, and the marker of an empty slot
      when its own slot is empty. */
  predicate Found(s: State, ackSeq: int) {
    ackSeq in s.inFlight || (ackSeq == Ring.EMPTY && MarkerFree(s))
  }

  /** Only what is found in the ring moves the cumulative point; the telemetry of an untracked
      packet beyond it is used all the same. */
  function CAdvance(s: State, ackSeq: int): State {
    if Found(s, ackSeq) then Advance(s, ackSeq) else s
  }

  function CReceive(c: Config, s: State, ackSeq: nat, hops: seq<IntHop>, now: real): State
    requires c.Valid() && Reported(hops)
  {
    if Stale(s, ackSeq) then s else MaybeUpdate(V1, c, CSmooth(c, CAdvance(s, ackSeq), hops), now)
  }

  predicate CExpired(c: Config, s: State, nowUs: int) {
    exists k :: k in s.inFlight && Ring.Sub64(nowUs, s.inFlight[k].sentUs) >= RtoUs(c)
  }

  function CTimerPass(c: Config, s: State, nowUs: int, clock: int -> int): State {
    if CExpired(c, s, nowUs) then Timeout(s, clock) else s
  }

  function CApply(c: Config, s: State, e: Event): State
    requires c.Valid() && (e.Ack? ==> Reported(e.hops))
  {
    match e
    case Send(ts) => SendNext(s, ts)
    case Ack(ackSeq, hops, now) => CReceive(c, s, ackSeq, hops, now)
    case Timer(nowUs, clock) => CTimerPass(c, s, nowUs, clock)
  }

  predicate Word64(us: int) {
    0 <= us < Ring.U64
  }

  function Micros(us: nat): real {
    us as real / 1000000.0
  }

  /** Microseconds of a clock reading that the C sender can hold. */
  function WholeMicros(now: real): (us: nat)
    requires now >= 0.0
  {
    (now * 1000000.0).Floor
  }

  /** Packets below the marker of an empty slot, any ACK the parser lets through unless it
      loses the flight, wall clocks of 64 bits, and a monotonic clock. */
  predicate CEnabled(limit: Option<nat>, s: State, e: Event) {
    match e
    case Send(ts) => CanSend(s, limit) && s.nextSeq < Ring.EMPTY && Word64(ts)
    case Ack(ackSeq, hops, now) =>
      && KeepsFlight(s, ackSeq) && |hops| <= MAX_HOPS && AllInRange(hops)
      && now >= s.lastUpdateTime && now >= 0.0 && Micros(WholeMicros(now)) == now
    case Timer(nowUs, clock) => Word64(nowUs) && forall k :: k in s.inFlight ==> Word64(clock(k))
  }

  /** A 32-bit number other than the marker, or the marker while its slot is occupied. */
  predicate KeepsFlight(s: State, ackSeq: nat) {
    ackSeq < Ring.EMPTY || (ackSeq == Ring.EMPTY && !MarkerFree(s))
  }

  predicate CInv(c: Config, s: State) {
    && Inv(c, s) && s.nextSeq <= Ring.EMPTY && |s.anchors| <= HopTable.SIZE
    && (forall k :: k in s.inFlight ==> Word64(s.inFlight[k].sentUs))
  }

  lemma CAdvanceKeepsInv(c: Config, s: State, ackSeq: nat)
    requires CInv(c, s) && KeepsFlight(s, ackSeq)
    ensures CInv(c, CAdvance(s, ackSeq))
  {
    if ackSeq in s.inFlight {
      AdvanceKeepsInv(c, s, ackSeq);
    }
  }

  lemma CSmoothKeepsInv(c: Config, s: State, hops: seq<IntHop>)
    requires CInv(c, s) && Reported(hops)
    ensures CInv(c, CSmooth(c, s, hops))
  {
    CAbsorbSize(s.anchors, hops, c.baseRtt);
  }

  lemma CReceiveKeepsInv(c: Config, s: State, ackSeq: nat, hops: seq<IntHop>, now: real)
    requires c.Valid() && CInv(c, s) && Reported(hops) && KeepsFlight(s, ackSeq)
    ensures CInv(c, CReceive(c, s, ackSeq, hops, now))
  {
    CAdvanceKeepsInv(c, s, ackSeq);
    CSmoothKeepsInv(c, CAdvance(s, ackSeq), hops);
    var g := CSmooth(c, CAdvance(s, ackSeq), hops);
    UpdateKeepsInv(V1, c, g, now);
    FeedbackKeepsFlight(V1, c, g, hops, now);
  }

  /** Unlike the Python senders, the C sender survives ACKs of numbers it never sent: of all
      32-bit numbers only the marker of an empty slot breaks the invariant, and exactly when
      no packet in flight occupies the marker's slot.  Then the whole flight is forgotten. */
  lemma CReceiveKeepsInvIff(c: Config, s: State, ackSeq: nat, hops: seq<IntHop>, now: real)
    requires c.Valid() && CInv(c, s) && Reported(hops) && ackSeq <= Ring.EMPTY
    ensures CInv(c, CReceive(c, s, ackSeq, hops, now)) <==> ackSeq != Ring.EMPTY || !MarkerFree(s)
    ensures ackSeq == Ring.EMPTY && MarkerFree(s) ==> CReceive(c, s, ackSeq, hops, now).inFlight == map[]
  {
    if KeepsFlight(s, ackSeq) {
      CReceiveKeepsInv(c, s, ackSeq, hops, now);
    } else {
      MarkerLosesFlight(c, s);
      UpdateKeepsAnchors(c, CSmooth(c, CAdvance(s, ackSeq), hops), now);
    }
  }

  lemma MarkerLosesFlight(c: Config, s: State)
    requires CInv(c, s) && MarkerFree(s)
    ensures var a := CAdvance(s, Ring.EMPTY);
            a == s.(cumAcked := Ring.EMPTY, inFlight := map[]) && !Stale(s, Ring.EMPTY)
  {
    assert forall k :: k in s.inFlight ==> s.cumAcked < k < s.nextSeq;
    assert Advance(s, Ring.EMPTY).inFlight == map[];
  }

  lemma CStepKeepsInv(c: Config, limit: Option<nat>, s: State, e: Event)
    requires c.Valid() && CInv(c, s) && CEnabled(limit, s, e)
    ensures CInv(c, CApply(c, s, e))
  {
    match e
    case Send(ts) => SendKeepsInv(c, s, limit, ts);
    case Ack(ackSeq, hops, now) => CReceiveKeepsInv(c, s, ackSeq, hops, now);
    case Timer(_, clock) => TimeoutKeepsInv(c, s, clock);
  }

  // ---- where the C step is the V1 step ----

  /** Something a caller can check: a duplicate, or a number that was sent and room for its
      ports; an expired packet, or no send time that the clock has stepped back behind. */
  predicate Agrees(c: Config, s: State, e: Event) {
    match e
    case Send(_) => true
    case Ack(ackSeq, hops, _) => ackSeq <= s.cumAcked || (ackSeq < s.nextSeq && TableHasRoom(s.anchors, hops))
    case Timer(nowUs, _) =>
      Expired(c, s, nowUs)
      || forall k :: k in s.inFlight ==>
                       s.inFlight[k].sentUs <= nowUs || s.inFlight[k].sentUs - nowUs > Ring.U64 - RtoUs(c)
  }

  lemma UpdateKeepsAnchors(c: Config, s: State, now: real)
    requires c.Valid()
    ensures MaybeUpdate(V1, c, s, now).anchors == s.anchors && MaybeUpdate(V1, c, s, now).cumAcked == s.cumAcked
    ensures MaybeUpdate(V1, c, s, now).nextSeq == s.nextSeq && MaybeUpdate(V1, c, s, now).inFlight == s.inFlight
  {
  }

  lemma AckAgreesIff(c: Config, s: State, ackSeq: nat, hops: seq<IntHop>, now: real)
    requires c.Valid() && CInv(c, s) && Reported(hops) && KeepsFlight(s, ackSeq)
    ensures CReceive(c, s, ackSeq, hops, now) == Receive(V1, c, s, ackSeq, hops, now)
            <==> ackSeq <= s.cumAcked || (ackSeq < s.nextSeq && TableHasRoom(s.anchors, hops))
  {
    if ackSeq > s.cumAcked {
      assert ackSeq in s.inFlight <==> ackSeq < s.nextSeq;
      var mine, theirs := CSmooth(c, CAdvance(s, ackSeq), hops), Smooth(c, Advance(s, ackSeq), hops);
      UpdateKeepsAnchors(c, mine, now);
      UpdateKeepsAnchors(c, theirs, now);
      TableSufficesIff(s.anchors, hops, c.baseRtt);
    }
  }

  lemma RtoRange(c: Config)
    ensures 0 < RtoUs(c) < Ring.U64
  {
    Rto.TimeoutMicros(c.baseRtt);
  }

  lemma TimerAgreesIff(c: Config, s: State, nowUs: int, clock: int -> int)
    requires CInv(c, s) && Word64(nowUs)
    ensures CTimerPass(c, s, nowUs, clock) == TimerPass(c, s, nowUs, clock)
            <==> Agrees(c, s, Timer(nowUs, clock))
  {
    RtoRange(c);
    forall k | k in s.inFlight
      ensures var sent := s.inFlight[k].sentUs;
              (Ring.Sub64(nowUs, sent) >= RtoUs(c) <==> nowUs - sent >= RtoUs(c))
              <==> sent <= nowUs || sent - nowUs > Ring.U64 - RtoUs(c)
    {
      Ring.TimerTestsAgreeIff(nowUs, s.inFlight[k].sentUs, RtoUs(c));
    }
    assert Timeout(s, clock) != s;
  }

  /** Exactly when a step of the C sender is the step of the first Python sender. */
  lemma StepAgreesIff(c: Config, limit: Option<nat>, s: State, e: Event)
    requires c.Valid() && CInv(c, s) && CEnabled(limit, s, e)
    ensures CApply(c, s, e) == Apply(V1, c, s, e) <==> Agrees(c, s, e)
  {
    match e
    case Send(_) =>
    case Ack(ackSeq, hops, now) => AckAgreesIff(c, s, ackSeq, hops, now);
    case Timer(nowUs, clock) => TimerAgreesIff(c, s, nowUs, clock);
  }

  // ---- whole runs ----

  predicate AllEnabled(limit: Option<nat>, trace: seq<State>, events: seq<Event>) {
    |trace| == |events| + 1 && forall i :: 0 <= i < |events| ==> CEnabled(limit, trace[i], events[i])
  }

  predicate CRun(c: Config, limit: Option<nat>, trace: seq<State>, events: seq<Event>)
    requires c.Valid()
  {
    && AllEnabled(limit, trace, events)
    && forall i :: 0 <= i < |events| ==> trace[i + 1] == CApply(c, trace[i], events[i])
  }

  predicate AllAgree(c: Config, trace: seq<State>, events: seq<Event>)
    requires |trace| == |events| + 1
  {
    forall i :: 0 <= i < |events| ==> Agrees(c, trace[i], events[i])
  }

  lemma CInitInv(c: Config, wInit: nat, t0: real)
    requires 1 <= wInit <= c.wMax
    ensures CInv(c, Init(wInit, t0))
  {
    InitInv(c, wInit, t0);
  }

  lemma {:induction false} CRunKeepsInv(c: Config, limit: Option<nat>, trace: seq<State>, events: seq<Event>,
                                        wInit: nat, t0: real, n: nat)
    requires c.Valid() && FromStart(c, trace, wInit, t0) && n <= |events| && AllEnabled(limit, trace, events)
    requires forall i :: 0 <= i < n ==> trace[i + 1] == CApply(c, trace[i], events[i])
    ensures CInv(c, trace[n])
  {
    if n == 0 {
      CInitInv(c, wInit, t0);
    } else {
      CRunKeepsInv(c, limit, trace, events, wInit, t0, n - 1);
      CStepKeepsInv(c, limit, trace[n - 1], events[n - 1]);
    }
  }

  lemma AgreeingSteps(c: Config, limit: Option<nat>, s: State, e: Event, s': State)
    requires c.Valid() && CInv(c, s) && CEnabled(limit, s, e)
    ensures Agrees(c, s, e) ==> (s' == CApply(c, s, e) <==> s' == Apply(V1, c, s, e))
    ensures Agrees(c, s, e) ==> Enabled(limit, s, e)
    ensures s' == CApply(c, s, e) && s' == Apply(V1, c, s, e) ==> Agrees(c, s, e)
  {
    StepAgreesIff(c, limit, s, e);
  }

  lemma {:induction false} AgreeingKeepsInv(c: Config, limit: Option<nat>, trace: seq<State>, events: seq<Event>,
                                            wInit: nat, t0: real, n: nat)
    requires c.Valid() && FromStart(c, trace, wInit, t0) && AllEnabled(limit, trace, events)
    requires Run(V1, c, limit, trace, events) && AllAgree(c, trace, events) && n <= |events|
    ensures CInv(c, trace[n])
  {
    if n == 0 {
      CInitInv(c, wInit, t0);
    } else {
      AgreeingKeepsInv(c, limit, trace, events, wInit, t0, n - 1);
      CStepKeepsInv(c, limit, trace[n - 1], events[n - 1]);
      AgreeingSteps(c, limit, trace[n - 1], events[n - 1], trace[n]);
    }
  }

  lemma AgreeingIsCRun(c: Config, limit: Option<nat>, trace: seq<State>, events: seq<Event>, wInit: nat, t0: real)
    requires c.Valid() && FromStart(c, trace, wInit, t0) && AllEnabled(limit, trace, events)
    requires Run(V1, c, limit, trace, events) && AllAgree(c, trace, events)
    ensures CRun(c, limit, trace, events)
  {
    forall i | 0 <= i < |events|
      ensures trace[i + 1] == CApply(c, trace[i], events[i])
    {
      AgreeingKeepsInv(c, limit, trace, events, wInit, t0, i);
      AgreeingSteps(c, limit, trace[i], events[i], trace[i + 1]);
    }
  }

  lemma CRunAgreesIff(c: Config, limit: Option<nat>, trace: seq<State>, events: seq<Event>, wInit: nat, t0: real)
    requires c.Valid() && FromStart(c, trace, wInit, t0) && CRun(c, limit, trace, events)
    ensures Run(V1, c, limit, trace, events) <==> AllAgree(c, trace, events)
  {
    forall i | 0 <= i < |events|
      ensures CInv(c, trace[i])
    {
      CRunKeepsInv(c, limit, trace, events, wInit, t0, i);
    }
    if AllAgree(c, trace, events) {
      forall i | 0 <= i < |events|
        ensures Enabled(limit, trace[i], events[i]) && trace[i + 1] == Apply(V1, c, trace[i], events[i])
      {
        AgreeingSteps(c, limit, trace[i], events[i], trace[i + 1]);
      }
    }
    if Run(V1, c, limit, trace, events) {
      forall i | 0 <= i < |events|
        ensures Agrees(c, trace[i], events[i])
      {
        AgreeingSteps(c, limit, trace[i], events[i], trace[i + 1]);
      }
    }
  }

  /** A run of the C sender is a run of the first Python sender, and the other way round,
      exactly when every event finds its condition met. */
  lemma RunAgreesIff(c: Config, limit: Option<nat>, trace: seq<State>, events: seq<Event>, wInit: nat, t0: real)
    requires c.Valid() && FromStart(c, trace, wInit, t0) && AllEnabled(limit, trace, events)
    ensures CRun(c, limit, trace, events) ==> (Run(V1, c, limit, trace, events) <==> AllAgree(c, trace, events))
    ensures Run(V1, c, limit, trace, events) ==> (CRun(c, limit, trace, events) <==> AllAgree(c, trace, events))
  {
    if Run(V1, c, limit, trace, events) && AllAgree(c, trace, events) {
      AgreeingIsCRun(c, limit, trace, events, wInit, t0);
    }
    if CRun(c, limit, trace, events) {
      CRunAgreesIff(c, limit, trace, events, wInit, t0);
    }
  }
}
