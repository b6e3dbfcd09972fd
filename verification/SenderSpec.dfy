/**
 * The two Python HPCC senders as one state machine over atomic steps.  All their shared
 * state changes under one lock: a transmission from the fill loop, the processing of one
 * ACK, one pass of the retransmission timer.  V1 is sender/hpcc_sender.py, V2 is
 * extensions/hpcc_v2/hpcc_sender_v2.py; they differ in which feedback they accept and in
 * the window that gates and scales an update.
 */
module SenderSpec {
  import opened Average
  import opened Common
  import opened WireFormat
  import opened Utilization
  import opened Window
  import Rto

  datatype Variant = V1 | V2

  datatype Entry = Entry(sentUs: int, wRef: real, incarnation: nat, rtx: nat)

  datatype State = State(nextSeq: nat, cumAcked: int, inFlight: map<int, Entry>,
                         w: real, wRef: real, incarnation: nat, uSmoothed: real,
                         lastUpdateSeq: int, lastUpdateTime: real, anchors: Anchors)

  function Init(wInit: nat, now: real): State {
    State(0, -1, map[], wInit as real, wInit as real, 0, 1.0, -1, now, map[])
  }

  function RtoUs(c: Config): nat {
    Rto.Timeout(c.baseRtt)
  }

  // ---- sending ----

  predicate CanSend(s: State, limit: Option<nat>) {
    |s.inFlight| < s.w.Floor && (limit.Some? ==> s.nextSeq < limit.value)
  }

  /** `_send_locked`: a known sequence number keeps its snapshot, a new one takes it now. */
  function Transmit(s: State, seqNo: int, ts: int): State {
    s.(inFlight := s.inFlight[seqNo :=
      if seqNo in s.inFlight then s.inFlight[seqNo].(sentUs := ts, rtx := s.inFlight[seqNo].rtx + 1)
      else Entry(ts, s.wRef, s.incarnation, 0)])
  }

  function SendNext(s: State, ts: int): State {
    Transmit(s, s.nextSeq, ts).(nextSeq := s.nextSeq + 1)
  }

  // ---- one ACK ----

  /** Cumulative acknowledgement of everything up to `ackSeq`. */
  function Advance(s: State, ackSeq: int): State {
    if ackSeq <= s.cumAcked then s
    else s.(inFlight := map k | k in s.inFlight && !(s.cumAcked < k <= ackSeq) :: s.inFlight[k],
            cumAcked := ackSeq)
  }

  /** The moving average; a sample of zero means that no record was usable. */
  function Blend(tau: real, average: real, u: real): real {
    if u > 0.0 then Ewma(tau, average, u) else average
  }

  function Smooth(c: Config, s: State, hops: seq<IntHop>): State
    requires Reported(hops)
  {
    var (u, anchors) := Absorb(s.anchors, hops, c.baseRtt);
    s.(anchors := anchors, uSmoothed := Blend(c.tau, s.uSmoothed, u))
  }

  function MinKey(keys: set<int>): (k: int)
    requires keys != {}
    ensures k in keys && forall j :: j in keys ==> k <= j
  {
    assert exists k :: k in keys && forall j :: j in keys ==> k <= j by {
      var least := HasMin(keys);
    }
    var k :| k in keys && forall j :: j in keys ==> k <= j;
    k
  }

  lemma {:induction false} HasMin(keys: set<int>) returns (m: int)
    requires keys != {}
    ensures m in keys && forall j :: j in keys ==> m <= j
  {
    assert (forall k :: k !in keys) ==> keys == {};
    var x :| x in keys;
    m := x;
    var others := keys - {x};
    if others == {} {
      assert forall j :: j in keys ==> j == x || j in others;
    } else {
      var y := HasMin(others);
      assert forall j :: j in keys ==> j == x || j in others;
      m := if x <= y then x else y;
    }
  }

  /** The window that gates an update and that the update scales: the current reference
      in V1, the snapshot of the oldest unacknowledged packet in V2. */
  function GateW(v: Variant, s: State): real {
    if v.V1? || s.inFlight == map[] then s.wRef else s.inFlight[MinKey(s.inFlight.Keys)].wRef
  }

  /** `int(max(gate, 1))`: the acknowledgements an update waits for. */
  function GatePackets(v: Variant, s: State): int {
    Max(GateW(v, s), 1.0).Floor
  }

  predicate GateOpen(v: Variant, c: Config, s: State, now: real) {
    s.cumAcked >= s.lastUpdateSeq + GatePackets(v, s) && now - s.lastUpdateTime >= c.baseRtt
  }

  function ApplyUpdate(v: Variant, c: Config, s: State, now: real): State
    requires c.Valid()
  {
    var wNew := NextWindow(c, GateW(v, s), s.uSmoothed);
    s.(incarnation := if wNew < s.wRef then s.incarnation + 1 else s.incarnation,
       w := wNew, wRef := wNew, lastUpdateSeq := s.cumAcked, lastUpdateTime := now)
  }

  function MaybeUpdate(v: Variant, c: Config, s: State, now: real): State
    requires c.Valid()
  {
    if GateOpen(v, c, s, now) then ApplyUpdate(v, c, s, now) else s
  }

  /** The ACK of a packet that is no longer tracked, below the cumulative point. */
  predicate Stale(s: State, ackSeq: int) {
    ackSeq !in s.inFlight && ackSeq <= s.cumAcked
  }

  /** V2 ignores the telemetry of packets from an earlier incarnation. */
  predicate Fresh(v: Variant, s: State, ackSeq: int) {
    v.V1? || ackSeq !in s.inFlight || s.inFlight[ackSeq].incarnation == s.incarnation
  }

  /** The state in which an accepted ACK reaches the update gate. */
  function AtGate(v: Variant, c: Config, s: State, ackSeq: int, hops: seq<IntHop>): State
    requires Reported(hops)
  {
    if Fresh(v, s, ackSeq) then Smooth(c, Advance(s, ackSeq), hops) else Advance(s, ackSeq)
  }

  function Receive(v: Variant, c: Config, s: State, ackSeq: int, hops: seq<IntHop>, now: real): State
    requires c.Valid() && Reported(hops)
  {
    if Stale(s, ackSeq) then s else MaybeUpdate(v, c, AtGate(v, c, s, ackSeq, hops), now)
  }

  // ---- the retransmission timer ----

  predicate Expired(c: Config, s: State, nowUs: int) {
    exists k :: k in s.inFlight && nowUs - s.inFlight[k].sentUs >= RtoUs(c)
  }

  /** Halve the window, start a new incarnation, and send everything outstanding again,
      as if for the first time; `clock(k)` is the time at which packet k leaves. */
  function Timeout(s: State, clock: int -> int): State {
    var wNew := Max(W_MIN, s.wRef / 2.0);
    s.(w := wNew, wRef := wNew, incarnation := s.incarnation + 1,
       inFlight := map k | k in s.inFlight :: Entry(clock(k), wNew, s.incarnation + 1, 0))
  }

  function TimerPass(c: Config, s: State, nowUs: int, clock: int -> int): State {
    if Expired(c, s, nowUs) then Timeout(s, clock) else s
  }

  // ---- runs ----

  datatype Event =
    | Send(ts: int)
    | Ack(ackSeq: nat, hops: seq<IntHop>, now: real)
    | Timer(nowUs: int, clock: int -> int)

  /** The send guard of the fill loop, and ACKs of sequence numbers that were sent. */
  predicate Enabled(limit: Option<nat>, s: State, e: Event) {
    match e
    case Send(_) => CanSend(s, limit)
    case Ack(ackSeq, hops, _) => ackSeq < s.nextSeq && Reported(hops)
    case Timer(_, _) => true
  }

  function Apply(v: Variant, c: Config, s: State, e: Event): State
    requires c.Valid() && (e.Ack? ==> Reported(e.hops))
  {
    match e
    case Send(ts) => SendNext(s, ts)
    case Ack(ackSeq, hops, now) => Receive(v, c, s, ackSeq, hops, now)
    case Timer(nowUs, clock) => TimerPass(c, s, nowUs, clock)
  }

  predicate Accepts(s: State, e: Event) {
    e.Ack? && !Stale(s, e.ackSeq)
  }

  predicate TimesOut(c: Config, s: State, e: Event) {
    e.Timer? && Expired(c, s, e.nowUs)
  }

  predicate Updates(v: Variant, c: Config, s: State, e: Event) {
    && Accepts(s, e) && Reported(e.hops)
    && GateOpen(v, c, AtGate(v, c, s, e.ackSeq, e.hops), e.now)
  }

  /** `trace[i]` is the state before event i; any interleaving of the enabled steps. */
  predicate Run(v: Variant, c: Config, limit: Option<nat>, trace: seq<State>, events: seq<Event>)
    requires c.Valid()
  {
    && |trace| == |events| + 1
    && forall i :: 0 <= i < |events| ==>
                     Enabled(limit, trace[i], events[i]) && trace[i + 1] == Apply(v, c, trace[i], events[i])
  }

  predicate FromStart(c: Config, trace: seq<State>, wInit: nat, now: real) {
    1 <= wInit <= c.wMax && |trace| > 0 && trace[0] == Init(wInit, now)
  }
}
