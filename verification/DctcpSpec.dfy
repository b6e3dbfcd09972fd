/**
 * The DCTCP-style controller of sender/dctcp_sender.py as atomic steps: an average of the
 * marked fraction per window, a cut by half that average, otherwise one more packet
 * (compare section 3.3 of RFC 8257).
 */
module DctcpSpec {
  import opened Average
  import opened Common
  import Rto

  const W_MIN := 1.0

  datatype Config = Config(wMax: nat, g: real, baseRtt: real) {
    predicate Valid() {
      wMax >= 1 && 0.0 <= g <= 1.0
    }
    function WMax(): real {
      wMax as real
    }
  }

  datatype Sent = Sent(ts: int, rtx: nat)

  datatype State = State(nextSeq: nat, cumAcked: int, inFlight: map<int, Sent>, w: real, alpha: real,
                         lastUpdateSeq: int, total: nat, marked: nat)

  function Init(wInit: nat): State {
    State(0, -1, map[], wInit as real, 0.0, -1, 0, 0)
  }

  predicate CanSend(s: State, limit: Option<nat>) {
    |s.inFlight| < s.w.Floor && (limit.Some? ==> s.nextSeq < limit.value)
  }

  function Transmit(s: State, seqNo: int, ts: int): State {
    s.(inFlight := s.inFlight[seqNo :=
      if seqNo in s.inFlight then Sent(ts, s.inFlight[seqNo].rtx + 1) else Sent(ts, 0)])
  }

  function SendNext(s: State, ts: int): State {
    Transmit(s, s.nextSeq, ts).(nextSeq := s.nextSeq + 1)
  }

  function Advance(s: State, ackSeq: int): State {
    if ackSeq <= s.cumAcked then s
    else s.(inFlight := map k | k in s.inFlight && !(s.cumAcked < k <= ackSeq) :: s.inFlight[k],
            cumAcked := ackSeq)
  }

  /** One more acknowledgement in the current window, marked or not. */
  function Count(s: State, ecn: bool): State {
    s.(total := s.total + 1, marked := s.marked + (if ecn then 1 else 0))
  }

  function Fraction(marked: nat, total: nat): real
    requires total > 0
  {
    marked as real / total as real
  }

  /** The marked share of a window. */
  function Share(w: real, alpha: real): real {
    w * alpha
  }

  /** The window less half of its marked share. */
  function Cut(w: real, share: real): real {
    Max(W_MIN, w - share / 2.0)
  }

  predicate GateOpen(s: State) {
    s.cumAcked >= s.lastUpdateSeq + s.w.Floor && s.total > 0
  }

  function MaybeUpdate(c: Config, s: State): State {
    if !GateOpen(s) then s
    else
      var alpha := Ewma(c.g, s.alpha, Fraction(s.marked, s.total));
      s.(alpha := alpha, w := if s.marked > 0 then Cut(s.w, Share(s.w, alpha)) else Min(c.WMax(), s.w + 1.0),
         lastUpdateSeq := s.cumAcked, total := 0, marked := 0)
  }

  /** `send_ts == 0`, the default for untracked packets, doubles as the test for them. */
  predicate Stale(s: State, ackSeq: int) {
    (ackSeq !in s.inFlight || s.inFlight[ackSeq].ts == 0) && ackSeq <= s.cumAcked
  }

  function AtGate(s: State, ackSeq: int, ecn: bool): State {
    Count(Advance(s, ackSeq), ecn)
  }

  function Receive(c: Config, s: State, ackSeq: int, ecn: bool): State {
    if Stale(s, ackSeq) then s else MaybeUpdate(c, AtGate(s, ackSeq, ecn))
  }

  predicate Expired(c: Config, s: State, nowUs: int) {
    exists k :: k in s.inFlight && nowUs - s.inFlight[k].ts >= Rto.Timeout(c.baseRtt)
  }

  function Timeout(s: State, clock: int -> int): State {
    s.(w := Max(W_MIN, s.w / 2.0), inFlight := map k | k in s.inFlight :: Sent(clock(k), 0))
  }

  function TimerPass(c: Config, s: State, nowUs: int, clock: int -> int): State {
    if Expired(c, s, nowUs) then Timeout(s, clock) else s
  }

  datatype Event = Send(ts: int) | Ack(ackSeq: nat, ecn: bool) | Timer(nowUs: int, clock: int -> int)

  predicate Enabled(limit: Option<nat>, s: State, e: Event) {
    match e
    case Send(_) => CanSend(s, limit)
    case Ack(ackSeq, _) => ackSeq < s.nextSeq
    case Timer(_, _) => true
  }

  function Apply(c: Config, s: State, e: Event): State {
    match e
    case Send(ts) => SendNext(s, ts)
    case Ack(ackSeq, ecn) => Receive(c, s, ackSeq, ecn)
    case Timer(nowUs, clock) => TimerPass(c, s, nowUs, clock)
  }

  predicate Accepts(s: State, e: Event) {
    e.Ack? && !Stale(s, e.ackSeq)
  }

  predicate Updates(s: State, e: Event) {
    Accepts(s, e) && GateOpen(AtGate(s, e.ackSeq, e.ecn))
  }

  predicate Run(c: Config, limit: Option<nat>, trace: seq<State>, events: seq<Event>) {
    && |trace| == |events| + 1
    && forall i :: 0 <= i < |events| ==>
                     Enabled(limit, trace[i], events[i]) && trace[i + 1] == Apply(c, trace[i], events[i])
  }

  predicate FromStart(c: Config, trace: seq<State>, wInit: nat) {
    c.Valid() && 1 <= wInit <= c.wMax && |trace| > 0 && trace[0] == Init(wInit)
  }
}
