/**
 * The C sender object follows its own state machine through every run, and so the first
 * Python sender for as long as the two machines agree.
 */
module Simulation {
  import opened Common
  import opened WireFormat
  import opened Utilization
  import opened Window
  import opened SenderSpec
  import opened CSenderSpec
  import CSender

  method Step(c: CSender.Sender, e: Event, ghost limit: Option<nat>, ghost s: State)
    requires c.Matches(s) && CEnabled(limit, s, e)
    modifies c, c.inflight, c.hops
    ensures c.Matches(CApply(c.cfg, s, e))
  {
    match e
    case Send(ts) =>
      c.SendNew(ts, limit, s);
    case Ack(ackSeq, hops, now) =>
      c.OnAck(ackSeq, hops, WholeMicros(now), s);
    case Timer(nowUs, clock) =>
      c.RtoCheck(nowUs, clock, s);
  }

  /** What a run says about one of its steps. */
  lemma NextOfRun(c: Config, limit: Option<nat>, trace: seq<State>, events: seq<Event>, i: nat)
    requires c.Valid() && CRun(c, limit, trace, events) && i < |events|
    ensures CEnabled(limit, trace[i], events[i]) && trace[i + 1] == CApply(c, trace[i], events[i])
  {
  }

  method StepOfRun(c: CSender.Sender, events: seq<Event>, i: nat, ghost limit: Option<nat>, ghost trace: seq<State>)
    requires c.cfg.Valid() && CRun(c.cfg, limit, trace, events) && i < |events| && c.Matches(trace[i])
    modifies c, c.inflight, c.hops
    ensures c.Matches(trace[i + 1])
  {
    NextOfRun(c.cfg, limit, trace, events, i);
    Step(c, events[i], limit, trace[i]);
  }

  method DriveFrom(c: CSender.Sender, events: seq<Event>, i: nat, ghost limit: Option<nat>, ghost trace: seq<State>)
    requires c.cfg.Valid() && CRun(c.cfg, limit, trace, events) && i <= |events| && c.Matches(trace[i])
    modifies c, c.inflight, c.hops
    ensures c.Matches(trace[|events|])
    decreases |events| - i
  {
    if i < |events| {
      StepOfRun(c, events, i, limit, trace);
      DriveFrom(c, events, i + 1, limit, trace);
    }
  }

  /** Driven by the events of any run, in any interleaving, the C sender ends in a state
      that matches the run's last: same cumulative point, flight and send times, window,
      smoothed utilisation and anchors, and the incarnation modulo 2^32. */
  method Drive(c: CSender.Sender, events: seq<Event>, ghost limit: Option<nat>, ghost trace: seq<State>)
    requires c.cfg.Valid() && CRun(c.cfg, limit, trace, events) && c.Matches(trace[0])
    modifies c, c.inflight, c.hops
    ensures c.Matches(trace[|events|])
  {
    DriveFrom(c, events, 0, limit, trace);
  }

  /** A run of the first Python sender, all of whose events the two machines agree on, takes
      the C sender to the same end. */
  method DriveV1(c: CSender.Sender, events: seq<Event>, ghost limit: Option<nat>, ghost trace: seq<State>,
                 ghost wInit: nat, ghost t0: real)
    requires c.cfg.Valid() && FromStart(c.cfg, trace, wInit, t0) && c.Matches(trace[0])
    requires Run(V1, c.cfg, limit, trace, events) && AllEnabled(limit, trace, events) && AllAgree(c.cfg, trace, events)
    modifies c, c.inflight, c.hops
    ensures c.Matches(trace[|events|])
  {
    RunAgreesIff(c.cfg, limit, trace, events, wInit, t0);
    Drive(c, events, limit, trace);
  }
}
