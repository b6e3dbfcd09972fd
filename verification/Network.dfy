/**
 * Sender, switches, reflector and sender again, over a network that may lose, duplicate
 * and reorder.  Whatever was ever put on the wire stays available: a message may be taken
 * any number of times, in any order, or never.
 */
module Network {
  import opened Common
  import opened Bytes
  import opened WireFormat
  import opened Utilization
  import opened Window
  import opened SenderSpec
  import opened Conservation
  import CWireFormat
  import DataPlane
  import Reflector

  datatype Transmission = Transmission(seqNo: nat, sentUs: nat) {
    predicate Valid() {
      Fits(4, seqNo) && Fits(8, sentUs)
    }
  }

  /** A message in the network, with the transmission it stems from and the records that
      the switches it crossed offered, in path order. */
  datatype Message = Message(payload: bytes, origin: Transmission, offered: seq<IntHop>)

  datatype Net = Net(sender: State, sent: set<Transmission>, data: set<Message>, acks: set<Message>,
                     reflected: set<nat>)

  datatype Event =
    | SendPacket(ts: nat)
    | Timer(nowUs: int, clock: int -> int)
    | CrossSwitch(m: Message, record: IntHop)
    | Reflect(m: Message, ecn: nat, recvUs: nat)
    | Deliver(m: Message, now: real)

  function Fresh(t: Transmission, padding: nat): Message
    requires t.Valid()
  {
    Message(CWireFormat.DataBody(t.seqNo, t.sentUs, padding), t, [])
  }

  predicate GoodClock(s: State, clock: int -> int) {
    forall k :: k in s.inFlight ==> k >= 0 && Fits(4, k) && Fits(8, clock(k))
  }

  /** The sender transmits while sequence numbers fit their field; every other step only
      needs its message to be on the wire. */
  predicate Enabled(limit: Option<nat>, n: Net, e: Event) {
    match e
    case SendPacket(ts) => CanSend(n.sender, limit) && Fits(4, n.sender.nextSeq) && Fits(8, ts)
    case Timer(_, clock) => GoodClock(n.sender, clock)
    case CrossSwitch(m, record) => m in n.data && record.InRange() && |m.payload| >= SHIM_SIZE
    case Reflect(m, _, recvUs) => m in n.data && Fits(8, recvUs)
    case Deliver(m, _) => m in n.acks
  }

  function Resends(s: State, clock: int -> int): (ts: set<Transmission>)
    requires GoodClock(s, clock)
    ensures forall t :: t in ts ==> t.Valid() && t.seqNo in s.inFlight
  {
    set k | k in s.inFlight :: Transmission(k, clock(k))
  }

  function Freshes(ts: set<Transmission>, padding: nat): (ms: set<Message>)
    requires forall t :: t in ts ==> t.Valid()
    ensures forall m :: m in ms ==> m.origin in ts && m.origin.Valid() && m == Fresh(m.origin, padding)
  {
    set t | t in ts :: Fresh(t, padding)
  }

  /** Decoded fields are unsigned, whatever the bytes. */
  lemma ParsedInRange(b: bytes)
    ensures var p := Reflector.ParseAck(b);
            p.Some? ==> AllInRange(p.value.hops) && Reported(p.value.hops) && p.value.payload.seqNo >= 0
  {
    if Reflector.ParseAck(b).Some? {
      DataPlane.PayloadSplits(b);
    }
  }

  function Apply(v: Variant, c: Config, padding: nat, limit: Option<nat>, n: Net, e: Event): Net
    requires c.Valid() && Enabled(limit, n, e)
  {
    match e
    case SendPacket(ts) =>
      var t := Transmission(n.sender.nextSeq, ts);
      n.(sender := SendNext(n.sender, ts), sent := n.sent + {t}, data := n.data + {Fresh(t, padding)})
    case Timer(nowUs, clock) =>
      if !Expired(c, n.sender, nowUs) then n
      else
        var ts := Resends(n.sender, clock);
        n.(sender := Timeout(n.sender, clock), sent := n.sent + ts, data := n.data + Freshes(ts, padding))
    case CrossSwitch(m, record) =>
      n.(data := n.data + {Message(DataPlane.OneSwitch(m.payload, record), m.origin, m.offered + [record])})
    case Reflect(m, ecn, recvUs) =>
      var ack := Reflector.BuildAck(m.payload, ecn, recvUs);
      if ack.None? then n
      else n.(acks := n.acks + {m.(payload := ack.value)}, reflected := n.reflected + {m.origin.seqNo})
    case Deliver(m, now) =>
      var p := Reflector.ParseAck(m.payload);
      ParsedInRange(m.payload);
      if p.None? then n else n.(sender := Receive(v, c, n.sender, p.value.payload.seqNo, p.value.hops, now))
  }

  predicate Run(v: Variant, c: Config, padding: nat, limit: Option<nat>, trace: seq<Net>, events: seq<Event>)
    requires c.Valid()
  {
    && |trace| == |events| + 1
    && forall i :: 0 <= i < |events| ==>
                     Enabled(limit, trace[i], events[i])
                     && trace[i + 1] == Apply(v, c, padding, limit, trace[i], events[i])
  }

  predicate FromEmpty(c: Config, trace: seq<Net>, wInit: nat, t0: real) {
    1 <= wInit <= c.wMax && |trace| > 0 && trace[0] == Net(Init(wInit, t0), {}, {}, {}, {})
  }

  /** A data message is its transmission's packet after the switches it crossed. */
  predicate GoodData(padding: nat, m: Message) {
    && m.origin.Valid() && AllInRange(m.offered)
    && m.payload == DataPlane.AfterPath(CWireFormat.DataBody(m.origin.seqNo, m.origin.sentUs, padding), m.offered)
  }

  /** An ACK parses, at either sender, to its transmission's sequence number and to the
      records of the first four switches on its path, the last of them in front. */
  predicate GoodAck(m: Message) {
    && AllInRange(m.offered)
    && Reflector.ParseAck(m.payload).Some?
    && Reflector.ParseAckC(m.payload) == Reflector.ParseAck(m.payload)
    && Reflector.ParseAck(m.payload).value.payload.seqNo == m.origin.seqNo
    && Reflector.ParseAck(m.payload).value.hops == DataPlane.Recorded(m.offered)
  }

  predicate NetInv(c: Config, padding: nat, n: Net) {
    && Inv(c, n.sender)
    && (forall t :: t in n.sent ==> t.Valid() && t.seqNo < n.sender.nextSeq)
    && (forall m :: m in n.data ==> GoodData(padding, m) && m.origin in n.sent)
    && (forall m :: m in n.acks ==> GoodAck(m) && m.origin in n.sent && m.origin.seqNo in n.reflected)
    && (n.sender.cumAcked == -1 || n.sender.cumAcked in n.reflected)
  }

  lemma SwitchKeepsGood(padding: nat, m: Message, record: IntHop)
    requires GoodData(padding, m) && record.InRange() && |m.payload| >= SHIM_SIZE
    ensures GoodData(padding, Message(DataPlane.OneSwitch(m.payload, record), m.origin, m.offered + [record]))
  {
    var offered := m.offered + [record];
    assert offered[..|offered| - 1] == m.offered;
  }

  /** What the reflector makes of a message that crossed any number of switches. */
  lemma ReflectedIsGood(padding: nat, m: Message, ecn: nat, nowUs: nat)
    requires GoodData(padding, m) && Fits(8, nowUs)
    ensures Reflector.BuildAck(m.payload, ecn, nowUs).Some?
    ensures GoodAck(m.(payload := Reflector.BuildAck(m.payload, ecn, nowUs).value))
  {
    var payload, hops := Payload(m.origin.seqNo, m.origin.sentUs, 0), DataPlane.Recorded(m.offered);
    assert Fits(4, 0);
    DataPlane.PathRecords(payload, Zeros(padding), m.offered);
    var p := Packet(Shim(0, |hops|, MAX_HOPS, 0), hops, payload);
    LayoutRoundTrip(p, Zeros(padding));
    assert m.payload == Layout(p) + Zeros(padding);
    Reflector.AckEchoesData(m.payload, ecn, nowUs);
  }

  lemma DeliveredIsSent(c: Config, padding: nat, n: Net, m: Message)
    requires NetInv(c, padding, n) && m in n.acks
    ensures var p := Reflector.ParseAck(m.payload);
            && p.Some? && Reported(p.value.hops)
            && 0 <= p.value.payload.seqNo == m.origin.seqNo < n.sender.nextSeq
  {
    assert GoodAck(m);
    ParsedInRange(m.payload);
  }

  /** A sender step that keeps the invariant, sends further packets and advances to a
      reflected one, if at all. */
  lemma SenderMoves(c: Config, padding: nat, n: Net, s: State, ts: set<Transmission>)
    requires NetInv(c, padding, n) && Inv(c, s) && s.nextSeq >= n.sender.nextSeq
    requires s.cumAcked == n.sender.cumAcked || s.cumAcked in n.reflected
    requires forall t :: t in ts ==> t.Valid() && t.seqNo < s.nextSeq
    ensures NetInv(c, padding, n.(sender := s, sent := n.sent + ts, data := n.data + Freshes(ts, padding)))
  {
    forall m | m in Freshes(ts, padding)
      ensures GoodData(padding, m)
    {
      assert DataPlane.AfterPath(m.payload, []) == m.payload;
    }
  }

  lemma DataGrows(c: Config, padding: nat, n: Net, m: Message)
    requires NetInv(c, padding, n) && GoodData(padding, m) && m.origin in n.sent
    ensures NetInv(c, padding, n.(data := n.data + {m}))
  {
  }

  lemma AcksGrow(c: Config, padding: nat, n: Net, m: Message)
    requires NetInv(c, padding, n) && GoodAck(m) && m.origin in n.sent
    ensures NetInv(c, padding, n.(acks := n.acks + {m}, reflected := n.reflected + {m.origin.seqNo}))
  {
  }

  lemma SendKeepsNet(c: Config, padding: nat, limit: Option<nat>, n: Net, ts: nat)
    requires NetInv(c, padding, n) && CanSend(n.sender, limit) && Fits(4, n.sender.nextSeq) && Fits(8, ts)
    ensures var t := Transmission(n.sender.nextSeq, ts);
            NetInv(c, padding, n.(sender := SendNext(n.sender, ts), sent := n.sent + {t},
                                  data := n.data + {Fresh(t, padding)}))
  {
    SendKeepsInv(c, n.sender, limit, ts);
    var t := Transmission(n.sender.nextSeq, ts);
    assert Freshes({t}, padding) == {Fresh(t, padding)};
    SenderMoves(c, padding, n, SendNext(n.sender, ts), {t});
  }

  lemma DeliverKeepsNet(v: Variant, c: Config, padding: nat, n: Net, m: Message, now: real)
    requires c.Valid() && NetInv(c, padding, n) && m in n.acks
    ensures var p := Reflector.ParseAck(m.payload);
            && p.Some? && Reported(p.value.hops) && p.value.payload.seqNo >= 0
            && NetInv(c, padding, n.(sender := Receive(v, c, n.sender, p.value.payload.seqNo, p.value.hops, now)))
  {
    DeliveredIsSent(c, padding, n, m);
    var p := Reflector.ParseAck(m.payload).value;
    var s := Receive(v, c, n.sender, p.payload.seqNo, p.hops, now);
    ReceiveKeepsInv(v, c, n.sender, p.payload.seqNo, p.hops, now);
    SenderAdvances(c, padding, n, s);
  }

  lemma SenderAdvances(c: Config, padding: nat, n: Net, s: State)
    requires NetInv(c, padding, n) && Inv(c, s) && s.nextSeq >= n.sender.nextSeq
    requires s.cumAcked == n.sender.cumAcked || s.cumAcked in n.reflected
    ensures NetInv(c, padding, n.(sender := s))
  {
  }

  lemma StepKeepsNet(v: Variant, c: Config, padding: nat, limit: Option<nat>, n: Net, e: Event)
    requires c.Valid() && NetInv(c, padding, n) && Enabled(limit, n, e)
    ensures NetInv(c, padding, Apply(v, c, padding, limit, n, e))
  {
    match e
    case SendPacket(ts) => SendKeepsNet(c, padding, limit, n, ts);
    case Timer(nowUs, clock) =>
      TimeoutKeepsInv(c, n.sender, clock);
      SenderMoves(c, padding, n, Timeout(n.sender, clock), Resends(n.sender, clock));
    case CrossSwitch(m, record) =>
      SwitchKeepsGood(padding, m, record);
      DataGrows(c, padding, n, Message(DataPlane.OneSwitch(m.payload, record), m.origin, m.offered + [record]));
    case Reflect(m, ecn, recvUs) =>
      ReflectedIsGood(padding, m, ecn, recvUs);
      AcksGrow(c, padding, n, m.(payload := Reflector.BuildAck(m.payload, ecn, recvUs).value));
    case Deliver(m, now) => DeliverKeepsNet(v, c, padding, n, m, now);
  }

  /** End to end, from an empty network: in every reachable state every ACK on the wire
      carries a sequence number that was sent and the records of one transmission of it,
      the sender's invariant holds, and its cumulative point is -1 or was reflected. */
  lemma {:induction false} RunKeepsNet(v: Variant, c: Config, padding: nat, limit: Option<nat>, trace: seq<Net>,
                                       events: seq<Event>, wInit: nat, t0: real, i: nat)
    requires c.Valid() && Run(v, c, padding, limit, trace, events) && FromEmpty(c, trace, wInit, t0) && i <= |events|
    ensures NetInv(c, padding, trace[i])
  {
    if i == 0 {
      InitInv(c, wInit, t0);
    } else {
      RunKeepsNet(v, c, padding, limit, trace, events, wInit, t0, i - 1);
      StepKeepsNet(v, c, padding, limit, trace[i - 1], events[i - 1]);
    }
  }

  /** The sender's event behind a network event, if there is one. */
  function SenderEvent(n: Net, e: Event): Option<SenderSpec.Event> {
    match e
    case SendPacket(ts) => Some(SenderSpec.Send(ts))
    case Timer(nowUs, clock) => Some(SenderSpec.Timer(nowUs, clock))
    case Deliver(m, now) =>
      var p := Reflector.ParseAck(m.payload);
      ParsedInRange(m.payload);
      if p.None? then None else Some(SenderSpec.Ack(p.value.payload.seqNo, p.value.hops, now))
    case _ => None
  }

  /** The network discharges what the sender's own theorems assume of its ACKs: seen from
      the sender, a network step is an enabled step or none. */
  lemma NetworkStepIsSenderStep(v: Variant, c: Config, padding: nat, limit: Option<nat>, n: Net, e: Event)
    requires c.Valid() && NetInv(c, padding, n) && Enabled(limit, n, e)
    ensures var n', se := Apply(v, c, padding, limit, n, e), SenderEvent(n, e);
            if se.None? then n'.sender == n.sender
            else SenderSpec.Enabled(limit, n.sender, se.value)
                 && n'.sender == SenderSpec.Apply(v, c, n.sender, se.value)
  {
    if e.Deliver? {
      DeliveredIsSent(c, padding, n, e.m);
    }
  }

  /** A run of the sender's own machine, from its initial state to s. */
  ghost predicate Reaches(v: Variant, c: Config, limit: Option<nat>, st: seq<State>, se: seq<SenderSpec.Event>,
                          wInit: nat, t0: real, s: State)
    requires c.Valid()
  {
    SenderSpec.Run(v, c, limit, st, se) && FromStart(c, st, wInit, t0) && st[|se|] == s
  }

  /** A run of the sender's own machine that ends where a network step starts goes on to
      where that step leads. */
  lemma SenderRunGrows(v: Variant, c: Config, padding: nat, limit: Option<nat>, n: Net, e: Event, n': Net,
                       st: seq<State>, se: seq<SenderSpec.Event>, wInit: nat, t0: real)
      returns (st': seq<State>, se': seq<SenderSpec.Event>)
    requires c.Valid() && NetInv(c, padding, n) && Enabled(limit, n, e) && n' == Apply(v, c, padding, limit, n, e)
    requires Reaches(v, c, limit, st, se, wInit, t0, n.sender)
    ensures Reaches(v, c, limit, st', se', wInit, t0, n'.sender)
  {
    NetworkStepIsSenderStep(v, c, padding, limit, n, e);
    var x := SenderEvent(n, e);
    if x.None? {
      st', se' := st, se;
    } else {
      RunExtends(v, c, limit, st, se, x.value);
      st', se' := st + [n'.sender], se + [x.value];
    }
  }

  /** What a run says about one of its steps. */
  lemma StepOfRun(v: Variant, c: Config, padding: nat, limit: Option<nat>, trace: seq<Net>, events: seq<Event>, i: nat)
    requires c.Valid() && Run(v, c, padding, limit, trace, events) && i < |events|
    ensures Enabled(limit, trace[i], events[i])
    ensures trace[i + 1] == Apply(v, c, padding, limit, trace[i], events[i])
  {
  }

  lemma ReachesNext(v: Variant, c: Config, padding: nat, limit: Option<nat>, trace: seq<Net>, events: seq<Event>,
                    wInit: nat, t0: real, i: nat, st: seq<State>, se: seq<SenderSpec.Event>)
      returns (st': seq<State>, se': seq<SenderSpec.Event>)
    requires c.Valid() && Run(v, c, padding, limit, trace, events) && FromEmpty(c, trace, wInit, t0) && i < |events|
    requires Reaches(v, c, limit, st, se, wInit, t0, trace[i].sender)
    ensures Reaches(v, c, limit, st', se', wInit, t0, trace[i + 1].sender)
  {
    RunKeepsNet(v, c, padding, limit, trace, events, wInit, t0, i);
    StepOfRun(v, c, padding, limit, trace, events, i);
    st', se' := SenderRunGrows(v, c, padding, limit, trace[i], events[i], trace[i + 1], st, se, wInit, t0);
  }

  lemma {:induction false} RunReaches(v: Variant, c: Config, padding: nat, limit: Option<nat>, trace: seq<Net>,
                                      events: seq<Event>, wInit: nat, t0: real, i: nat)
      returns (st: seq<State>, se: seq<SenderSpec.Event>)
    requires c.Valid() && Run(v, c, padding, limit, trace, events) && FromEmpty(c, trace, wInit, t0) && i <= |events|
    ensures Reaches(v, c, limit, st, se, wInit, t0, trace[i].sender)
  {
    if i == 0 {
      st, se := [Init(wInit, t0)], [];
    } else {
      st, se := RunReaches(v, c, padding, limit, trace, events, wInit, t0, i - 1);
      st, se := ReachesNext(v, c, padding, limit, trace, events, wInit, t0, i - 1, st, se);
    }
  }

  /** Every state the sender reaches over the network, it reaches in a run of its own state
      machine; so what holds of all sender runs holds end to end. */
  lemma SenderRunOf(v: Variant, c: Config, padding: nat, limit: Option<nat>, trace: seq<Net>,
                    events: seq<Event>, wInit: nat, t0: real, i: nat)
      returns (st: seq<State>, se: seq<SenderSpec.Event>)
    requires c.Valid() && Run(v, c, padding, limit, trace, events) && FromEmpty(c, trace, wInit, t0) && i <= |events|
    ensures SenderSpec.Run(v, c, limit, st, se) && FromStart(c, st, wInit, t0)
    ensures st[|se|] == trace[i].sender
  {
    st, se := RunReaches(v, c, padding, limit, trace, events, wInit, t0, i);
  }

  // ---- a transfer can always be completed over the network ----

  predicate Among(ts: set<Transmission>, k: nat) {
    exists t :: t in ts && t.seqNo == k
  }

  /** Every number so far was transmitted, and every transmission is still on the wire. */
  predicate Carried(padding: nat, limit: nat, n: Net) {
    && n.sender.nextSeq <= limit
    && (forall k: nat :: k < n.sender.nextSeq ==> Among(n.sent, k))
    && (forall t :: t in n.sent ==> t.Valid() && Fresh(t, padding) in n.data)
  }

  lemma SentGrows(padding: nat, limit: nat, n: Net, s: State, ts: set<Transmission>)
    requires Carried(padding, limit, n) && forall t :: t in ts ==> t.Valid()
    requires s.nextSeq <= limit && forall k: nat :: n.sender.nextSeq <= k < s.nextSeq ==> Among(ts, k)
    ensures Carried(padding, limit, n.(sender := s, sent := n.sent + ts, data := n.data + Freshes(ts, padding)))
  {
    var n' := n.(sender := s, sent := n.sent + ts, data := n.data + Freshes(ts, padding));
    forall k: nat | k < s.nextSeq
      ensures Among(n'.sent, k)
    {
      if k < n.sender.nextSeq {
        assert Among(n.sent, k);
        var t :| t in n.sent && t.seqNo == k;
        assert t in n'.sent;
      } else {
        assert Among(ts, k);
        var t :| t in ts && t.seqNo == k;
        assert t in n'.sent;
      }
    }
  }

  lemma SenderOnlySends(v: Variant, c: Config, padding: nat, limit: nat, n: Net, e: Event)
    requires c.Valid() && NetInv(c, padding, n) && Enabled(Some(limit), n, e)
    ensures Apply(v, c, padding, Some(limit), n, e).sender.nextSeq
            == if e.SendPacket? then n.sender.nextSeq + 1 else n.sender.nextSeq
  {
    NetworkStepIsSenderStep(v, c, padding, Some(limit), n, e);
    var se := SenderEvent(n, e);
    if se.Some? {
      StepKeepsInv(v, c, Some(limit), n.sender, se.value);
    }
  }

  lemma StepKeepsCarried(v: Variant, c: Config, padding: nat, limit: nat, n: Net, e: Event)
    requires c.Valid() && NetInv(c, padding, n) && Enabled(Some(limit), n, e) && Carried(padding, limit, n)
    ensures Carried(padding, limit, Apply(v, c, padding, Some(limit), n, e))
  {
    SenderOnlySends(v, c, padding, limit, n, e);
    var n' := Apply(v, c, padding, Some(limit), n, e);
    match e
    case SendPacket(ts) =>
      var t := Transmission(n.sender.nextSeq, ts);
      assert Freshes({t}, padding) == {Fresh(t, padding)};
      assert t in {t} && Among({t}, n.sender.nextSeq);
      SentGrows(padding, limit, n, n'.sender, {t});
    case Timer(nowUs, clock) =>
      SentGrows(padding, limit, n, n'.sender, Resends(n.sender, clock));
    case CrossSwitch(_, _) => StillCarried(padding, limit, n, n');
    case Reflect(_, _, _) => StillCarried(padding, limit, n, n');
    case Deliver(_, _) => StillCarried(padding, limit, n, n');
  }

  lemma StillCarried(padding: nat, limit: nat, n: Net, n': Net)
    requires Carried(padding, limit, n) && n'.sender.nextSeq == n.sender.nextSeq
    requires n'.sent == n.sent && n.data <= n'.data
    ensures Carried(padding, limit, n')
  {
    forall k: nat | k < n'.sender.nextSeq
      ensures Among(n'.sent, k)
    {
      assert Among(n.sent, k);
    }
  }

  lemma {:induction false} RunKeepsCarried(v: Variant, c: Config, padding: nat, limit: nat, trace: seq<Net>,
                                           events: seq<Event>, wInit: nat, t0: real, i: nat)
    requires c.Valid() && Run(v, c, padding, Some(limit), trace, events) && FromEmpty(c, trace, wInit, t0)
    requires i <= |events|
    ensures NetInv(c, padding, trace[i]) && Carried(padding, limit, trace[i])
  {
    RunKeepsNet(v, c, padding, Some(limit), trace, events, wInit, t0, i);
    if i > 0 {
      RunKeepsCarried(v, c, padding, limit, trace, events, wInit, t0, i - 1);
      StepKeepsCarried(v, c, padding, limit, trace[i - 1], events[i - 1]);
    }
  }

  /** Any packet on the wire can be reflected, and nothing but its ACK is added. */
  lemma ReflectAdds(v: Variant, c: Config, padding: nat, limit: Option<nat>, n: Net, m: Message) returns (ack: Message)
    requires c.Valid() && NetInv(c, padding, n) && m in n.data
    ensures Enabled(limit, n, Reflect(m, 0, 0))
    ensures var n' := Apply(v, c, padding, limit, n, Reflect(m, 0, 0));
            n'.sender == n.sender && ack in n'.acks && ack.origin == m.origin
  {
    assert Fits(8, 0);
    ReflectedIsGood(padding, m, 0, 0);
    ack := m.(payload := Reflector.BuildAck(m.payload, 0, 0).value);
  }

  /** Whatever the network did before, the last packet sent can still be reflected. */
  lemma ReflectLast(v: Variant, c: Config, padding: nat, limit: nat, n: Net) returns (e: Event, ack: Message)
    requires c.Valid() && NetInv(c, padding, n) && Carried(padding, limit, n)
    requires n.sender.nextSeq > n.sender.cumAcked + 1
    ensures Enabled(Some(limit), n, e)
    ensures var n' := Apply(v, c, padding, Some(limit), n, e);
            && NetInv(c, padding, n') && Carried(padding, limit, n') && n'.sender == n.sender
            && ack in n'.acks && ack.origin.seqNo == n.sender.nextSeq - 1
  {
    assert Among(n.sent, n.sender.nextSeq - 1);
    var t :| t in n.sent && t.seqNo == n.sender.nextSeq - 1;
    var m := Fresh(t, padding);
    e := Reflect(m, 0, 0);
    ack := ReflectAdds(v, c, padding, Some(limit), n, m);
    StepKeepsNet(v, c, padding, Some(limit), n, e);
    StepKeepsCarried(v, c, padding, limit, n, e);
  }

  lemma DeliverAcks(v: Variant, c: Config, padding: nat, limit: nat, n: Net, m: Message, now: real)
    requires c.Valid() && NetInv(c, padding, n) && Carried(padding, limit, n) && m in n.acks
    requires m.origin.seqNo > n.sender.cumAcked
    ensures Enabled(Some(limit), n, Deliver(m, now))
    ensures var n' := Apply(v, c, padding, Some(limit), n, Deliver(m, now));
            && NetInv(c, padding, n') && Carried(padding, limit, n')
            && n'.sender.nextSeq == n.sender.nextSeq && n'.sender.cumAcked == m.origin.seqNo
  {
    var e := Deliver(m, now);
    StepKeepsNet(v, c, padding, Some(limit), n, e);
    StepKeepsCarried(v, c, padding, limit, n, e);
    SenderOnlySends(v, c, padding, limit, n, e);
    DeliveredIsSent(c, padding, n, m);
    var p := Reflector.ParseAck(m.payload).value;
    ReceiveKeepsInv(v, c, n.sender, p.payload.seqNo, p.hops, now);
  }

  lemma RunsJoin(v: Variant, c: Config, padding: nat, limit: Option<nat>, first: seq<Net>, events: seq<Event>,
                 second: seq<Net>, more: seq<Event>)
    requires c.Valid() && Run(v, c, padding, limit, first, events) && Run(v, c, padding, limit, second, more)
    requires second[0] == first[|events|]
    ensures Run(v, c, padding, limit, first + second[1..], events + more)
  {
    var trace', events' := first + second[1..], events + more;
    forall i | 0 <= i < |events'|
      ensures Enabled(limit, trace'[i], events'[i])
              && trace'[i + 1] == Apply(v, c, padding, limit, trace'[i], events'[i])
    {
      if i < |events| {
        assert trace'[i] == first[i] && events'[i] == events[i] && trace'[i + 1] == first[i + 1];
      } else {
        var j := i - |events|;
        assert trace'[i] == second[j] && events'[i] == more[j] && trace'[i + 1] == second[j + 1];
      }
    }
  }

  predicate Nearer(s: State, s': State) {
    s'.cumAcked > s.cumAcked || (s'.cumAcked == s.cumAcked && s'.nextSeq > s.nextSeq)
  }

  lemma OneStep(v: Variant, c: Config, padding: nat, limit: Option<nat>, n: Net, e: Event)
    requires c.Valid() && Enabled(limit, n, e)
    ensures Run(v, c, padding, limit, [n, Apply(v, c, padding, limit, n, e)], [e])
  {
  }

  lemma SendOne(v: Variant, c: Config, padding: nat, limit: nat, n: Net) returns (trace: seq<Net>, events: seq<Event>)
    requires c.Valid() && NetInv(c, padding, n) && Carried(padding, limit, n) && limit <= Pow256(4)
    requires CanSend(n.sender, Some(limit))
    ensures Run(v, c, padding, Some(limit), trace, events) && trace[0] == n
    ensures NetInv(c, padding, trace[|events|]) && Carried(padding, limit, trace[|events|])
    ensures Nearer(n.sender, trace[|events|].sender)
  {
    var e := SendPacket(0);
    assert Fits(8, 0);
    OneStep(v, c, padding, Some(limit), n, e);
    StepKeepsNet(v, c, padding, Some(limit), n, e);
    StepKeepsCarried(v, c, padding, limit, n, e);
    trace, events := [n, Apply(v, c, padding, Some(limit), n, e)], [e];
  }

  /** Reflecting the last packet and delivering its ACK acknowledges the whole flight. */
  lemma AckLast(v: Variant, c: Config, padding: nat, limit: nat, n: Net) returns (trace: seq<Net>, events: seq<Event>)
    requires c.Valid() && NetInv(c, padding, n) && Carried(padding, limit, n)
    requires n.sender.nextSeq > n.sender.cumAcked + 1
    ensures Run(v, c, padding, Some(limit), trace, events) && trace[0] == n
    ensures NetInv(c, padding, trace[|events|]) && Carried(padding, limit, trace[|events|])
    ensures Nearer(n.sender, trace[|events|].sender)
  {
    var e1, ack := ReflectLast(v, c, padding, limit, n);
    var n1 := Apply(v, c, padding, Some(limit), n, e1);
    OneStep(v, c, padding, Some(limit), n, e1);
    var e2 := Deliver(ack, n.sender.lastUpdateTime);
    DeliverAcks(v, c, padding, limit, n1, ack, n.sender.lastUpdateTime);
    var n2 := Apply(v, c, padding, Some(limit), n1, e2);
    OneStep(v, c, padding, Some(limit), n1, e2);
    RunsJoin(v, c, padding, Some(limit), [n, n1], [e1], [n1, n2], [e2]);
    trace, events := [n, n1] + [n1, n2][1..], [e1] + [e2];
  }

  lemma GoOn(v: Variant, c: Config, padding: nat, limit: nat, n: Net) returns (trace: seq<Net>, events: seq<Event>)
    requires c.Valid() && NetInv(c, padding, n) && Carried(padding, limit, n) && limit <= Pow256(4)
    requires !Finished(n.sender, limit)
    ensures Run(v, c, padding, Some(limit), trace, events) && trace[0] == n
    ensures NetInv(c, padding, trace[|events|]) && Carried(padding, limit, trace[|events|])
    ensures Nearer(n.sender, trace[|events|].sender)
  {
    NeverStuck(c, n.sender, limit);
    FlightSize(c, n.sender);
    if n.sender.inFlight != map[] {
      trace, events := AckLast(v, c, padding, limit, n);
    } else {
      trace, events := SendOne(v, c, padding, limit, n);
    }
  }

  /** A run from n to the completed transfer. */
  ghost predicate Completes(v: Variant, c: Config, padding: nat, limit: nat, n: Net,
                            trace: seq<Net>, events: seq<Event>)
    requires c.Valid()
  {
    Run(v, c, padding, Some(limit), trace, events) && trace[0] == n && Finished(trace[|events|].sender, limit)
  }

  lemma CompletesFurther(v: Variant, c: Config, padding: nat, limit: nat, first: seq<Net>, start: seq<Event>,
                         second: seq<Net>, more: seq<Event>)
    requires c.Valid() && Run(v, c, padding, Some(limit), first, start)
    requires Completes(v, c, padding, limit, first[|start|], second, more)
    ensures Completes(v, c, padding, limit, first[0], first + second[1..], start + more)
  {
    RunsJoin(v, c, padding, Some(limit), first, start, second, more);
    var trace, events := first + second[1..], start + more;
    assert trace[|events|] == second[|more|];
  }

  lemma {:induction false} CanComplete(v: Variant, c: Config, padding: nat, limit: nat, n: Net)
      returns (trace: seq<Net>, events: seq<Event>)
    requires c.Valid() && NetInv(c, padding, n) && Carried(padding, limit, n) && limit <= Pow256(4)
    ensures Completes(v, c, padding, limit, n, trace, events)
    decreases limit - n.sender.cumAcked, limit - n.sender.nextSeq
  {
    if Finished(n.sender, limit) {
      trace, events := [n], [];
    } else {
      var first, start := GoOn(v, c, padding, limit, n);
      var second, more := CanComplete(v, c, padding, limit, first[|start|]);
      CompletesFurther(v, c, padding, limit, first, start, second, more);
      trace, events := first + second[1..], start + more;
    }
  }

  /** From every state that sender and network can reach together, whatever was lost,
      duplicated, reordered or timed out so far, transmissions, reflections and deliveries
      can complete the transfer, as long as its numbers fit their field. */
  lemma CanFinishOverNetwork(v: Variant, c: Config, padding: nat, limit: nat, trace: seq<Net>, events: seq<Event>,
                             wInit: nat, t0: real, i: nat) returns (trace': seq<Net>, events': seq<Event>)
    requires c.Valid() && Run(v, c, padding, Some(limit), trace, events) && FromEmpty(c, trace, wInit, t0)
    requires i <= |events| && limit <= Pow256(4)
    ensures Run(v, c, padding, Some(limit), trace', events') && trace'[0] == trace[i]
    ensures Finished(trace'[|events'|].sender, limit)
  {
    RunKeepsCarried(v, c, padding, limit, trace, events, wInit, t0, i);
    trace', events' := CanComplete(v, c, padding, limit, trace[i]);
  }
}
