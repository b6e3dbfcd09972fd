/**
 * extensions/csender/hpcc_sender.c: the control loop over fixed arrays and machine words.
 * Every locked body is shown to follow the state machine of CSenderSpec: from matching
 * states it goes to matching states.
 */
module CSender {
  import opened Common
  import opened WireFormat
  import opened Utilization
  import opened Window
  import opened SenderSpec
  import opened Conservation
  import opened CSenderSpec
  import opened CSenderLaws
  import opened HopTable
  import opened Ring

  const U32 := 0x1_0000_0000

  /** The ring holds the flight of s, with its send times.  Snapshots are not compared:
      the C timer keeps them where the Python timer takes new ones, and V1 never reads them. */
  ghost predicate RingMatches(ring: seq<Slot>, s: State) {
    && Holds(ring, s.cumAcked, s.nextSeq)
    && (forall k: nat :: k in s.inFlight ==> ring[Idx(k)].sentUs == s.inFlight[k].sentUs)
  }

  lemma RingIgnoresControl(ring: seq<Slot>, s: State, s': State)
    requires s'.cumAcked == s.cumAcked && s'.nextSeq == s.nextSeq && s'.inFlight == s.inFlight
    requires RingMatches(ring, s)
    ensures RingMatches(ring, s')
  {
  }

  lemma AdvanceFields(s: State, ackSeq: int)
    ensures var a := Advance(s, ackSeq); a == s.(cumAcked := a.cumAcked, inFlight := a.inFlight)
  {
  }

  lemma SendFields(s: State, ts: int)
    ensures var r := SendNext(s, ts); r == s.(nextSeq := s.nextSeq + 1, inFlight := r.inFlight)
  {
  }

  lemma RingSend(c: Config, ring: seq<Slot>, s: State, x: Slot)
    requires Inv(c, s) && RingMatches(ring, s) && s.nextSeq < EMPTY
    requires |s.inFlight| < INFLIGHT_MAX && x.seqNo == s.nextSeq
    ensures ring[Idx(s.nextSeq)].seqNo == EMPTY
    ensures RingMatches(ring[Idx(s.nextSeq) := x], SendNext(s, x.sentUs))
  {
    FlightSize(c, s);
    NextSlotFree(ring, s.cumAcked, s.nextSeq);
    InsertHolds(ring, s.cumAcked, s.nextSeq, x);
    forall k: nat | k in s.inFlight
      ensures Idx(k) != Idx(s.nextSeq)
    {
      ResiduesDiffer(k, s.nextSeq);
    }
  }

  /** What the ring finds, in terms of the state it holds. */
  lemma FoundInRing(ring: seq<Slot>, s: State, ackSeq: nat)
    requires RingMatches(ring, s) && s.inFlight.Keys == Between(s.cumAcked, s.nextSeq) && ackSeq <= EMPTY
    ensures ring[Idx(ackSeq)].seqNo == ackSeq <==> Found(s, ackSeq)
    ensures ackSeq in s.inFlight <==> s.cumAcked < ackSeq < s.nextSeq
  {
    MarkerFoundIff(ring, s.cumAcked, s.nextSeq);
    if ackSeq != EMPTY {
      FoundIff(ring, s.cumAcked, s.nextSeq, ackSeq);
    } else {
      assert MarkerFree(s) <==> forall k: nat :: s.cumAcked < k < s.nextSeq ==> Idx(k) != Idx(EMPTY);
    }
  }

  lemma NoneHeld(ring: seq<Slot>, next: nat)
    requires Holds(ring, next - 1, next)
    ensures forall j :: 0 <= j < INFLIGHT_MAX ==> ring[j].seqNo == EMPTY
  {
  }

  /** An accepted ACK, once the flight is settled, changes control and anchors only. */
  lemma ReceiveEnds(c: Config, s: State, ackSeq: nat, hops: seq<IntHop>, now: real)
    requires c.Valid() && Inv(c, s) && s.nextSeq <= EMPTY && ackSeq <= EMPTY && Reported(hops)
    requires !Stale(s, ackSeq)
    ensures var a, r := CAdvance(s, ackSeq), CReceive(c, s, ackSeq, hops, now);
            && r == MaybeUpdate(V1, c, CSmooth(c, a, hops), now)
            && r.cumAcked == a.cumAcked && r.nextSeq == a.nextSeq && r.inFlight == a.inFlight
            && (KeepsFlight(s, ackSeq) ==> Inv(c, r))
  {
    var g := CSmooth(c, CAdvance(s, ackSeq), hops);
    UpdateKeepsAnchors(c, g, now);
    if KeepsFlight(s, ackSeq) {
      if ackSeq in s.inFlight {
        AdvanceKeepsInv(c, s, ackSeq);
      }
      assert Inv(c, g);
      UpdateKeepsInv(V1, c, g, now);
    }
  }

  /** Freed slots, and no other change, acknowledge the packets whose slots were freed. */
  lemma RingAdvance(c: Config, ring: seq<Slot>, ring': seq<Slot>, s: State, ackSeq: nat)
    requires Inv(c, s) && RingMatches(ring, s) && s.cumAcked < ackSeq < s.nextSeq
    requires Holds(ring', ackSeq, s.nextSeq)
    requires forall j :: 0 <= j < INFLIGHT_MAX ==> ring'[j] == ring[j] || ring'[j].seqNo == EMPTY
    ensures RingMatches(ring', Advance(s, ackSeq))
  {
    var s' := Advance(s, ackSeq);
    forall k: nat | k in s'.inFlight
      ensures ring'[Idx(k)].sentUs == s'.inFlight[k].sentUs
    {
      assert ring'[Idx(k)].seqNo == k;
      assert k in s.inFlight;
    }
  }

  predicate Resent(x: Slot, x': Slot, clock: int -> int) {
    x' == if x.seqNo == EMPTY then x else x.(sentUs := clock(x.seqNo), rtx := x.rtx + 1)
  }

  lemma RingTimeout(c: Config, ring: seq<Slot>, ring': seq<Slot>, s: State, clock: int -> int)
    requires Inv(c, s) && RingMatches(ring, s) && |ring'| == INFLIGHT_MAX
    requires forall j :: 0 <= j < INFLIGHT_MAX ==> Resent(ring[j], ring'[j], clock)
    ensures RingMatches(ring', Timeout(s, clock))
  {
    var s' := Timeout(s, clock);
    forall k: nat | s.cumAcked < k < s.nextSeq
      ensures ring'[Idx(k)].seqNo == k && ring'[Idx(k)].sentUs == clock(k)
    {
      assert Resent(ring[Idx(k)], ring'[Idx(k)], clock);
    }
  }

  /** The scan over the slots finds an expired one exactly when some packet has expired. */
  lemma RingExpired(c: Config, ring: seq<Slot>, s: State, nowUs: nat)
    requires Inv(c, s) && RingMatches(ring, s)
    ensures CExpired(c, s, nowUs) <==> exists j :: SlotExpired(ring, j, nowUs, RtoUs(c))
  {
    if CExpired(c, s, nowUs) {
      var k :| k in s.inFlight && Sub64(nowUs, s.inFlight[k].sentUs) >= RtoUs(c);
      assert SlotExpired(ring, Idx(k), nowUs, RtoUs(c));
    }
    if j :| SlotExpired(ring, j, nowUs, RtoUs(c)) {
      var k := ring[j].seqNo;
      assert k in s.inFlight && Sub64(nowUs, s.inFlight[k].sentUs) >= RtoUs(c);
    }
  }

  lemma MicrosDiffer(a: nat, b: nat)
    requires a >= b
    ensures Micros(a) - Micros(b) == (a - b) as real / 1000000.0
  {
  }

  /** A 32-bit counter stays the wrapped image of an unbounded one. */
  lemma WrappedNext(n: nat)
    ensures (n % U32 + 1) % U32 == (n + 1) % U32
  {
  }

  function Named(x: HopSlot, switchId: int, port: int): HopSlot {
    x.(switchId := switchId, egressPort := port)
  }

  predicate SlotExpired(ring: seq<Slot>, j: int, nowUs: nat, rto: nat) {
    0 <= j < |ring| && ring[j].seqNo != EMPTY && Sub64(nowUs, ring[j].sentUs) >= rto
  }

  function Limit(maxPackets: int): Option<nat> {
    if maxPackets < 0 then None else Some(maxPackets)
  }

  class Sender {
    const cfg: Config
    const inflight: array<Slot>
    const hops: array<HopSlot>
    var inFlightCount: int
    var nextSeq: nat
    var cumAckedSeq: int
    var w: real
    var wRef: real
    var incarnation: nat
    var uSmoothed: real
    var lastUpdateSeq: int
    var lastUpdateUs: nat

    ghost predicate Shape()
      reads this
    {
      && cfg.Valid() && cfg.wMax <= INFLIGHT_MAX
      && inflight.Length == INFLIGHT_MAX && hops.Length == SIZE && inflight as object != hops
    }

    ghost predicate ControlMatches(s: State)
      reads `w, `wRef, `incarnation, `uSmoothed, `lastUpdateSeq, `lastUpdateUs
    {
      && w == s.w && wRef == s.wRef && incarnation == s.incarnation % U32 && uSmoothed == s.uSmoothed
      && lastUpdateSeq == s.lastUpdateSeq && Micros(lastUpdateUs) == s.lastUpdateTime
    }

    ghost predicate FlightMatches(s: State)
      reads this, inflight
    {
      && nextSeq == s.nextSeq && cumAckedSeq == s.cumAcked
      && inflight.Length == INFLIGHT_MAX && RingMatches(inflight[..], s)
      && inFlightCount == s.nextSeq - 1 - s.cumAcked
    }

    /** Nothing is tracked any more, and the count is one short of that. */
    ghost predicate FlightLost(s: State)
      reads this, inflight
    {
      && nextSeq == s.nextSeq && cumAckedSeq == s.cumAcked == EMPTY && inFlightCount == -1
      && inflight.Length == INFLIGHT_MAX && forall j :: 0 <= j < INFLIGHT_MAX ==> inflight[j].seqNo == EMPTY
    }

    /** Matches, but for the flight, which an ACK of the empty-slot marker has wiped out. */
    ghost predicate Lost(s: State)
      reads this, inflight, hops
    {
      Shape() && ControlMatches(s) && FlightLost(s) && Represents(hops[..], s.anchors)
    }

    ghost predicate Matches(s: State)
      reads this, inflight, hops
    {
      && Shape() && Inv(cfg, s) && ControlMatches(s) && FlightMatches(s) && Represents(hops[..], s.anchors)
    }

    constructor (cfg: Config, wInit: nat, nowUs: nat)
      requires cfg.Valid() && 1 <= wInit <= cfg.wMax <= INFLIGHT_MAX
      ensures Matches(Init(wInit, Micros(nowUs))) && fresh(inflight) && fresh(hops) && this.cfg == cfg
    {
      this.cfg := cfg;
      inflight := new Slot[INFLIGHT_MAX](_ => Slot(EMPTY, 0, 0.0, 0, 0));
      hops := new HopSlot[SIZE](_ => HopSlot(0, 0, false, 0, 0));
      inFlightCount, nextSeq, cumAckedSeq := 0, 0, -1;
      w, wRef, incarnation, uSmoothed := wInit as real, wInit as real, 0, 1.0;
      lastUpdateSeq, lastUpdateUs := -1, nowUs;
      new;
      InitInv(cfg, wInit, Micros(nowUs));
    }

    // ---- packets in flight ----

    method InflightGet(seqNo: nat) returns (e: Option<nat>)
      requires Shape()
      ensures e == if inflight[Idx(seqNo)].seqNo == seqNo then Some(Idx(seqNo)) else None
    {
      var i := Idx(seqNo);
      e := if inflight[i].seqNo == seqNo then Some(i) else None;
    }

    method InflightInsert(seqNo: nat, ts: int)
      requires Shape()
      modifies this`inFlightCount, inflight
      ensures inflight[..] == old(inflight[..])[Idx(seqNo) := Slot(seqNo, ts, wRef, incarnation, 0)]
      ensures inFlightCount == old(inFlightCount) + 1
    {
      inflight[Idx(seqNo)] := Slot(seqNo, ts, wRef, incarnation, 0);
      inFlightCount := inFlightCount + 1;
    }

    /** Each of the packets from the cumulative point up to `upTo` frees exactly its slot, and
        the number that marks empty slots counts as one more of them. */
    method InflightClearUpTo(upTo: nat)
      requires Shape() && Holds(inflight[..], cumAckedSeq, nextSeq) && cumAckedSeq < upTo
      requires upTo < nextSeq || (upTo == EMPTY && inflight[Idx(EMPTY)].seqNo == EMPTY)
      modifies this`inFlightCount, inflight
      ensures upTo < nextSeq ==>
                && Holds(inflight[..], upTo, nextSeq)
                && inFlightCount == old(inFlightCount) - (upTo - cumAckedSeq)
      ensures upTo == EMPTY ==>
                && Holds(inflight[..], nextSeq - 1, nextSeq)
                && inFlightCount == old(inFlightCount) - (nextSeq - 1 - cumAckedSeq) - 1
      ensures forall j :: 0 <= j < INFLIGHT_MAX ==> inflight[j] == old(inflight[j]) || inflight[j].seqNo == EMPTY
    {
      var k := cumAckedSeq + 1;
      while k <= upTo
        invariant cumAckedSeq < k <= upTo + 1
        invariant Holds(inflight[..], Low(k - 1, nextSeq - 1), nextSeq)
        invariant inFlightCount
                  == old(inFlightCount) - (Low(k - 1, nextSeq - 1) - cumAckedSeq) - (if k > EMPTY then 1 else 0)
        invariant upTo == EMPTY ==> inflight[Idx(EMPTY)].seqNo == EMPTY
        invariant forall j :: 0 <= j < INFLIGHT_MAX ==> inflight[j] == old(inflight[j]) || inflight[j].seqNo == EMPTY
      {
        var i := Idx(k);
        ghost var before := inflight[..];
        ClearStep(before, k, nextSeq);
        if inflight[i].seqNo == k {
          inflight[i] := inflight[i].(seqNo := EMPTY);
          inFlightCount := inFlightCount - 1;
          assert inflight[..] == before[i := inflight[i]];
        }
        k := k + 1;
      }
    }

    method SendOne(seqNo: nat, ts: int)
      requires Shape()
      modifies this`inFlightCount, inflight
      ensures var i, x := Idx(seqNo), old(inflight[Idx(seqNo)]);
              if x.seqNo == seqNo
              then inflight[..] == old(inflight[..])[i := x.(sentUs := ts, rtx := x.rtx + 1)]
                   && inFlightCount == old(inFlightCount)
              else inflight[..] == old(inflight[..])[i := Slot(seqNo, ts, wRef, incarnation, 0)]
                   && inFlightCount == old(inFlightCount) + 1
    {
      var e := InflightGet(seqNo);
      if e.Some? {
        var x := inflight[e.value];
        inflight[e.value] := x.(sentUs := ts, rtx := x.rtx + 1);
      } else {
        InflightInsert(seqNo, ts);
      }
    }

    method SendFlight(ts: int, ghost s: State)
      requires Shape() && Inv(cfg, s) && FlightMatches(s) && s.nextSeq < EMPTY && |s.inFlight| < INFLIGHT_MAX
      modifies this`inFlightCount, this`nextSeq, inflight
      ensures FlightMatches(SendNext(s, ts))
      ensures old(ControlMatches(s)) ==> ControlMatches(SendNext(s, ts))
    {
      SendFields(s, ts);
      RingSend(cfg, inflight[..], s, Slot(nextSeq, ts, wRef, incarnation, 0));
      SendOne(nextSeq, ts);
      nextSeq := nextSeq + 1;
    }

    method SendNew(ts: int, ghost limit: Option<nat>, ghost s: State)
      requires Matches(s) && CanSend(s, limit) && s.nextSeq < EMPTY
      modifies this`inFlightCount, this`nextSeq, inflight
      ensures Matches(SendNext(s, ts))
    {
      FlightSize(cfg, s);
      FloorBelow(s.w, cfg.wMax);
      SendKeepsInv(cfg, s, limit, ts);
      SendFields(s, ts);
      SendFlight(ts, s);
    }

    /** The send loop of `main`; `maxPackets` is -1 when there is no limit. */
    method SendLoop(maxPackets: int, clock: int -> int, ghost s: State)
      requires Matches(s) && Fill(cfg, s, Limit(maxPackets), clock).nextSeq <= EMPTY
      modifies this`inFlightCount, this`nextSeq, inflight
      ensures Matches(Fill(cfg, s, Limit(maxPackets), clock))
    {
      ghost var t := s;
      var wInt := w.Floor;
      FlightSize(cfg, s);
      while inFlightCount < wInt && (maxPackets < 0 || nextSeq < maxPackets)
        invariant wInt == w.Floor && Matches(t) && t.cumAcked == s.cumAcked
        invariant Fill(cfg, t, Limit(maxPackets), clock) == Fill(cfg, s, Limit(maxPackets), clock)
        decreases wInt - inFlightCount
      {
        FlightSize(cfg, t);
        FloorBelow(t.w, cfg.wMax);
        FillStep(cfg, t, Limit(maxPackets), clock);
        FillAdds(cfg, SendNext(t, clock(t.nextSeq)), Limit(maxPackets), clock);
        SendNew(clock(nextSeq), Limit(maxPackets), t);
        t := SendNext(t, clock(t.nextSeq));
      }
      FlightSize(cfg, t);
      assert !CanSend(t, Limit(maxPackets));
    }

    // ---- telemetry ----

    method HopLookup(switchId: int, port: int) returns (slot: Option<nat>)
      requires Shape()
      modifies hops
      ensures slot == Probe(old(hops[..]), HopKey(switchId, port), 0)
      ensures slot.None? ==> hops[..] == old(hops[..])
      ensures slot.Some? ==> hops[..] == old(hops[..])[slot.value := Named(old(hops[..])[slot.value], switchId, port)]
    {
      ghost var k := HopKey(switchId, port);
      var h := (switchId * 31 + port) % SIZE;
      var i := 0;
      while i < SIZE
        invariant 0 <= i <= SIZE && hops[..] == old(hops[..])
        invariant Probe(hops[..], k, i) == Probe(hops[..], k, 0)
      {
        var j := (h + i) % SIZE;
        assert j == ProbeSlot(k, i);
        if hops[j].valid && hops[j].switchId == switchId && hops[j].egressPort == port {
          assert hops[..] == hops[..][j := Named(hops[..][j], switchId, port)];
          return Some(j);
        }
        if !hops[j].valid {
          hops[j] := hops[j].(switchId := switchId, egressPort := port);
          return Some(j);
        }
        i := i + 1;
      }
      slot := None;
    }

    /** Replaces the anchor of a port and returns the one it held, if it was primed; a full
        table has no slot for a new port. */
    method SwapAnchor(h: IntHop, ghost m: Anchors) returns (last: Option<Anchor>)
      requires Shape() && Represents(hops[..], m) && h.linkBps != 0
      modifies hops
      ensures last == if KeyOf(h) in m then Some(m[KeyOf(h)]) else None
      ensures Represents(hops[..], CStore(m, h))
    {
      ghost var k, was := KeyOf(h), hops[..];
      LookupFailsIff(was, m, k);
      var found := HopLookup(h.switchId, h.egressPort);
      if found.None? {
        return None;
      }
      LookupFinds(was, m, k);
      var j := found.value;
      var x := hops[j];
      ghost var y := HopSlot(h.switchId, h.egressPort, true, h.egressTstampUs, h.txByteCount);
      assert x == Named(was[j], h.switchId, h.egressPort);
      hops[j] := x.(lastTs := h.egressTstampUs, lastBytes := h.txByteCount, valid := true);
      assert hops[..] == was[j := y];
      StoreIsInsert(was, m, k, y);
      last := if x.valid then Some(Anchor(x.lastTs, x.lastBytes)) else None;
    }

    /** One record of `compute_u`. */
    method SampleHop(h: IntHop, ghost m: Anchors) returns (u: real)
      requires Shape() && Represents(hops[..], m) && h.linkBps >= 0
      modifies hops
      ensures u == HopU(m, h, cfg.baseRtt) && Represents(hops[..], CStore(m, h))
      ensures CSampleLaw(m, h, cfg.baseRtt, u, CStore(m, h))
    {
      CSampleLawIff(m, h, cfg.baseRtt, HopU(m, h, cfg.baseRtt), CStore(m, h));
      if h.linkBps == 0 {
        return 0.0;
      }
      var last := SwapAnchor(h, m);
      if last.None? {
        return 0.0;
      }
      var dt := h.egressTstampUs - last.value.tsUs;
      var db := h.txByteCount - last.value.txBytes;
      if dt <= 0 || db < 0 {
        return 0.0;
      }
      var bBytes := h.linkBps as real * cfg.baseRtt / 8.0;
      if bBytes <= 0.0 {
        return 0.0;
      }
      var txRateBps := (db as real * 8.0 * 1000000.0) / dt as real;
      u := (h.qdepth * QDEPTH_PKT_BYTES) as real / bBytes + txRateBps / h.linkBps as real;
    }

    method ComputeU(records: seq<IntHop>, ghost m: Anchors) returns (uMax: real)
      requires Shape() && Represents(hops[..], m) && AllInRange(records)
      modifies hops
      ensures Reported(records)
      ensures uMax == CAbsorb(m, records, cfg.baseRtt).0
      ensures Represents(hops[..], CAbsorb(m, records, cfg.baseRtt).1)
      ensures CAbsorbLaw(m, records, cfg.baseRtt, uMax, CAbsorb(m, records, cfg.baseRtt).1)
      ensures TableHasRoom(m, records) ==>
                uMax == Absorb(m, records, cfg.baseRtt).0 && Represents(hops[..], Absorb(m, records, cfg.baseRtt).1)
    {
      TableSize(hops[..], m);
      uMax := 0.0;
      var i := 0;
      while i < |records|
        invariant 0 <= i <= |records|
        invariant uMax == CAbsorb(m, records[..i], cfg.baseRtt).0
        invariant Represents(hops[..], CAbsorb(m, records[..i], cfg.baseRtt).1)
      {
        CAbsorbNext(m, records, i, cfg.baseRtt);
        var u := SampleHop(records[i], CAbsorb(m, records[..i], cfg.baseRtt).1);
        if u > uMax {
          uMax := u;
        }
        i := i + 1;
      }
      assert records[..i] == records;
      TableSufficesIff(m, records, cfg.baseRtt);
      CAbsorbObeys(m, records, cfg.baseRtt);
    }

    // ---- the locked bodies ----

    method WindowAfter() returns (wNew: real)
      requires cfg.Valid()
      ensures wNew == NextWindow(cfg, wRef, uSmoothed) && WindowLaw(cfg, wRef, uSmoothed, wNew)
    {
      WindowLawIff(cfg, wRef, uSmoothed, NextWindow(cfg, wRef, uSmoothed));
      var uEff := if uSmoothed < U_FLOOR then U_FLOOR else uSmoothed;
      wNew := wRef / (uEff / cfg.eta) + cfg.wAi;
      wNew := if wNew < W_MIN then W_MIN else if wNew > cfg.wMax as real then cfg.wMax as real else wNew;
    }

    method MaybeUpdateWindow(nowUs: nat, ghost s: State)
      requires Shape() && ControlMatches(s) && cumAckedSeq == s.cumAcked && nowUs >= lastUpdateUs
      modifies this`w, this`wRef, this`incarnation, this`lastUpdateSeq, this`lastUpdateUs
      ensures ControlMatches(MaybeUpdate(V1, cfg, s, Micros(nowUs)))
      ensures if cumAckedSeq >= old(lastUpdateSeq) + (if old(wRef) >= 1.0 then old(wRef).Floor else 1)
                 && (nowUs - old(lastUpdateUs)) as real / 1000000.0 >= cfg.baseRtt
              then && WindowLaw(cfg, old(wRef), uSmoothed, wRef) && w == wRef
                   && incarnation == (if wRef < old(wRef) then (old(incarnation) + 1) % 0x1_0000_0000
                                      else old(incarnation))
                   && lastUpdateSeq == cumAckedSeq && lastUpdateUs == nowUs
              else unchanged(this)
    {
      MicrosDiffer(nowUs, lastUpdateUs);
      if cumAckedSeq < lastUpdateSeq + Max(wRef, 1.0).Floor {
        return;
      }
      if (nowUs - lastUpdateUs) as real / 1000000.0 < cfg.baseRtt {
        return;
      }
      var wNew := WindowAfter();
      if wNew < wRef {
        WrappedNext(s.incarnation);
        incarnation := (incarnation + 1) % U32;
      }
      wRef := wNew;
      w := wNew;
      lastUpdateSeq := cumAckedSeq;
      lastUpdateUs := nowUs;
    }

    method ClearFlight(ackSeq: nat, ghost s: State)
      requires Shape() && Inv(cfg, s) && FlightMatches(s) && s.cumAcked < ackSeq
      requires ackSeq < s.nextSeq || (ackSeq == EMPTY && inflight[Idx(EMPTY)].seqNo == EMPTY)
      modifies this`inFlightCount, this`cumAckedSeq, inflight
      ensures ackSeq < s.nextSeq ==> FlightMatches(Advance(s, ackSeq))
      ensures ackSeq == EMPTY ==> FlightLost(Advance(s, ackSeq))
    {
      ghost var ring := inflight[..];
      AdvanceFields(s, ackSeq);
      InflightClearUpTo(ackSeq);
      if ackSeq < s.nextSeq {
        RingAdvance(cfg, ring, inflight[..], s, ackSeq);
      } else {
        NoneHeld(inflight[..], nextSeq);
      }
      cumAckedSeq := ackSeq;
    }

    /** Frees the slots up to what the ring found and moves the cumulative point to it. */
    method Acknowledge(ackSeq: nat, ghost s: State)
      requires Matches(s) && s.cumAcked < ackSeq
      requires ackSeq < s.nextSeq || (ackSeq == EMPTY && inflight[Idx(EMPTY)].seqNo == EMPTY)
      modifies this`inFlightCount, this`cumAckedSeq, inflight
      ensures cumAckedSeq == ackSeq && lastUpdateUs == old(lastUpdateUs)
      ensures ackSeq < s.nextSeq ==> Matches(Advance(s, ackSeq))
      ensures ackSeq == EMPTY ==> Lost(Advance(s, ackSeq))
    {
      if ackSeq < s.nextSeq {
        AdvanceKeepsInv(cfg, s, ackSeq);
      }
      AdvanceFields(s, ackSeq);
      ClearFlight(ackSeq, s);
    }

    method BlendIn(u: real)
      modifies this`uSmoothed
      ensures uSmoothed == Blend(cfg.tau, old(uSmoothed), u)
    {
      if u > 0.0 {
        uSmoothed := (1.0 - cfg.tau) * uSmoothed + cfg.tau * u;
      }
    }

    /** What the telemetry of an ACK changes: the table and the smoothed utilisation. */
    method ReadRecords(records: seq<IntHop>, ghost s: State)
      requires Shape() && ControlMatches(s) && Represents(hops[..], s.anchors) && AllInRange(records)
      modifies this`uSmoothed, hops
      ensures Reported(records) && ControlMatches(CSmooth(cfg, s, records))
      ensures Represents(hops[..], CSmooth(cfg, s, records).anchors)
      ensures lastUpdateUs == old(lastUpdateUs) && (old(FlightMatches(s)) ==> FlightMatches(s))
    {
      var u := ComputeU(records, s.anchors);
      BlendIn(u);
    }

    /** What an accepted ACK does once the flight is settled: telemetry, then the gate. */
    method Feedback(records: seq<IntHop>, nowUs: nat, ghost s: State)
      requires Shape() && ControlMatches(s) && Represents(hops[..], s.anchors) && cumAckedSeq == s.cumAcked
      requires AllInRange(records) && nowUs >= lastUpdateUs
      modifies this`w, this`wRef, this`incarnation, this`uSmoothed, this`lastUpdateSeq, this`lastUpdateUs, hops
      ensures Reported(records)
      ensures var s' := MaybeUpdate(V1, cfg, CSmooth(cfg, s, records), Micros(nowUs));
              ControlMatches(s') && Represents(hops[..], s'.anchors)
      ensures old(FlightMatches(s)) ==> FlightMatches(s)
      ensures old(FlightLost(s)) ==> FlightLost(s)
    {
      ReadRecords(records, s);
      MaybeUpdateWindow(nowUs, CSmooth(cfg, s, records));
      UpdateKeepsAnchors(cfg, CSmooth(cfg, s, records), Micros(nowUs));
    }

    /** The locked body of `ack_thread` for one parsed ACK, of any 32-bit number. */
    method OnAck(ackSeq: nat, records: seq<IntHop>, nowUs: nat, ghost s: State)
      requires Matches(s) && ackSeq <= EMPTY && AllInRange(records) && nowUs >= lastUpdateUs
      modifies this, inflight, hops
      ensures Reported(records)
      ensures KeepsFlight(s, ackSeq) ==> Matches(CReceive(cfg, s, ackSeq, records, Micros(nowUs)))
      ensures !KeepsFlight(s, ackSeq) ==> Lost(CReceive(cfg, s, ackSeq, records, Micros(nowUs)))
    {
      FoundInRing(inflight[..], s, ackSeq);
      var e := InflightGet(ackSeq);
      if e.Some? {
        Acknowledge(ackSeq, s);
      } else if ackSeq <= cumAckedSeq {
        return;
      }
      ghost var a := CAdvance(s, ackSeq);
      Feedback(records, nowUs, a);
      ReceiveEnds(cfg, s, ackSeq, records, Micros(nowUs));
      if KeepsFlight(s, ackSeq) {
        RingIgnoresControl(inflight[..], a, CReceive(cfg, s, ackSeq, records, Micros(nowUs)));
      }
    }

    method AnyExpired(nowUs: nat) returns (fired: bool)
      requires Shape()
      ensures fired <==> exists j :: SlotExpired(inflight[..], j, nowUs, RtoUs(cfg))
    {
      var rtoUs := RtoUs(cfg);
      var i := 0;
      while i < INFLIGHT_MAX
        invariant 0 <= i <= INFLIGHT_MAX
        invariant forall j :: 0 <= j < i ==> !SlotExpired(inflight[..], j, nowUs, rtoUs)
      {
        if inflight[i].seqNo != EMPTY && Sub64(nowUs, inflight[i].sentUs) >= rtoUs {
          assert SlotExpired(inflight[..], i, nowUs, rtoUs);
          return true;
        }
        i := i + 1;
      }
      fired := false;
    }

    method HalveWindow(ghost s: State, ghost clock: int -> int)
      requires ControlMatches(s)
      modifies this`w, this`wRef, this`incarnation
      ensures ControlMatches(Timeout(s, clock))
    {
      wRef := if wRef / 2.0 < W_MIN then W_MIN else wRef / 2.0;
      w := wRef;
      WrappedNext(s.incarnation);
      incarnation := (incarnation + 1) % U32;
    }

    method Fire(clock: int -> int, ghost s: State)
      requires Matches(s)
      modifies this`w, this`wRef, this`incarnation, this`inFlightCount, inflight
      ensures Matches(Timeout(s, clock))
    {
      TimeoutKeepsInv(cfg, s, clock);
      HalveWindow(s, clock);
      ResendAll(clock, s);
    }

    /** One timer pass: scan for an expired slot, then send every live slot again in place. */
    method RtoCheck(nowUs: nat, clock: int -> int, ghost s: State)
      requires Matches(s)
      modifies this, inflight
      ensures Matches(CTimerPass(cfg, s, nowUs, clock))
      ensures CTimerLaw(cfg, s, nowUs, clock, CTimerPass(cfg, s, nowUs, clock))
    {
      CTimerIsLaw(cfg, s, nowUs, clock, CTimerPass(cfg, s, nowUs, clock));
      RingExpired(cfg, inflight[..], s, nowUs);
      var fired := AnyExpired(nowUs);
      if fired {
        Fire(clock, s);
      }
    }

    /** Sending the packet of a live slot again touches no other slot. */
    method RefreshSlot(i: nat, ts: int)
      requires Shape() && i < INFLIGHT_MAX && Idx(inflight[i].seqNo) == i
      modifies this`inFlightCount, inflight
      ensures inflight[i] == old(inflight[i]).(sentUs := ts, rtx := old(inflight[i]).rtx + 1)
      ensures forall j :: 0 <= j < INFLIGHT_MAX && j != i ==> inflight[j] == old(inflight[j])
      ensures inFlightCount == old(inFlightCount)
    {
      ghost var before := inflight[..];
      SendOne(inflight[i].seqNo, ts);
      forall j | 0 <= j < INFLIGHT_MAX
        ensures inflight[j] == if j == i then before[i].(sentUs := ts, rtx := before[i].rtx + 1) else before[j]
      {
        assert inflight[j] == inflight[..][j];
      }
    }

    method ResendAll(clock: int -> int, ghost s: State)
      requires Shape() && Inv(cfg, s) && FlightMatches(s)
      modifies this`inFlightCount, inflight
      ensures FlightMatches(Timeout(s, clock))
    {
      ghost var ring := inflight[..];
      var i := 0;
      while i < INFLIGHT_MAX
        invariant 0 <= i <= INFLIGHT_MAX && inFlightCount == old(inFlightCount)
        invariant forall j :: 0 <= j < i ==> Resent(ring[j], inflight[j], clock)
        invariant forall j :: i <= j < INFLIGHT_MAX ==> inflight[j] == ring[j]
      {
        if inflight[i].seqNo != EMPTY {
          assert Idx(inflight[i].seqNo) == i;
          RefreshSlot(i, clock(inflight[i].seqNo));
        }
        i := i + 1;
      }
      RingTimeout(cfg, ring, inflight[..], s, clock);
    }
  }
}
