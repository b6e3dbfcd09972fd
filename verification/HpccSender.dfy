/**
 * sender/hpcc_sender.py: the controller object, its fields updated in place.  Each method
 * is one body that runs under the sender's lock, proved against a step of SenderSpec.
 */
module HpccSender {
  import opened Common
  import opened WireFormat
  import opened Utilization
  import opened Window
  import opened SenderSpec
  import opened Conservation
  import opened SenderLaws

  class Sender {
    const cfg: Config
    var nextSeq: nat
    var cumAckedSeq: int
    var inFlight: map<int, Entry>
    var w: real
    var wRef: real
    var incarnation: nat
    var uSmoothed: real
    var lastUpdateSeq: int
    var lastUpdateTime: real
    var hopLast: Anchors

    function View(): State
      reads this
    {
      State(nextSeq, cumAckedSeq, inFlight, w, wRef, incarnation, uSmoothed,
            lastUpdateSeq, lastUpdateTime, hopLast)
    }

    constructor (cfg: Config, wInit: nat, now: real)
      requires cfg.Valid() && 1 <= wInit <= cfg.wMax
      ensures this.cfg == cfg && View() == Init(wInit, now) && Inv(cfg, View())
    {
      this.cfg := cfg;
      nextSeq, cumAckedSeq, inFlight := 0, -1, map[];
      w, wRef, incarnation, uSmoothed := wInit as real, wInit as real, 0, 1.0;
      lastUpdateSeq, lastUpdateTime, hopLast := -1, now, map[];
      InitInv(cfg, wInit, now);
    }

    method SendLocked(seqNo: int, ts: int)
      modifies this`inFlight
      ensures View() == Transmit(old(View()), seqNo, ts)
      ensures seqNo in old(inFlight) ==>
                var e := old(inFlight[seqNo]);
                inFlight == old(inFlight)[seqNo := Entry(ts, e.wRef, e.incarnation, e.rtx + 1)]
      ensures seqNo !in old(inFlight) ==> inFlight == old(inFlight)[seqNo := Entry(ts, wRef, incarnation, 0)]
    {
      if seqNo in inFlight {
        var e := inFlight[seqNo];
        inFlight := inFlight[seqNo := Entry(ts, e.wRef, e.incarnation, e.rtx + 1)];
      } else {
        inFlight := inFlight[seqNo := Entry(ts, wRef, incarnation, 0)];
      }
    }

    /** One record of `_compute_u`: the anchor is replaced before the sample is checked. */
    method SampleHop(hop: IntHop) returns (u: real)
      requires hop.linkBps >= 0
      modifies this`hopLast
      ensures u == HopU(old(hopLast), hop, cfg.baseRtt) && hopLast == Store(old(hopLast), hop)
      ensures SampleLaw(old(hopLast), hop, cfg.baseRtt, u, hopLast)
    {
      HopObeys(hopLast, hop, cfg.baseRtt);
      if hop.linkBps == 0 {
        return 0.0;
      }
      var key := HopKey(hop.switchId, hop.egressPort);
      var last := if key in hopLast then Some(hopLast[key]) else None;
      hopLast := hopLast[key := Anchor(hop.egressTstampUs, hop.txByteCount)];
      if last.None? {
        return 0.0;
      }
      var dtUs := hop.egressTstampUs - last.value.tsUs;
      if dtUs <= 0 {
        return 0.0;
      }
      var dBytes := hop.txByteCount - last.value.txBytes;
      if dBytes < 0 {
        return 0.0;
      }
      var bBytes := hop.linkBps as real * cfg.baseRtt / 8.0;
      if bBytes <= 0.0 {
        return 0.0;
      }
      var txRateBps := (dBytes as real * 8.0 * 1000000.0) / dtUs as real;
      u := (hop.qdepth * QDEPTH_PKT_BYTES) as real / bBytes + txRateBps / hop.linkBps as real;
    }

    method ComputeU(hops: seq<IntHop>) returns (uMax: real)
      requires Reported(hops)
      modifies this`hopLast
      ensures (uMax, hopLast) == Absorb(old(hopLast), hops, cfg.baseRtt)
      ensures AbsorbLaw(old(hopLast), hops, cfg.baseRtt, uMax, hopLast)
    {
      uMax := 0.0;
      var i := 0;
      while i < |hops|
        invariant 0 <= i <= |hops|
        invariant (uMax, hopLast) == Absorb(old(hopLast), hops[..i], cfg.baseRtt)
      {
        AbsorbNext(old(hopLast), hops, i, cfg.baseRtt);
        var u := SampleHop(hops[i]);
        if u > uMax {
          uMax := u;
        }
        i := i + 1;
      }
      assert hops[..i] == hops;
      AbsorbLawIff(old(hopLast), hops, cfg.baseRtt, uMax, hopLast);
    }

    method MaybeUpdateWindowLocked(now: real)
      requires cfg.Valid()
      modifies this
      ensures View() == MaybeUpdate(V1, cfg, old(View()), now)
      ensures UpdateLaw(cfg, old(View()), old(wRef), now, View())
    {
      UpdateV1IsLaw(cfg, View(), now, MaybeUpdate(V1, cfg, View(), now));
      if cumAckedSeq < lastUpdateSeq + Max(wRef, 1.0).Floor || now - lastUpdateTime < cfg.baseRtt {
        return;
      }
      var uEff := Max(uSmoothed, U_FLOOR);
      var wNew := wRef / (uEff / cfg.eta) + cfg.wAi;
      wNew := Max(W_MIN, Min(cfg.wMax as real, wNew));
      if wNew < wRef {
        incarnation := incarnation + 1;
      }
      wRef := wNew;
      w := wNew;
      lastUpdateSeq := cumAckedSeq;
      lastUpdateTime := now;
    }

    method PopAcked(ackSeq: nat)
      modifies this`inFlight, this`cumAckedSeq
      ensures View() == Advance(old(View()), ackSeq)
    {
      if ackSeq <= cumAckedSeq {
        return;
      }
      var k := cumAckedSeq + 1;
      while k <= ackSeq
        invariant cumAckedSeq < k <= ackSeq + 1 && cumAckedSeq == old(cumAckedSeq)
        invariant inFlight == map j | j in old(inFlight) && !(cumAckedSeq < j < k) :: old(inFlight)[j]
      {
        inFlight := inFlight - {k};
        k := k + 1;
      }
      cumAckedSeq := ackSeq;
    }

    method BlendIn(u: real)
      modifies this`uSmoothed
      ensures uSmoothed == Blend(cfg.tau, old(uSmoothed), u)
    {
      if u > 0.0 {
        uSmoothed := (1.0 - cfg.tau) * uSmoothed + cfg.tau * u;
      }
    }

    /** The telemetry of one ACK. */
    method SmoothIn(hops: seq<IntHop>)
      requires Reported(hops)
      modifies this`uSmoothed, this`hopLast
      ensures View() == Smooth(cfg, old(View()), hops)
    {
      var u := ComputeU(hops);
      BlendIn(u);
    }

    method OnAckLocked(ackSeq: nat, hops: seq<IntHop>, now: real)
      requires cfg.Valid() && Reported(hops)
      modifies this
      ensures View() == MaybeUpdate(V1, cfg, Smooth(cfg, Advance(old(View()), ackSeq), hops), now)
    {
      PopAcked(ackSeq);
      SmoothIn(hops);
      MaybeUpdateWindowLocked(now);
    }

    /** The body of the listener for one parsed ACK. */
    method ProcessAck(ackSeq: nat, hops: seq<IntHop>, now: real)
      requires cfg.Valid() && Reported(hops)
      modifies this
      ensures View() == Receive(V1, cfg, old(View()), ackSeq, hops, now)
    {
      if ackSeq !in inFlight && ackSeq <= cumAckedSeq {
        return;
      }
      OnAckLocked(ackSeq, hops, now);
    }

    /** Send these packets, in order, as if for the first time. */
    method SendAgain(keys: set<int>, clock: int -> int)
      requires inFlight == map[]
      modifies this`inFlight
      ensures inFlight == map k | k in keys :: Entry(clock(k), wRef, incarnation, 0)
    {
      var pending := keys;
      while pending != {}
        invariant pending <= keys
        invariant inFlight == map k | k in keys && k !in pending :: Entry(clock(k), wRef, incarnation, 0)
        decreases pending
      {
        var k := MinKey(pending);
        SendLocked(k, clock(k));
        pending := pending - {k};
      }
    }

    /** Halve the window, clear the map, and send its old keys again. */
    method GoBackN(clock: int -> int)
      modifies this`w, this`wRef, this`incarnation, this`inFlight
      ensures View() == Timeout(old(View()), clock)
    {
      wRef := Max(W_MIN, wRef / 2.0);
      w := wRef;
      incarnation := incarnation + 1;
      var pending := inFlight.Keys;
      inFlight := map[];
      SendAgain(pending, clock);
    }

    /** One pass of the timer. */
    method RtoCheck(nowUs: int, clock: int -> int)
      modifies this`w, this`wRef, this`incarnation, this`inFlight
      ensures View() == TimerPass(cfg, old(View()), nowUs, clock)
      ensures TimerLaw(cfg, old(View()), nowUs, clock, View())
    {
      TimerIsLaw(cfg, View(), nowUs, clock, TimerPass(cfg, View(), nowUs, clock));
      if inFlight == map[] {
        return;
      }
      var rtoUs := RtoUs(cfg);
      var expired := set k | k in inFlight && nowUs - inFlight[k].sentUs >= rtoUs;
      assert (forall k :: k !in expired) ==> expired == {};
      assert forall k :: k in expired <==> k in inFlight && nowUs - inFlight[k].sentUs >= rtoUs;
      if expired == {} {
        return;
      }
      GoBackN(clock);
    }

    /** The body of the send loop. */
    method SendNextLocked(clock: int -> int)
      modifies this`inFlight, this`nextSeq
      ensures View() == SendNext(old(View()), clock(old(nextSeq)))
    {
      SendLocked(nextSeq, clock(nextSeq));
      nextSeq := nextSeq + 1;
    }

    /** One pass of the send loop; true when the run may end early. */
    method SendPass(limit: Option<nat>, clock: int -> int) returns (done: bool)
      requires cfg.Valid() && Inv(cfg, View()) && (limit.Some? ==> nextSeq <= limit.value)
      modifies this`inFlight, this`nextSeq
      ensures View() == Fill(cfg, old(View()), limit, clock) && SentOnTop(old(View()), View(), clock)
      ensures |inFlight| >= w.Floor || (limit.Some? && nextSeq >= limit.value)
      ensures done <==> limit.Some? && nextSeq == limit.value && cumAckedSeq + 1 == limit.value
    {
      while |inFlight| < w.Floor && (limit.None? || nextSeq < limit.value)
        invariant Inv(cfg, View()) && (limit.Some? ==> nextSeq <= limit.value)
        invariant Fill(cfg, View(), limit, clock) == Fill(cfg, old(View()), limit, clock)
        decreases w.Floor - (nextSeq - 1 - cumAckedSeq)
      {
        FillStep(cfg, View(), limit, clock);
        SendNextLocked(clock);
      }
      assert !CanSend(View(), limit);
      FillAdds(cfg, old(View()), limit, clock);
      FlightSize(cfg, View());
      done := limit.Some? && nextSeq >= limit.value && inFlight == map[];
    }
  }
}
