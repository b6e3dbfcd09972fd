/** sender/dctcp_sender.py: the DCTCP controller object, proved against DctcpSpec. */
module DctcpSender {
  import opened Average
  import opened Common
  import opened DctcpSpec
  import Dctcp
  import DctcpLaws
  import Rto
  import SenderSpec

  class Sender {
    const cfg: Config
    var nextSeq: nat
    var cumAckedSeq: int
    var inFlight: map<int, Sent>
    var w: real
    var alpha: real
    var lastUpdateSeq: int
    var rttWindowTotal: nat
    var rttWindowMarked: nat

    function View(): State
      reads this
    {
      State(nextSeq, cumAckedSeq, inFlight, w, alpha, lastUpdateSeq, rttWindowTotal, rttWindowMarked)
    }

    constructor (cfg: Config, wInit: nat)
      requires cfg.Valid() && 1 <= wInit <= cfg.wMax
      ensures this.cfg == cfg && View() == Init(wInit) && Dctcp.Inv(cfg, View())
    {
      this.cfg := cfg;
      nextSeq, cumAckedSeq, inFlight := 0, -1, map[];
      w, alpha, lastUpdateSeq := wInit as real, 0.0, -1;
      rttWindowTotal, rttWindowMarked := 0, 0;
      new;
      assert inFlight.Keys == Between(-1, 0);
    }

    method SendLocked(seqNo: int, ts: int)
      modifies this`inFlight
      ensures View() == Transmit(old(View()), seqNo, ts)
      ensures var rtx := if seqNo in old(inFlight) then old(inFlight[seqNo]).rtx + 1 else 0;
              inFlight == old(inFlight)[seqNo := Sent(ts, rtx)]
    {
      if seqNo in inFlight {
        inFlight := inFlight[seqNo := Sent(ts, inFlight[seqNo].rtx + 1)];
      } else {
        inFlight := inFlight[seqNo := Sent(ts, 0)];
      }
    }

    /** The cut window. */
    method CutWindow() returns (wNew: real)
      ensures wNew == Cut(w, Share(w, alpha)) && DctcpLaws.WindowLaw(cfg, w, true, alpha, wNew)
    {
      DctcpLaws.CutIsLaw(cfg, w, alpha, Cut(w, Share(w, alpha)));
      Dctcp.HalfCut(w, alpha);
      wNew := Max(W_MIN, w * (1.0 - alpha / 2.0));
    }

    /** The average with one more fraction. */
    method AverageWith(f: real) returns (a: real)
      ensures a == Ewma(cfg.g, alpha, f)
    {
      a := (1.0 - cfg.g) * alpha + cfg.g * f;
    }

    method MaybeUpdateWindowLocked()
      modifies this`w, this`alpha, this`lastUpdateSeq, this`rttWindowTotal, this`rttWindowMarked
      ensures View() == MaybeUpdate(cfg, old(View()))
      ensures if cumAckedSeq >= old(lastUpdateSeq) + old(w).Floor && old(rttWindowTotal) > 0
              then && DctcpLaws.AlphaLaw(cfg.g, old(alpha), old(rttWindowMarked), old(rttWindowTotal), alpha)
                   && DctcpLaws.WindowLaw(cfg, old(w), old(rttWindowMarked) > 0, alpha, w)
                   && lastUpdateSeq == cumAckedSeq && rttWindowTotal == rttWindowMarked == 0
              else unchanged(this)
    {
      if cumAckedSeq < lastUpdateSeq + w.Floor {
        return;
      }
      var total := rttWindowTotal;
      if total == 0 {
        return;
      }
      alpha := AverageWith(Fraction(rttWindowMarked, total));
      DctcpLaws.AlphaIsLaw(cfg.g, old(alpha), rttWindowMarked, total, alpha);
      if rttWindowMarked > 0 {
        w := CutWindow();
      } else {
        w := Min(cfg.wMax as real, w + 1.0);
      }
      lastUpdateSeq := cumAckedSeq;
      rttWindowTotal := 0;
      rttWindowMarked := 0;
    }

    method PopAcked(ackSeq: nat)
      modifies this`inFlight, this`cumAckedSeq
      ensures View() == Advance(old(View()), ackSeq)
    {
      if ackSeq <= cumAckedSeq {
        return;
      }
      var k := cumAckedSeq + 1;
      while k <= ackSeq
        invariant cumAckedSeq < k <= ackSeq + 1 && cumAckedSeq == old(cumAckedSeq)
        invariant inFlight == map j | j in old(inFlight) && !(cumAckedSeq < j < k) :: old(inFlight)[j]
      {
        inFlight := inFlight - {k};
        k := k + 1;
      }
      cumAckedSeq := ackSeq;
    }

    method OnAckLocked(ackSeq: nat, ecnEcho: bool)
      modifies this
      ensures View() == MaybeUpdate(cfg, AtGate(old(View()), ackSeq, ecnEcho))
    {
      PopAcked(ackSeq);
      rttWindowTotal := rttWindowTotal + 1;
      if ecnEcho {
        rttWindowMarked := rttWindowMarked + 1;
      }
      assert View() == AtGate(old(View()), ackSeq, ecnEcho);
      MaybeUpdateWindowLocked();
    }

    /** The body of the listener for one ACK. */
    method ProcessAck(ackSeq: nat, ecnEcho: bool)
      modifies this
      ensures View() == Receive(cfg, old(View()), ackSeq, ecnEcho)
    {
      var sendTs := if ackSeq in inFlight then inFlight[ackSeq].ts else 0;
      if sendTs == 0 && ackSeq <= cumAckedSeq {
        return;
      }
      OnAckLocked(ackSeq, ecnEcho);
    }

    /** Send these packets, in order, as if for the first time. */
    method SendAgain(keys: set<int>, clock: int -> int)
      requires inFlight == map[]
      modifies this`inFlight
      ensures inFlight == map k | k in keys :: Sent(clock(k), 0)
    {
      var pending := keys;
      while pending != {}
        invariant pending <= keys
        invariant inFlight == map k | k in keys && k !in pending :: Sent(clock(k), 0)
        decreases pending
      {
        var k := SenderSpec.MinKey(pending);
        SendLocked(k, clock(k));
        pending := pending - {k};
      }
    }

    /** Halve the window, clear the map, and send its old keys again. */
    method GoBackN(clock: int -> int)
      modifies this`w, this`inFlight
      ensures View() == Timeout(old(View()), clock)
    {
      w := Max(W_MIN, w / 2.0);
      var pending := inFlight.Keys;
      inFlight := map[];
      SendAgain(pending, clock);
    }

    /** One pass of the timer. */
    method RtoCheck(nowUs: int, clock: int -> int)
      modifies this`w, this`inFlight
      ensures View() == TimerPass(cfg, old(View()), nowUs, clock)
      ensures DctcpLaws.TimerLaw(cfg, old(View()), nowUs, clock, View())
    {
      DctcpLaws.TimerIsLaw(cfg, View(), nowUs, clock, TimerPass(cfg, View(), nowUs, clock));
      if inFlight == map[] {
        return;
      }
      var rtoUs := Rto.Timeout(cfg.baseRtt);
      var expired := set k | k in inFlight && nowUs - inFlight[k].ts >= rtoUs;
      assert (forall k :: k !in expired) ==> expired == {};
      assert forall k :: k in expired <==> k in inFlight && nowUs - inFlight[k].ts >= rtoUs;
      if expired == {} {
        return;
      }
      GoBackN(clock);
    }

    /** One pass of the send loop; true when the run may end early. */
    method SendPass(limit: Option<nat>, clock: int -> int) returns (done: bool)
      requires Dctcp.Inv(cfg, View()) && (limit.Some? ==> nextSeq <= limit.value)
      modifies this`inFlight, this`nextSeq
      ensures View() == Dctcp.Fill(cfg, old(View()), limit, clock) && Dctcp.SentOnTop(old(View()), View(), clock)
      ensures |inFlight| >= w.Floor || (limit.Some? && nextSeq >= limit.value)
      ensures done <==> limit.Some? && nextSeq == limit.value && cumAckedSeq + 1 == limit.value
    {
      while |inFlight| < w.Floor && (limit.None? || nextSeq < limit.value)
        invariant Dctcp.Inv(cfg, View()) && (limit.Some? ==> nextSeq <= limit.value)
        invariant Dctcp.Fill(cfg, View(), limit, clock) == Dctcp.Fill(cfg, old(View()), limit, clock)
        decreases w.Floor - (nextSeq - 1 - cumAckedSeq)
      {
        ghost var s := View();
        Dctcp.FillStep(cfg, s, limit, clock);
        SendLocked(nextSeq, clock(nextSeq));
        nextSeq := nextSeq + 1;
        assert View() == SendNext(s, clock(s.nextSeq));
      }
      assert !CanSend(View(), limit);
      Dctcp.FillAdds(cfg, old(View()), limit, clock);
      Dctcp.FlightSize(cfg, View());
      done := limit.Some? && nextSeq >= limit.value && inFlight == map[];
    }
  }
}
