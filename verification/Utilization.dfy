/**
 * The bottleneck utilisation that an HPCC sender reads off the INT records of one ACK:
 * per record qdepth / B + txRate / link, and the maximum over the records
 * (`_compute_u` in sender/hpcc_sender.py).
 */
module Utilization {
  import opened Common
  import opened Bytes
  import opened WireFormat
  import DataPlane
  import Switch

  const QDEPTH_PKT_BYTES := 1500

  datatype HopKey = HopKey(switchId: int, egressPort: int)
  datatype Anchor = Anchor(tsUs: int, txBytes: int)
  type Anchors = map<HopKey, Anchor>

  function KeyOf(h: IntHop): HopKey {
    HopKey(h.switchId, h.egressPort)
  }

  function AnchorOf(h: IntHop): Anchor {
    Anchor(h.egressTstampUs, h.txByteCount)
  }

  /** Queue and rate terms for `bytes` sent in `dtUs` microseconds. */
  function Load(h: IntHop, dtUs: int, bytes: int, baseRtt: real): real
    requires h.linkBps > 0 && dtUs > 0 && baseRtt > 0.0
  {
    (h.qdepth * QDEPTH_PKT_BYTES) as real / (h.linkBps as real * baseRtt / 8.0)
    + (bytes as real * 8.0 * 1000000.0) / dtUs as real / h.linkBps as real
  }

  /** The sample of one record against the previous reading of its port, 0 if it is skipped. */
  function Sample(last: Anchor, h: IntHop, baseRtt: real): real
    requires h.linkBps > 0
  {
    var dt, db := h.egressTstampUs - last.tsUs, h.txByteCount - last.txBytes;
    if dt <= 0 || db < 0 || h.linkBps as real * baseRtt / 8.0 <= 0.0 then 0.0
    else Load(h, dt, db, baseRtt)
  }

  function HopU(anchors: Anchors, h: IntHop, baseRtt: real): real
    requires h.linkBps >= 0
  {
    if h.linkBps == 0 || KeyOf(h) !in anchors then 0.0 else Sample(anchors[KeyOf(h)], h, baseRtt)
  }

  function Store(anchors: Anchors, h: IntHop): Anchors {
    if h.linkBps == 0 then anchors else anchors[KeyOf(h) := AnchorOf(h)]
  }

  /** Written out: x is the sample of a queue and of `bytes` bytes sent in `dtUs` microseconds,
      both as shares of the link; a record without progress in time samples nothing. */
  predicate LoadLaw(h: IntHop, dtUs: int, bytes: int, baseRtt: real, x: real) {
    if dtUs <= 0 || bytes < 0 || baseRtt <= 0.0 then x == 0.0
    else x * h.linkBps as real == (h.qdepth * 1500 * 8) as real / baseRtt + (bytes * 8000000) as real / dtUs as real
  }

  /** Written out: what a sender with these anchors makes of a record, and the anchors that
      the record leaves. */
  predicate SampleLaw(anchors: Anchors, h: IntHop, baseRtt: real, x: real, anchors': Anchors) {
    var port := HopKey(h.switchId, h.egressPort);
    && anchors' == (if h.linkBps == 0 then anchors else anchors[port := Anchor(h.egressTstampUs, h.txByteCount)])
    && if h.linkBps == 0 || port !in anchors then x == 0.0
       else LoadLaw(h, h.egressTstampUs - anchors[port].tsUs, h.txByteCount - anchors[port].txBytes, baseRtt, x)
  }

  lemma QueueTerm(q: real, link: real, rtt: real)
    requires link > 0.0 && rtt > 0.0
    ensures link * rtt / 8.0 > 0.0 && q / (link * rtt / 8.0) * link == q * 8.0 / rtt
  {
    var b := link * rtt / 8.0;
    var x := q / b;
    assert x * b == q;
    assert x * link * rtt == q * 8.0;
  }

  lemma RateTerm(bytes: real, dt: real, link: real)
    requires dt > 0.0 && link > 0.0
    ensures bytes * 8.0 * 1000000.0 / dt / link * link == bytes * 8000000.0 / dt
  {
  }

  lemma SumScales(a: real, b: real, link: real)
    ensures (a + b) * link == a * link + b * link
  {
  }

  lemma LoadObeys(h: IntHop, dtUs: int, bytes: int, baseRtt: real)
    requires h.linkBps > 0 && dtUs > 0 && bytes >= 0 && baseRtt > 0.0
    ensures LoadLaw(h, dtUs, bytes, baseRtt, Load(h, dtUs, bytes, baseRtt))
  {
    var q, link, dt := (h.qdepth * QDEPTH_PKT_BYTES) as real, h.linkBps as real, dtUs as real;
    QueueTerm(q, link, baseRtt);
    RateTerm(bytes as real, dt, link);
    SumScales(q / (link * baseRtt / 8.0), bytes as real * 8.0 * 1000000.0 / dt / link, link);
    assert q * 8.0 == (h.qdepth * 1500 * 8) as real;
    assert bytes as real * 8000000.0 == (bytes * 8000000) as real;
  }

  lemma HopObeys(anchors: Anchors, h: IntHop, baseRtt: real)
    requires h.linkBps >= 0
    ensures SampleLaw(anchors, h, baseRtt, HopU(anchors, h, baseRtt), Store(anchors, h))
  {
    if h.linkBps > 0 && KeyOf(h) in anchors {
      var last := anchors[KeyOf(h)];
      var dt, db := h.egressTstampUs - last.tsUs, h.txByteCount - last.txBytes;
      SignOfCapacity(h.linkBps, baseRtt);
      if dt > 0 && db >= 0 && baseRtt > 0.0 {
        LoadObeys(h, dt, db, baseRtt);
      }
    }
  }

  lemma LoadLawUnique(h: IntHop, dtUs: int, bytes: int, baseRtt: real, x: real, y: real)
    requires h.linkBps > 0 && LoadLaw(h, dtUs, bytes, baseRtt, x) && LoadLaw(h, dtUs, bytes, baseRtt, y)
    ensures x == y
  {
    if dtUs > 0 && bytes >= 0 && baseRtt > 0.0 {
      Cancel(x, y, h.linkBps as real);
    }
  }

  /** The law leaves one sample and one set of anchors, those that the senders compute. */
  lemma SampleLawIff(anchors: Anchors, h: IntHop, baseRtt: real, x: real, anchors': Anchors)
    requires h.linkBps >= 0
    ensures SampleLaw(anchors, h, baseRtt, x, anchors')
            <==> x == HopU(anchors, h, baseRtt) && anchors' == Store(anchors, h)
  {
    HopObeys(anchors, h, baseRtt);
    if SampleLaw(anchors, h, baseRtt, x, anchors') && h.linkBps > 0 && KeyOf(h) in anchors {
      var last := anchors[HopKey(h.switchId, h.egressPort)];
      LoadLawUnique(h, h.egressTstampUs - last.tsUs, h.txByteCount - last.txBytes, baseRtt,
                    x, HopU(anchors, h, baseRtt));
    }
  }

  predicate Sampled(anchors: Anchors, h: IntHop, baseRtt: real) {
    && h.linkBps > 0 && baseRtt > 0.0 && HopKey(h.switchId, h.egressPort) in anchors
    && h.egressTstampUs > anchors[HopKey(h.switchId, h.egressPort)].tsUs
    && h.txByteCount >= anchors[HopKey(h.switchId, h.egressPort)].txBytes
  }

  /** A port that sent at its capacity since its anchor samples 1 if its queue is empty, and
      one more for every bandwidth-delay product of 1500-byte packets in the queue. */
  lemma SaturatedPort(anchors: Anchors, h: IntHop, baseRtt: real, products: real)
    requires Sampled(anchors, h, baseRtt)
    requires var last := anchors[HopKey(h.switchId, h.egressPort)];
             (h.txByteCount - last.txBytes) * 8000000 == h.linkBps * (h.egressTstampUs - last.tsUs)
    requires (h.qdepth * 1500 * 8) as real == products * (h.linkBps as real * baseRtt)
    ensures HopU(anchors, h, baseRtt) == 1.0 + products
  {
    HopObeys(anchors, h, baseRtt);
    var last, u, link := anchors[HopKey(h.switchId, h.egressPort)], HopU(anchors, h, baseRtt), h.linkBps as real;
    var dt := (h.egressTstampUs - last.tsUs) as real;
    SaturatedShare(u, link, baseRtt, dt, (h.qdepth * 1500 * 8) as real, products,
                   ((h.txByteCount - last.txBytes) * 8000000) as real);
  }

  lemma SaturatedShare(u: real, link: real, rtt: real, dt: real, q: real, products: real, bits: real)
    requires link > 0.0 && rtt > 0.0 && dt > 0.0 && q == products * (link * rtt) && bits == link * dt
    requires u * link == q / rtt + bits / dt
    ensures u == 1.0 + products
  {
    assert bits / dt == link;
    assert q / rtt == products * link by {
      assert q == products * link * rtt;
    }
    Cancel(u, 1.0 + products, link);
  }

  lemma Cancel(x: real, y: real, link: real)
    requires link > 0.0 && x * link == y * link
    ensures x == y
  {
    assert (x - y) * link == 0.0;
  }

  predicate Reported(hops: seq<IntHop>) {
    forall i :: 0 <= i < |hops| ==> hops[i].linkBps >= 0
  }

  /** The records in order: each is sampled against the anchors its predecessors left. */
  function Absorb(anchors: Anchors, hops: seq<IntHop>, baseRtt: real): (r: (real, Anchors))
    requires Reported(hops)
  {
    if hops == [] then (0.0, anchors)
    else
      var h := hops[|hops| - 1];
      var (u, before) := Absorb(anchors, hops[..|hops| - 1], baseRtt);
      (Max(u, HopU(before, h, baseRtt)), Store(before, h))
  }

  lemma AbsorbNext(anchors: Anchors, hops: seq<IntHop>, i: nat, baseRtt: real)
    requires Reported(hops) && i < |hops|
    ensures var (u, before) := Absorb(anchors, hops[..i], baseRtt);
            Absorb(anchors, hops[..i + 1], baseRtt)
            == (Max(u, HopU(before, hops[i], baseRtt)), Store(before, hops[i]))
    ensures hops[..|hops|] == hops
  {
    assert hops[..i + 1][..i] == hops[..i];
  }

  /** Record by record: sample i is taken against the anchors that the records before it left. */
  predicate Chain(hops: seq<IntHop>, baseRtt: real, us: seq<real>, ms: seq<Anchors>) {
    && |us| == |hops| && |ms| == |hops| + 1
    && forall i :: 0 <= i < |hops| ==> SampleLaw(ms[i], hops[i], baseRtt, us[i], ms[i + 1])
  }

  /** The greatest sample, or 0 if none is positive. */
  predicate Greatest(u: real, us: seq<real>) {
    u >= 0.0 && (forall i :: 0 <= i < |us| ==> us[i] <= u) && (u == 0.0 || u in us)
  }

  lemma GreatestNext(u: real, us: seq<real>, x: real)
    requires Greatest(u, us)
    ensures Greatest(Max(u, x), us + [x])
  {
    assert forall i :: 0 <= i < |us| ==> (us + [x])[i] == us[i];
    assert (us + [x])[|us|] == x;
  }

  lemma ChainNext(hops: seq<IntHop>, baseRtt: real, us: seq<real>, ms: seq<Anchors>, h: IntHop, x: real, m: Anchors)
    requires Chain(hops, baseRtt, us, ms) && SampleLaw(ms[|hops|], h, baseRtt, x, m)
    ensures Chain(hops + [h], baseRtt, us + [x], ms + [m])
  {
  }

  lemma {:induction false} AbsorbChain(anchors: Anchors, hops: seq<IntHop>, baseRtt: real)
      returns (us: seq<real>, ms: seq<Anchors>)
    requires Reported(hops)
    ensures Chain(hops, baseRtt, us, ms) && ms[0] == anchors
    ensures Greatest(Absorb(anchors, hops, baseRtt).0, us) && Absorb(anchors, hops, baseRtt).1 == ms[|hops|]
  {
    if hops == [] {
      us, ms := [], [anchors];
    } else {
      var front, h := hops[..|hops| - 1], hops[|hops| - 1];
      us, ms := AbsorbChain(anchors, front, baseRtt);
      var before := ms[|front|];
      HopObeys(before, h, baseRtt);
      GreatestNext(Absorb(anchors, front, baseRtt).0, us, HopU(before, h, baseRtt));
      ChainNext(front, baseRtt, us, ms, h, HopU(before, h, baseRtt), Store(before, h));
      us, ms := us + [HopU(before, h, baseRtt)], ms + [Store(before, h)];
      assert hops == front + [h];
    }
  }

  lemma GreatestUnique(u: real, v: real, us: seq<real>)
    requires Greatest(u, us) && Greatest(v, us)
    ensures u == v
  {
  }

  lemma {:induction false} ChainUnique(hops: seq<IntHop>, baseRtt: real, us: seq<real>, ms: seq<Anchors>,
                                       us': seq<real>, ms': seq<Anchors>, n: nat)
    requires Reported(hops) && Chain(hops, baseRtt, us, ms) && Chain(hops, baseRtt, us', ms')
    requires ms[0] == ms'[0] && n <= |hops|
    ensures us[..n] == us'[..n] && ms[n] == ms'[n]
  {
    if n > 0 {
      ChainUnique(hops, baseRtt, us, ms, us', ms', n - 1);
      SampleLawIff(ms[n - 1], hops[n - 1], baseRtt, us[n - 1], ms[n - 1 + 1]);
      SampleLawIff(ms[n - 1], hops[n - 1], baseRtt, us'[n - 1], ms'[n - 1 + 1]);
      assert us[..n] == us[..n - 1] + [us[n - 1]] && us'[..n] == us'[..n - 1] + [us'[n - 1]];
    }
  }

  lemma ChainIsAbsorb(hops: seq<IntHop>, baseRtt: real, us: seq<real>, ms: seq<Anchors>, u: real)
    requires Reported(hops) && Chain(hops, baseRtt, us, ms) && Greatest(u, us)
    ensures Absorb(ms[0], hops, baseRtt) == (u, ms[|hops|])
  {
    var us', ms' := AbsorbChain(ms[0], hops, baseRtt);
    ChainUnique(hops, baseRtt, us, ms, us', ms', |hops|);
    assert us == us[..|hops|] && us' == us'[..|hops|];
    GreatestUnique(u, Absorb(ms[0], hops, baseRtt).0, us);
  }

  /** The records, in order, lead from these anchors to those, and u is their greatest sample. */
  ghost predicate AbsorbLaw(anchors: Anchors, hops: seq<IntHop>, baseRtt: real, u: real, anchors': Anchors) {
    exists us: seq<real>, ms: seq<Anchors> ::
      Chain(hops, baseRtt, us, ms) && ms[0] == anchors && ms[|hops|] == anchors' && Greatest(u, us)
  }

  /** U and the anchors that an ACK leaves are those of the one chain of samples of its
      records, repeated ports included. */
  lemma AbsorbLawIff(anchors: Anchors, hops: seq<IntHop>, baseRtt: real, u: real, anchors': Anchors)
    requires Reported(hops)
    ensures AbsorbLaw(anchors, hops, baseRtt, u, anchors') <==> (u, anchors') == Absorb(anchors, hops, baseRtt)
  {
    var us, ms := AbsorbChain(anchors, hops, baseRtt);
    if us', ms' :| Chain(hops, baseRtt, us', ms') && ms'[0] == anchors && ms'[|hops|] == anchors' && Greatest(u, us') {
      ChainIsAbsorb(hops, baseRtt, us', ms', u);
    }
  }

  function Keys(hops: seq<IntHop>): (ks: set<HopKey>)
    ensures forall k :: k in ks <==> exists i :: 0 <= i < |hops| && hops[i].linkBps != 0 && KeyOf(hops[i]) == k
  {
    set i | 0 <= i < |hops| && hops[i].linkBps != 0 :: KeyOf(hops[i])
  }

  lemma KeysSnoc(front: seq<IntHop>, h: IntHop)
    ensures Keys(front + [h]) == Keys(front) + (if h.linkBps != 0 then {KeyOf(h)} else {})
  {
    var hops := front + [h];
    assert forall i :: 0 <= i < |front| ==> hops[i] == front[i];
    assert hops[|front|] == h;
    forall k | k in Keys(front)
      ensures k in Keys(hops)
    {
      var i :| 0 <= i < |front| && front[i].linkBps != 0 && KeyOf(front[i]) == k;
      assert KeyOf(hops[i]) == k;
    }
  }

  /** No two records with a capacity come from the same port of the same switch. */
  predicate DistinctKeys(hops: seq<IntHop>) {
    forall i, j :: 0 <= i < j < |hops| && hops[i].linkBps != 0 && hops[j].linkBps != 0 ==>
                     KeyOf(hops[i]) != KeyOf(hops[j])
  }

  predicate IsMaxSample(u: real, anchors: Anchors, hops: seq<IntHop>, baseRtt: real)
    requires Reported(hops)
  {
    && (forall i :: 0 <= i < |hops| ==> HopU(anchors, hops[i], baseRtt) <= u)
    && (u == 0.0 || exists i :: 0 <= i < |hops| && u == HopU(anchors, hops[i], baseRtt))
    && u >= 0.0
  }

  predicate Overwrites(after: Anchors, anchors: Anchors, hops: seq<IntHop>) {
    && after.Keys == anchors.Keys + Keys(hops)
    && (forall i :: 0 <= i < |hops| && hops[i].linkBps != 0 ==>
                      KeyOf(hops[i]) in after && after[KeyOf(hops[i])] == AnchorOf(hops[i]))
    && (forall k :: k in anchors && k !in Keys(hops) ==> k in after && after[k] == anchors[k])
  }

  lemma MaxStep(u: real, anchors: Anchors, front: seq<IntHop>, h: IntHop, baseRtt: real)
    requires Reported(front) && h.linkBps >= 0 && IsMaxSample(u, anchors, front, baseRtt)
    ensures IsMaxSample(Max(u, HopU(anchors, h, baseRtt)), anchors, front + [h], baseRtt)
  {
    var hops, best := front + [h], Max(u, HopU(anchors, h, baseRtt));
    assert forall i :: 0 <= i < |front| ==> front[i] == hops[i];
    if best == HopU(anchors, h, baseRtt) {
      assert best == HopU(anchors, hops[|front|], baseRtt);
    } else if best != 0.0 {
      var i :| 0 <= i < |front| && u == HopU(anchors, front[i], baseRtt);
      assert best == HopU(anchors, hops[i], baseRtt);
    }
  }

  lemma NewPort(front: seq<IntHop>, h: IntHop)
    requires DistinctKeys(front + [h]) && h.linkBps != 0
    ensures KeyOf(h) !in Keys(front)
  {
    var hops := front + [h];
    forall i | 0 <= i < |front| && front[i].linkBps != 0
      ensures KeyOf(front[i]) != KeyOf(h)
    {
      assert hops[i] == front[i] && hops[|front|] == h;
    }
  }

  lemma OverwriteStep(before: Anchors, anchors: Anchors, front: seq<IntHop>, h: IntHop)
    requires Overwrites(before, anchors, front) && DistinctKeys(front + [h])
    ensures Overwrites(Store(before, h), anchors, front + [h])
    ensures h.linkBps != 0 ==> (KeyOf(h) in before <==> KeyOf(h) in anchors)
    ensures h.linkBps != 0 && KeyOf(h) in anchors ==> before[KeyOf(h)] == anchors[KeyOf(h)]
  {
    KeysSnoc(front, h);
    if h.linkBps != 0 {
      NewPort(front, h);
    }
    assert forall i :: 0 <= i < |front| ==> (front + [h])[i] == front[i];
  }

  /** With distinct ports, U is the maximum of the samples against the anchors held before
      the ACK, and every reporting port's anchor becomes its record. */
  lemma {:induction false} AbsorbIsMax(anchors: Anchors, hops: seq<IntHop>, baseRtt: real)
    requires Reported(hops) && DistinctKeys(hops)
    ensures IsMaxSample(Absorb(anchors, hops, baseRtt).0, anchors, hops, baseRtt)
    ensures Overwrites(Absorb(anchors, hops, baseRtt).1, anchors, hops)
  {
    if hops != [] {
      var front, h := hops[..|hops| - 1], hops[|hops| - 1];
      assert hops == front + [h];
      AbsorbIsMax(anchors, front, baseRtt);
      var r := Absorb(anchors, front, baseRtt);
      OverwriteStep(r.1, anchors, front, h);
      assert HopU(r.1, h, baseRtt) == HopU(anchors, h, baseRtt);
      MaxStep(r.0, anchors, front, h, baseRtt);
    }
  }

  lemma {:induction false} TwiceInside(s: seq<IntHop>, x: IntHop)
    requires multiset(s)[x] >= 2
    ensures exists i, j :: 0 <= i < j < |s| && s[i] == x && s[j] == x
  {
    var front := s[..|s| - 1];
    assert s == front + [s[|s| - 1]];
    if s[|s| - 1] == x {
      assert x in multiset(front);
      var i :| 0 <= i < |front| && front[i] == x;
      assert s[i] == x && s[|s| - 1] == x;
    } else {
      TwiceInside(front, x);
      var i, j :| 0 <= i < j < |front| && front[i] == x && front[j] == x;
      assert s[i] == x && s[j] == x;
    }
  }

  lemma {:induction false} CountPair(s: seq<IntHop>, i: nat, j: nat)
    requires i < j < |s| && s[i] == s[j]
    ensures multiset(s)[s[i]] >= 2
  {
    assert s == s[..j] + [s[j]] + s[j + 1..];
    assert s[i] == s[..j][i];
    assert s[i] in multiset(s[..j]);
  }

  lemma PermutedStaysDistinct(a: seq<IntHop>, b: seq<IntHop>)
    requires multiset(a) == multiset(b) && DistinctKeys(a)
    ensures DistinctKeys(b)
  {
    forall i, j | 0 <= i < j < |b| && b[i].linkBps != 0 && b[j].linkBps != 0
      ensures KeyOf(b[i]) != KeyOf(b[j])
    {
      if b[i] == b[j] {
        CountPair(b, i, j);
        TwiceInside(a, b[i]);
      } else {
        assert b[i] in multiset(a) && b[j] in multiset(a);
        var i' :| 0 <= i' < |a| && a[i'] == b[i];
        var j' :| 0 <= j' < |a| && a[j'] == b[j];
        assert i' < j' || j' < i';
      }
    }
  }

  /** The order of the records does not matter: any permutation of records from distinct
      ports gives the same U and leaves the same anchors. */
  lemma OrderIndependent(anchors: Anchors, a: seq<IntHop>, b: seq<IntHop>, baseRtt: real)
    requires Reported(a) && DistinctKeys(a) && multiset(a) == multiset(b)
    ensures Reported(b) && Absorb(anchors, a, baseRtt) == Absorb(anchors, b, baseRtt)
  {
    SameMembers(a, b);
    SameMembers(b, a);
    PermutedStaysDistinct(a, b);
    AbsorbIsMax(anchors, a, baseRtt);
    AbsorbIsMax(anchors, b, baseRtt);
    SameU(anchors, a, b, baseRtt, Absorb(anchors, a, baseRtt).0, Absorb(anchors, b, baseRtt).0);
    SameOverwrite(anchors, a, b, Absorb(anchors, a, baseRtt).1, Absorb(anchors, b, baseRtt).1);
  }

  lemma SameMembers(a: seq<IntHop>, b: seq<IntHop>)
    requires multiset(a) == multiset(b)
    ensures forall i :: 0 <= i < |b| ==> b[i] in a
    ensures Reported(a) ==> Reported(b)
  {
    forall i | 0 <= i < |b|
      ensures b[i] in a
    {
      assert b[i] in multiset(a);
    }
  }

  lemma SameMax(anchors: Anchors, a: seq<IntHop>, b: seq<IntHop>, baseRtt: real, u: real, v: real)
    requires Reported(a) && Reported(b) && forall i :: 0 <= i < |b| ==> b[i] in a
    requires IsMaxSample(u, anchors, a, baseRtt) && IsMaxSample(v, anchors, b, baseRtt)
    ensures v <= u
  {
    if v != 0.0 {
      var i :| 0 <= i < |b| && v == HopU(anchors, b[i], baseRtt);
      assert b[i] in a;
    }
  }

  lemma SameU(anchors: Anchors, a: seq<IntHop>, b: seq<IntHop>, baseRtt: real, u: real, v: real)
    requires Reported(a) && Reported(b)
    requires forall i :: 0 <= i < |b| ==> b[i] in a
    requires forall i :: 0 <= i < |a| ==> a[i] in b
    requires IsMaxSample(u, anchors, a, baseRtt) && IsMaxSample(v, anchors, b, baseRtt)
    ensures u == v
  {
    SameMax(anchors, a, b, baseRtt, u, v);
    SameMax(anchors, b, a, baseRtt, v, u);
  }

  lemma SameOverwrite(anchors: Anchors, a: seq<IntHop>, b: seq<IntHop>, x: Anchors, y: Anchors)
    requires forall i :: 0 <= i < |b| ==> b[i] in a
    requires forall i :: 0 <= i < |a| ==> a[i] in b
    requires Overwrites(x, anchors, a) && Overwrites(y, anchors, b)
    ensures x == y
  {
    assert Keys(a) == Keys(b);
    forall k | k in x
      ensures x[k] == y[k]
    {
      if k in Keys(a) {
        var i :| 0 <= i < |a| && a[i].linkBps != 0 && KeyOf(a[i]) == k;
        assert a[i] in b;
      }
    }
  }

  // ---- samples are never negative ----

  lemma SignOfCapacity(link: int, baseRtt: real)
    requires link > 0
    ensures link as real * baseRtt / 8.0 <= 0.0 <==> baseRtt <= 0.0
  {
  }

  lemma SampleNotNegative(last: Anchor, h: IntHop, baseRtt: real)
    requires h.linkBps > 0 && h.qdepth >= 0
    ensures Sample(last, h, baseRtt) >= 0.0
  {
    SignOfCapacity(h.linkBps, baseRtt);
    assert h.egressTstampUs > last.tsUs && h.txByteCount >= last.txBytes ==>
        ((h.txByteCount - last.txBytes) as real * 8.0 * 1000000.0) / (h.egressTstampUs - last.tsUs) as real >= 0.0;
  }

  lemma HopNotNegative(anchors: Anchors, h: IntHop, baseRtt: real)
    requires h.linkBps >= 0 && h.qdepth >= 0
    ensures HopU(anchors, h, baseRtt) >= 0.0
  {
    if h.linkBps > 0 && KeyOf(h) in anchors {
      SampleNotNegative(anchors[KeyOf(h)], h, baseRtt);
    }
  }

  lemma AbsorbLast(anchors: Anchors, front: seq<IntHop>, h: IntHop, baseRtt: real)
    requires Reported(front) && h.linkBps >= 0
    ensures Reported(front + [h])
    ensures var r := Absorb(anchors, front, baseRtt);
            Absorb(anchors, front + [h], baseRtt) == (Max(r.0, HopU(r.1, h, baseRtt)), Store(r.1, h))
  {
    assert (front + [h])[..|front|] == front;
  }

  // ---- what the rate term measures ----

  /** What the sender makes of a record whose port's anchor is `last`. */
  function SampleOf(last: Anchor, h: IntHop, sent: int, baseRtt: real): real
    requires h.linkBps >= 0
  {
    var dt := h.egressTstampUs - last.tsUs;
    if h.linkBps == 0 || dt <= 0 || baseRtt <= 0.0 || last.txBytes + sent >= DataPlane.U48 then 0.0
    else Load(h, dt, sent, baseRtt)
  }

  /** Written out: x is the sample of the second record for `sent` bytes since the first, and
      0 for a port without capacity or a counter that wrapped in between. */
  predicate TrafficLaw(first: IntHop, second: IntHop, sent: nat, baseRtt: real, x: real) {
    if second.linkBps == 0 || first.txByteCount + sent >= 0x1_0000_0000_0000 then x == 0.0
    else LoadLaw(second, second.egressTstampUs - first.egressTstampUs, sent, baseRtt, x)
  }

  lemma SampleOfObeys(first: IntHop, second: IntHop, sent: nat, baseRtt: real)
    requires second.linkBps >= 0
    ensures TrafficLaw(first, second, sent, baseRtt, SampleOf(AnchorOf(first), second, sent, baseRtt))
  {
    var dt := second.egressTstampUs - first.egressTstampUs;
    if second.linkBps > 0 && dt > 0 && baseRtt > 0.0 {
      LoadObeys(second, dt, sent, baseRtt);
    }
  }

  lemma SampleOfDifference(last: Anchor, h: IntHop, sent: nat, baseRtt: real)
    requires h.linkBps > 0 && sent < DataPlane.U48
    requires h.txByteCount - last.txBytes == if last.txBytes + sent >= DataPlane.U48 then sent - DataPlane.U48 else sent
    ensures Sample(last, h, baseRtt) == SampleOf(last, h, sent, baseRtt)
  {
    SignOfCapacity(h.linkBps, baseRtt);
  }

  /** For two readings of one port's counter the sample counts exactly the tagged traffic
      in between, modulo 2^48, unless the counter wrapped; then the record is skipped. */
  lemma SampleMeasuresTraffic(start: nat, log: seq<Switch.Departure>, between: seq<Switch.Departure>,
                              first: IntHop, second: IntHop, baseRtt: real)
    requires start < DataPlane.U48 && second.linkBps > 0
    requires second.egressPort >= 0
    requires first.txByteCount == Switch.CounterAfter(start, log, second.egressPort)
    requires second.txByteCount == Switch.CounterAfter(start, log + between, second.egressPort)
    ensures var sent := Switch.Traffic(between, second.egressPort) % DataPlane.U48;
            Sample(AnchorOf(first), second, baseRtt) == SampleOf(AnchorOf(first), second, sent, baseRtt)
  {
    Switch.CounterDifference(start, log, between, second.egressPort);
    SampleOfDifference(AnchorOf(first), second, Switch.Traffic(between, second.egressPort) % DataPlane.U48, baseRtt);
  }

  lemma SplitReading(start: nat, log: seq<Switch.Departure>, i: nat, j: nat, port: nat)
    requires i <= j <= |log|
    ensures Switch.CounterAfter(start, log[..i] + log[i..j], port) == Switch.CounterAfter(start, log[..j], port)
  {
    assert log[..i] + log[i..j] == log[..j];
  }

  lemma RecordsMeasureTraffic(counters: seq<nat>, log: seq<Switch.Departure>, i: nat, j: nat,
                              first: IntHop, second: IntHop, anchors: Anchors, baseRtt: real)
    requires Switch.Reads(counters, log, i, first) && Switch.Reads(counters, log, j, second) && i < j
    requires KeyOf(first) == KeyOf(second)
    ensures KeyOf(first) in anchors && anchors[KeyOf(first)] == AnchorOf(first) ==>
              var sent := Switch.Traffic(log[i + 1..j + 1], second.egressPort) % DataPlane.U48;
              HopU(anchors, second, baseRtt) == SampleOf(AnchorOf(first), second, sent, baseRtt)
  {
    if second.linkBps > 0 {
      var start := counters[second.egressPort];
      SplitReading(start, log, i + 1, j + 1, second.egressPort);
      SampleMeasuresTraffic(start, log[..i + 1], log[i + 1..j + 1], first, second, baseRtt);
    }
  }

  /** End to end at one switch: in every run of the egress control, once the record of frame
      i is a sender's anchor, the record of a later frame j of that port is sampled with
      exactly the tagged traffic that left the port after frame i, up to frame j. */
  lemma RunMeasuresTraffic(trace: seq<Switch.Switch>, arrivals: seq<Switch.Arrival>, outs: seq<Option<bytes>>,
                           i: nat, j: nat, anchors: Anchors, baseRtt: real) returns (first: IntHop, second: IntHop)
    requires Switch.Run(trace, arrivals, outs) && i < j < |arrivals|
    requires Switch.Tagged(arrivals[i].frame) && Switch.Tagged(arrivals[j].frame)
    requires arrivals[i].std.egressPort == arrivals[j].std.egressPort
    ensures Switch.Pushed(arrivals, outs, i, first) && Switch.Pushed(arrivals, outs, j, second)
    ensures KeyOf(first) == KeyOf(second) && second.egressPort == arrivals[j].std.egressPort && second.linkBps >= 0
    ensures first.egressTstampUs == arrivals[i].std.egressTstamp
    ensures second.egressTstampUs == arrivals[j].std.egressTstamp
    ensures KeyOf(first) in anchors && anchors[KeyOf(first)] == AnchorOf(first) ==>
              var sent := Switch.Traffic(Switch.LogOf(arrivals)[i + 1..j + 1], second.egressPort) % DataPlane.U48;
              && HopU(anchors, second, baseRtt) == SampleOf(AnchorOf(first), second, sent, baseRtt)
              && TrafficLaw(first, second, sent, baseRtt, HopU(anchors, second, baseRtt))
  {
    first := Switch.PushedRecord(trace, arrivals, outs, i);
    second := Switch.PushedRecord(trace, arrivals, outs, j);
    RecordsMeasureTraffic(trace[0].counters, Switch.LogOf(arrivals), i, j, first, second, anchors, baseRtt);
    SampleOfObeys(first, second,
                  Switch.Traffic(Switch.LogOf(arrivals)[i + 1..j + 1], second.egressPort) % DataPlane.U48, baseRtt);
  }
}
