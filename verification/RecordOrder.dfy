/**
 * When does the order of the INT records in one ACK matter?  The loop of `_compute_u`
 * replaces a port's anchor at each of its records, so it can once a port reports twice.
 */
module RecordOrder {
  import opened Bytes
  import opened Common
  import opened WireFormat
  import opened Utilization
  import DataPlane
  import Switch

  predicate NonNegative(hops: seq<IntHop>) {
    forall i :: 0 <= i < |hops| ==> hops[i].qdepth >= 0
  }

  /** Whatever the order of these records, U and the anchors come out the same. */
  ghost predicate OrderFree(anchors: Anchors, hops: seq<IntHop>, baseRtt: real)
    requires Reported(hops)
  {
    forall other: seq<IntHop> :: multiset(other) == multiset(hops) && Reported(other) ==>
                                   Absorb(anchors, other, baseRtt) == Absorb(anchors, hops, baseRtt)
  }

  /** Records of one port report one reading. */
  predicate SameReadings(hops: seq<IntHop>) {
    forall i, j | 0 <= i < |hops| && 0 <= j < |hops| ::
      hops[i].linkBps != 0 && hops[j].linkBps != 0 && KeyOf(hops[i]) == KeyOf(hops[j]) ==>
        AnchorOf(hops[i]) == AnchorOf(hops[j])
  }

  /** The greatest sample against the anchors held before the ACK. */
  function Peak(anchors: Anchors, hops: seq<IntHop>, baseRtt: real): real
    requires Reported(hops)
  {
    if hops == [] then 0.0
    else Max(Peak(anchors, hops[..|hops| - 1], baseRtt), HopU(anchors, hops[|hops| - 1], baseRtt))
  }

  /** All records of the port of record i have the sample t. */
  predicate Steady(anchors: Anchors, hops: seq<IntHop>, i: nat, t: real, baseRtt: real)
    requires Reported(hops)
  {
    && i < |hops| && hops[i].linkBps != 0
    && forall j :: 0 <= j < |hops| && hops[j].linkBps != 0 && KeyOf(hops[j]) == KeyOf(hops[i]) ==>
                     HopU(anchors, hops[j], baseRtt) == t
  }

  predicate PeakIsSteady(anchors: Anchors, hops: seq<IntHop>, baseRtt: real)
    requires Reported(hops)
  {
    var t := Peak(anchors, hops, baseRtt);
    t == 0.0 || exists i: nat :: i < |hops| && Steady(anchors, hops, i, t, baseRtt)
  }

  lemma {:induction false} PeakIsGreatest(anchors: Anchors, hops: seq<IntHop>, baseRtt: real)
    requires Reported(hops)
    ensures forall i :: 0 <= i < |hops| ==> HopU(anchors, hops[i], baseRtt) <= Peak(anchors, hops, baseRtt)
    ensures Peak(anchors, hops, baseRtt) >= 0.0
    ensures Peak(anchors, hops, baseRtt) == 0.0
            || exists i :: 0 <= i < |hops| && Peak(anchors, hops, baseRtt) == HopU(anchors, hops[i], baseRtt)
  {
    if hops != [] {
      var front := hops[..|hops| - 1];
      PeakIsGreatest(anchors, front, baseRtt);
      var best := Peak(anchors, hops, baseRtt);
      if best != 0.0 && best != HopU(anchors, hops[|hops| - 1], baseRtt) {
        var i :| 0 <= i < |front| && Peak(anchors, front, baseRtt) == HopU(anchors, front[i], baseRtt);
        assert hops[i] == front[i];
      }
    }
  }

  // ---- with one reading per port, only the first record of a port is sampled ----

  predicate First(hops: seq<IntHop>, i: nat) {
    && i < |hops| && hops[i].linkBps != 0
    && forall j :: 0 <= j < i && hops[j].linkBps != 0 ==> KeyOf(hops[j]) != KeyOf(hops[i])
  }

  predicate IsFirstMax(u: real, anchors: Anchors, hops: seq<IntHop>, baseRtt: real)
    requires Reported(hops)
  {
    && u >= 0.0
    && (forall i: nat :: i < |hops| && First(hops, i) ==> HopU(anchors, hops[i], baseRtt) <= u)
    && (u == 0.0 || exists i: nat :: i < |hops| && First(hops, i) && u == HopU(anchors, hops[i], baseRtt))
  }

  lemma FirstStays(front: seq<IntHop>, h: IntHop, i: nat)
    requires i < |front|
    ensures First(front + [h], i) <==> First(front, i)
  {
    var hops := front + [h];
    assert forall j :: 0 <= j < |front| ==> hops[j] == front[j];
  }

  lemma LastIsFirstIff(front: seq<IntHop>, h: IntHop)
    ensures First(front + [h], |front|) <==> h.linkBps != 0 && KeyOf(h) !in Keys(front)
  {
    var hops := front + [h];
    assert forall j :: 0 <= j < |front| ==> hops[j] == front[j];
  }

  /** A further record of a port is not newer than the anchor. */
  lemma RepeatIsAnchor(front: seq<IntHop>, h: IntHop, before: Anchors, anchors: Anchors)
    requires Overwrites(before, anchors, front) && SameReadings(front + [h])
    requires h.linkBps != 0 && KeyOf(h) in Keys(front)
    ensures KeyOf(h) in before && before[KeyOf(h)] == AnchorOf(h)
  {
    var hops := front + [h];
    var j :| 0 <= j < |front| && front[j].linkBps != 0 && KeyOf(front[j]) == KeyOf(h);
    assert hops[j] == front[j] && hops[|front|] == h;
  }

  lemma StoreOverwrites(before: Anchors, anchors: Anchors, front: seq<IntHop>, h: IntHop)
    requires Overwrites(before, anchors, front) && SameReadings(front + [h])
    ensures Overwrites(Store(before, h), anchors, front + [h])
  {
    var hops := front + [h];
    KeysSnoc(front, h);
    forall i | 0 <= i < |hops| && hops[i].linkBps != 0
      ensures KeyOf(hops[i]) in Store(before, h) && Store(before, h)[KeyOf(hops[i])] == AnchorOf(hops[i])
    {
      assert hops[|front|] == h;
      assert i < |front| ==> hops[i] == front[i];
    }
  }

  lemma LastSample(anchors: Anchors, before: Anchors, front: seq<IntHop>, h: IntHop, baseRtt: real)
    requires h.linkBps >= 0 && Overwrites(before, anchors, front) && SameReadings(front + [h])
    ensures HopU(before, h, baseRtt)
            == if First(front + [h], |front|) then HopU(anchors, h, baseRtt) else 0.0
  {
    LastIsFirstIff(front, h);
    if h.linkBps != 0 && KeyOf(h) in Keys(front) {
      RepeatIsAnchor(front, h, before, anchors);
    }
  }

  lemma FirstMaxStep(anchors: Anchors, front: seq<IntHop>, h: IntHop, u: real, x: real, baseRtt: real)
    requires Reported(front) && h.linkBps >= 0 && h.qdepth >= 0 && IsFirstMax(u, anchors, front, baseRtt)
    requires x == if First(front + [h], |front|) then HopU(anchors, h, baseRtt) else 0.0
    ensures IsFirstMax(Max(u, x), anchors, front + [h], baseRtt)
  {
    var hops, best := front + [h], Max(u, x);
    forall i: nat | First(hops, i)
      ensures HopU(anchors, hops[i], baseRtt) <= best
    {
      if i < |front| {
        FirstStays(front, h, i);
        assert hops[i] == front[i];
      }
    }
    if best != 0.0 {
      if best == x {
        assert First(hops, |front|) && best == HopU(anchors, hops[|front|], baseRtt);
      } else {
        var i: nat :| i < |front| && First(front, i) && u == HopU(anchors, front[i], baseRtt);
        FirstStays(front, h, i);
        assert First(hops, i) && best == HopU(anchors, hops[i], baseRtt);
      }
    }
  }

  /** U is the maximum over the first record of each port, and every port's anchor becomes
      its reading. */
  lemma {:induction false} AbsorbTakesFirsts(anchors: Anchors, hops: seq<IntHop>, baseRtt: real)
    requires Reported(hops) && NonNegative(hops) && SameReadings(hops)
    ensures IsFirstMax(Absorb(anchors, hops, baseRtt).0, anchors, hops, baseRtt)
    ensures Overwrites(Absorb(anchors, hops, baseRtt).1, anchors, hops)
  {
    if hops != [] {
      var front, h := hops[..|hops| - 1], hops[|hops| - 1];
      assert hops == front + [h];
      AbsorbTakesFirsts(anchors, front, baseRtt);
      var r := Absorb(anchors, front, baseRtt);
      LastSample(anchors, r.1, front, h, baseRtt);
      StoreOverwrites(r.1, anchors, front, h);
      FirstMaxStep(anchors, front, h, r.0, HopU(r.1, h, baseRtt), baseRtt);
    }
  }

  // ---- sufficient ----

  lemma {:induction false} FirstOfPort(hops: seq<IntHop>, i: nat) returns (f: nat)
    requires i < |hops| && hops[i].linkBps != 0
    ensures First(hops, f) && KeyOf(hops[f]) == KeyOf(hops[i])
    decreases i
  {
    if First(hops, i) {
      f := i;
    } else {
      var j :| 0 <= j < i && hops[j].linkBps != 0 && KeyOf(hops[j]) == KeyOf(hops[i]);
      f := FirstOfPort(hops, j);
    }
  }

  lemma MembersAgree(a: seq<IntHop>, b: seq<IntHop>)
    requires forall i :: 0 <= i < |b| ==> b[i] in a
    ensures NonNegative(a) ==> NonNegative(b)
    ensures SameReadings(a) ==> SameReadings(b)
  {
    if SameReadings(a) {
      forall i, j | 0 <= i < |b| && 0 <= j < |b| && b[i].linkBps != 0 && b[j].linkBps != 0 && KeyOf(b[i]) == KeyOf(b[j])
        ensures AnchorOf(b[i]) == AnchorOf(b[j])
      {
        assert b[i] in a && b[j] in a;
      }
    }
  }

  lemma UIsPeak(anchors: Anchors, a: seq<IntHop>, b: seq<IntHop>, u: real, baseRtt: real)
    requires Reported(a) && Reported(b) && PeakIsSteady(anchors, a, baseRtt) && IsFirstMax(u, anchors, b, baseRtt)
    requires forall i :: 0 <= i < |b| ==> b[i] in a
    requires forall i :: 0 <= i < |a| ==> a[i] in b
    ensures u == Peak(anchors, a, baseRtt)
  {
    PeakIsGreatest(anchors, a, baseRtt);
    var t := Peak(anchors, a, baseRtt);
    if u != 0.0 {
      var i: nat :| i < |b| && First(b, i) && u == HopU(anchors, b[i], baseRtt);
      assert b[i] in a;
    }
    if t != 0.0 {
      var i: nat :| i < |a| && Steady(anchors, a, i, t, baseRtt);
      assert a[i] in b;
      var j: nat :| j < |b| && b[j] == a[i];
      var f := FirstOfPort(b, j);
      assert b[f] in a;
    }
  }

  lemma Suffices(anchors: Anchors, a: seq<IntHop>, b: seq<IntHop>, baseRtt: real)
    requires Reported(a) && NonNegative(a) && SameReadings(a) && PeakIsSteady(anchors, a, baseRtt)
    requires multiset(a) == multiset(b)
    ensures Reported(b) && Absorb(anchors, a, baseRtt) == Absorb(anchors, b, baseRtt)
  {
    SameMembers(a, b);
    SameMembers(b, a);
    MembersAgree(a, b);
    AbsorbTakesFirsts(anchors, a, baseRtt);
    AbsorbTakesFirsts(anchors, b, baseRtt);
    UIsPeak(anchors, a, a, Absorb(anchors, a, baseRtt).0, baseRtt);
    UIsPeak(anchors, a, b, Absorb(anchors, b, baseRtt).0, baseRtt);
    SameOverwrite(anchors, a, b, Absorb(anchors, a, baseRtt).1, Absorb(anchors, b, baseRtt).1);
  }

  // ---- necessary ----

  function Without(hops: seq<IntHop>, i: nat): seq<IntHop>
    requires i < |hops|
  {
    hops[..i] + hops[i + 1..]
  }

  lemma Moved(hops: seq<IntHop>, i: nat)
    requires i < |hops|
    ensures multiset(Without(hops, i) + [hops[i]]) == multiset(hops)
    ensures multiset([hops[i]] + Without(hops, i)) == multiset(hops)
  {
    assert hops == hops[..i] + [hops[i]] + hops[i + 1..];
  }

  lemma LastIsStored(anchors: Anchors, front: seq<IntHop>, h: IntHop, baseRtt: real)
    requires Reported(front) && h.linkBps > 0
    ensures Reported(front + [h]) && KeyOf(h) in Absorb(anchors, front + [h], baseRtt).1
    ensures Absorb(anchors, front + [h], baseRtt).1[KeyOf(h)] == AnchorOf(h)
  {
    AbsorbLast(anchors, front, h, baseRtt);
  }

  /** Any record can come last, and its reading is then what is kept. */
  lemma KeepsReading(anchors: Anchors, hops: seq<IntHop>, i: nat, baseRtt: real)
    requires Reported(hops) && OrderFree(anchors, hops, baseRtt) && i < |hops| && hops[i].linkBps != 0
    ensures KeyOf(hops[i]) in Absorb(anchors, hops, baseRtt).1
    ensures Absorb(anchors, hops, baseRtt).1[KeyOf(hops[i])] == AnchorOf(hops[i])
  {
    Moved(hops, i);
    LastIsStored(anchors, Without(hops, i), hops[i], baseRtt);
  }

  lemma NeedsSameReadings(anchors: Anchors, hops: seq<IntHop>, baseRtt: real)
    requires Reported(hops) && OrderFree(anchors, hops, baseRtt)
    ensures SameReadings(hops)
  {
    forall i, j | 0 <= i < |hops| && 0 <= j < |hops| && hops[i].linkBps != 0 && hops[j].linkBps != 0
                  && KeyOf(hops[i]) == KeyOf(hops[j])
      ensures AnchorOf(hops[i]) == AnchorOf(hops[j])
    {
      KeepsReading(anchors, hops, i, baseRtt);
      KeepsReading(anchors, hops, j, baseRtt);
    }
  }

  /** The records whose sample is below t, or is not, in their order. */
  function Pick(anchors: Anchors, hops: seq<IntHop>, t: real, below: bool, baseRtt: real): (r: seq<IntHop>)
    requires Reported(hops)
    ensures forall i :: 0 <= i < |r| ==> r[i].linkBps >= 0 && (HopU(anchors, r[i], baseRtt) < t <==> below)
  {
    if hops == [] then []
    else
      var h := hops[|hops| - 1];
      Pick(anchors, hops[..|hops| - 1], t, below, baseRtt)
      + (if (HopU(anchors, h, baseRtt) < t) == below then [h] else [])
  }

  lemma PickLast(anchors: Anchors, front: seq<IntHop>, h: IntHop, t: real, below: bool, baseRtt: real)
    requires Reported(front) && h.linkBps >= 0
    ensures Reported(front + [h])
    ensures Pick(anchors, front + [h], t, below, baseRtt)
            == Pick(anchors, front, t, below, baseRtt) + (if (HopU(anchors, h, baseRtt) < t) == below then [h] else [])
  {
    assert (front + [h])[..|front|] == front;
  }

  lemma Sorts(a: seq<IntHop>, b: seq<IntHop>, front: seq<IntHop>, h: IntHop, left: bool)
    requires multiset(a) + multiset(b) == multiset(front)
    ensures multiset(a + (if left then [h] else [])) + multiset(b + (if left then [] else [h]))
            == multiset(front + [h])
  {
  }

  lemma {:induction false} PicksAll(anchors: Anchors, hops: seq<IntHop>, t: real, baseRtt: real)
    requires Reported(hops)
    ensures multiset(Pick(anchors, hops, t, true, baseRtt)) + multiset(Pick(anchors, hops, t, false, baseRtt))
            == multiset(hops)
  {
    if hops != [] {
      var front, h := hops[..|hops| - 1], hops[|hops| - 1];
      assert hops == front + [h];
      PicksAll(anchors, front, t, baseRtt);
      PickLast(anchors, front, h, t, true, baseRtt);
      PickLast(anchors, front, h, t, false, baseRtt);
      Sorts(Pick(anchors, front, t, true, baseRtt), Pick(anchors, front, t, false, baseRtt), front, h,
            HopU(anchors, h, baseRtt) < t);
    }
  }

  lemma {:induction false} PickHolds(anchors: Anchors, hops: seq<IntHop>, t: real, baseRtt: real, i: nat)
    requires Reported(hops) && i < |hops| && HopU(anchors, hops[i], baseRtt) < t
    ensures hops[i] in Pick(anchors, hops, t, true, baseRtt)
  {
    if i < |hops| - 1 {
      PickHolds(anchors, hops[..|hops| - 1], t, baseRtt, i);
    }
  }

  lemma NewAfterLow(low: seq<IntHop>, high: seq<IntHop>, i: nat)
    requires First(low + high, i) && i >= |low|
    ensures KeyOf(high[i - |low|]) in Keys(high) && KeyOf(high[i - |low|]) !in Keys(low)
  {
    var all := low + high;
    assert forall j :: 0 <= j < |low| ==> all[j] == low[j];
    assert all[i] == high[i - |low|];
  }

  /** If every port has a record in `low`, none has its first one after it. */
  lemma FirstIsLow(low: seq<IntHop>, high: seq<IntHop>, i: nat)
    requires Keys(high) <= Keys(low) && First(low + high, i)
    ensures i < |low|
  {
    if i >= |low| {
      NewAfterLow(low, high, i);
    }
  }

  lemma UIsLow(anchors: Anchors, low: seq<IntHop>, high: seq<IntHop>, u: real, t: real, baseRtt: real)
    requires Reported(low) && Reported(high) && Reported(low + high) && Keys(high) <= Keys(low) && t > 0.0
    requires forall j :: 0 <= j < |low| ==> HopU(anchors, low[j], baseRtt) < t
    requires IsFirstMax(u, anchors, low + high, baseRtt)
    ensures u < t
  {
    if u != 0.0 {
      var i: nat :| i < |low + high| && First(low + high, i) && u == HopU(anchors, (low + high)[i], baseRtt);
      FirstIsLow(low, high, i);
      assert (low + high)[i] == low[i];
    }
  }

  lemma KeysOfPart(hops: seq<IntHop>, part: seq<IntHop>)
    requires forall i :: 0 <= i < |part| ==> part[i] in hops
    ensures Keys(part) <= Keys(hops)
  {
    forall k | k in Keys(part)
      ensures k in Keys(hops)
    {
      var i :| 0 <= i < |part| && part[i].linkBps != 0 && KeyOf(part[i]) == k;
      assert part[i] in hops;
    }
  }

  lemma LowInFront(anchors: Anchors, hops: seq<IntHop>, low: seq<IntHop>, high: seq<IntHop>, t: real, baseRtt: real)
    requires Reported(hops) && NonNegative(hops) && SameReadings(hops) && OrderFree(anchors, hops, baseRtt)
    requires Reported(low) && Reported(high) && multiset(low + high) == multiset(hops) && t > 0.0
    requires forall j :: 0 <= j < |low| ==> HopU(anchors, low[j], baseRtt) < t
    requires Keys(hops) <= Keys(low)
    ensures Absorb(anchors, hops, baseRtt).0 < t
  {
    var all := low + high;
    SameMembers(hops, all);
    MembersAgree(hops, all);
    forall i | 0 <= i < |high|
      ensures high[i] in hops
    {
      assert all[|low| + i] == high[i];
    }
    KeysOfPart(hops, high);
    AbsorbTakesFirsts(anchors, all, baseRtt);
    UIsLow(anchors, low, high, Absorb(anchors, all, baseRtt).0, t, baseRtt);
  }

  lemma PeakInFront(anchors: Anchors, hops: seq<IntHop>, i: nat, baseRtt: real)
    requires Reported(hops) && NonNegative(hops) && SameReadings(hops) && OrderFree(anchors, hops, baseRtt)
    requires i < |hops| && hops[i].linkBps != 0
    ensures Absorb(anchors, hops, baseRtt).0 >= HopU(anchors, hops[i], baseRtt)
  {
    var all := [hops[i]] + Without(hops, i);
    Moved(hops, i);
    SameMembers(hops, all);
    MembersAgree(hops, all);
    AbsorbTakesFirsts(anchors, all, baseRtt);
    FrontIsFirst(anchors, hops[i], Without(hops, i), Absorb(anchors, all, baseRtt).0, baseRtt);
  }

  lemma FrontIsFirst(anchors: Anchors, h: IntHop, rest: seq<IntHop>, u: real, baseRtt: real)
    requires Reported([h] + rest) && h.linkBps > 0 && IsFirstMax(u, anchors, [h] + rest, baseRtt)
    ensures HopU(anchors, h, baseRtt) <= u
  {
    assert ([h] + rest)[0] == h;
    assert First([h] + rest, 0);
  }

  /** If no port is steady at the greatest sample, every port has a record below it. */
  lemma LowEverywhere(anchors: Anchors, hops: seq<IntHop>, t: real, baseRtt: real)
    requires Reported(hops) && forall i: nat :: i < |hops| ==> !Steady(anchors, hops, i, t, baseRtt)
    requires forall i :: 0 <= i < |hops| ==> HopU(anchors, hops[i], baseRtt) <= t
    ensures Keys(hops) <= Keys(Pick(anchors, hops, t, true, baseRtt))
  {
    var low := Pick(anchors, hops, t, true, baseRtt);
    forall k | k in Keys(hops)
      ensures k in Keys(low)
    {
      var i: nat :| i < |hops| && hops[i].linkBps != 0 && KeyOf(hops[i]) == k;
      assert !Steady(anchors, hops, i, t, baseRtt);
      var j: nat :| j < |hops| && hops[j].linkBps != 0 && KeyOf(hops[j]) == k && HopU(anchors, hops[j], baseRtt) != t;
      PickHolds(anchors, hops, t, baseRtt, j);
    }
  }

  lemma NeedsSteadyPeak(anchors: Anchors, hops: seq<IntHop>, baseRtt: real)
    requires Reported(hops) && NonNegative(hops) && OrderFree(anchors, hops, baseRtt)
    ensures PeakIsSteady(anchors, hops, baseRtt)
  {
    NeedsSameReadings(anchors, hops, baseRtt);
    PeakIsGreatest(anchors, hops, baseRtt);
    var t := Peak(anchors, hops, baseRtt);
    if !PeakIsSteady(anchors, hops, baseRtt) {
      var i :| 0 <= i < |hops| && t == HopU(anchors, hops[i], baseRtt);
      PeakInFront(anchors, hops, i, baseRtt);
      var low, high := Pick(anchors, hops, t, true, baseRtt), Pick(anchors, hops, t, false, baseRtt);
      PicksAll(anchors, hops, t, baseRtt);
      LowEverywhere(anchors, hops, t, baseRtt);
      LowInFront(anchors, hops, low, high, t, baseRtt);
    }
  }

  /** For ACKs of any length: the order of the records does not matter exactly when records
      of one port report one reading and, if any sample is positive, all records of some
      port have the greatest one. */
  lemma OrderFreeIff(anchors: Anchors, hops: seq<IntHop>, baseRtt: real)
    requires Reported(hops) && NonNegative(hops)
    ensures OrderFree(anchors, hops, baseRtt) <==> SameReadings(hops) && PeakIsSteady(anchors, hops, baseRtt)
  {
    if SameReadings(hops) && PeakIsSteady(anchors, hops, baseRtt) {
      forall other: seq<IntHop> | multiset(other) == multiset(hops) && Reported(other)
        ensures Absorb(anchors, other, baseRtt) == Absorb(anchors, hops, baseRtt)
      {
        Suffices(anchors, hops, other, baseRtt);
      }
    }
    if OrderFree(anchors, hops, baseRtt) {
      NeedsSameReadings(anchors, hops, baseRtt);
      NeedsSteadyPeak(anchors, hops, baseRtt);
    }
  }

  // ---- records that one switch port really pushes ----

  /** So whenever a packet collects two records of one port, the order of its records does
      matter: the port's counter has moved on in between, unless it came round exactly. */
  lemma RepeatedPortMatters(trace: seq<Switch.Switch>, arrivals: seq<Switch.Arrival>, outs: seq<Option<bytes>>,
                            i: nat, j: nat, anchors: Anchors, baseRtt: real) returns (first: IntHop, second: IntHop)
    requires Switch.Run(trace, arrivals, outs) && i < j < |arrivals|
    requires Switch.Tagged(arrivals[i].frame) && Switch.Tagged(arrivals[j].frame)
    requires arrivals[i].std.egressPort == arrivals[j].std.egressPort
    ensures Switch.Pushed(arrivals, outs, i, first) && Switch.Pushed(arrivals, outs, j, second)
    ensures second.egressPort >= 0
    ensures second.linkBps > 0
            && Switch.Traffic(Switch.LogOf(arrivals)[i + 1..j + 1], second.egressPort) % DataPlane.U48 != 0 ==>
              forall hops: seq<IntHop> :: Reported(hops) && first in hops && second in hops ==>
                                            !OrderFree(anchors, hops, baseRtt)
  {
    first := Switch.PushedRecord(trace, arrivals, outs, i);
    second := Switch.PushedRecord(trace, arrivals, outs, j);
    Switch.CountersDiffer(trace[0].counters, Switch.LogOf(arrivals), i, j, first, second);
    if second.linkBps > 0 && first.txByteCount != second.txByteCount {
      DifferentReadingsMatter(anchors, first, second, baseRtt);
    }
  }

  lemma DifferentReadingsMatter(anchors: Anchors, first: IntHop, second: IntHop, baseRtt: real)
    requires first.linkBps > 0 && second.linkBps > 0 && KeyOf(first) == KeyOf(second)
    requires AnchorOf(first) != AnchorOf(second)
    ensures forall hops: seq<IntHop> :: Reported(hops) && first in hops && second in hops ==>
                                          !OrderFree(anchors, hops, baseRtt)
  {
    forall hops: seq<IntHop> | Reported(hops) && first in hops && second in hops
      ensures !OrderFree(anchors, hops, baseRtt)
    {
      if OrderFree(anchors, hops, baseRtt) {
        NeedsSameReadings(anchors, hops, baseRtt);
      }
    }
  }

  // ---- an input on which U itself depends on the order ----

  /** Two records of one port: the second is sampled against the first. */
  lemma AbsorbTwo(anchors: Anchors, h1: IntHop, h2: IntHop, baseRtt: real)
    requires h1.linkBps > 0 && h2.linkBps > 0 && KeyOf(h1) == KeyOf(h2) && h1.qdepth >= 0
    ensures Absorb(anchors, [h1, h2], baseRtt)
            == (Max(HopU(anchors, h1, baseRtt), Sample(AnchorOf(h1), h2, baseRtt)), anchors[KeyOf(h1) := AnchorOf(h2)])
  {
    HopNotNegative(anchors, h1, baseRtt);
    AbsorbLast(anchors, [], h1, baseRtt);
    AbsorbLast(anchors, [h1], h2, baseRtt);
    assert [] + [h1] == [h1] && [h1] + [h2] == [h1, h2];
    assert anchors[KeyOf(h1) := AnchorOf(h1)][KeyOf(h1) := AnchorOf(h2)] == anchors[KeyOf(h1) := AnchorOf(h2)];
  }

  /** A packet that crosses one port twice carries the later record in front.  Read in that
      order, U misses the traffic between the two; read in the other order, it has it. */
  lemma OrderMatters() returns (anchors: Anchors, earlier: IntHop, later: IntHop)
    ensures KeyOf(earlier) == KeyOf(later) && earlier.InRange() && later.InRange()
    ensures earlier.egressTstampUs < later.egressTstampUs && earlier.txByteCount < later.txByteCount
    ensures Absorb(anchors, [later, earlier], 1.0).0 < Absorb(anchors, [earlier, later], 1.0).0
  {
    anchors := map[HopKey(1, 1) := Anchor(10, 100)];
    earlier, later := IntHop(1, 0, 1, 0, 20, 200, 8), IntHop(1, 0, 1, 0, 30, 500, 8);
    AbsorbTwo(anchors, earlier, later, 1.0);
    AbsorbTwo(anchors, later, earlier, 1.0);
    FieldSizes();
  }

  lemma FieldSizes()
    ensures Pow256(2) == 0x1_0000 && Pow256(4) > 500 && Pow256(6) > 500
  {
    assert Pow256(6) == 0x1_0000_0000_0000;
  }
}
