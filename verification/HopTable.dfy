/**
 * The 256-slot linear-probing table that extensions/csender/hpcc_sender.c keeps in place
 * of the Python sender's dict of anchors.
 */
module HopTable {
  import opened Common
  import opened Utilization

  const SIZE := 256

  datatype HopSlot = HopSlot(switchId: int, egressPort: int, valid: bool, lastTs: int, lastBytes: int)

  function SlotKey(x: HopSlot): HopKey {
    HopKey(x.switchId, x.egressPort)
  }

  function SlotAnchor(x: HopSlot): Anchor {
    Anchor(x.lastTs, x.lastBytes)
  }

  function Hash(k: HopKey): (h: nat)
    ensures h < SIZE
  {
    (k.switchId * 31 + k.egressPort) % SIZE
  }

  /** The slot that probe i for k looks at: `(h + i) & (SIZE - 1)`. */
  function ProbeSlot(k: HopKey, i: nat): (j: nat)
    requires i < SIZE
    ensures j < SIZE && j == (Hash(k) + i) % SIZE
  {
    if Hash(k) + i < SIZE then Hash(k) + i else Hash(k) + i - SIZE
  }

  /** The probe for k that looks at slot j. */
  function ProbeOf(k: HopKey, j: nat): (i: nat)
    requires j < SIZE
    ensures i < SIZE && ProbeSlot(k, i) == j
  {
    if j >= Hash(k) then j - Hash(k) else j - Hash(k) + SIZE
  }

  predicate HoldsKey(t: seq<HopSlot>, j: nat, k: HopKey) {
    j < |t| && t[j].valid && SlotKey(t[j]) == k
  }

  predicate NoDuplicates(t: seq<HopSlot>) {
    forall i, j :: 0 <= i < |t| && 0 <= j < |t| && t[i].valid && t[j].valid && SlotKey(t[i]) == SlotKey(t[j]) ==> i == j
  }

  /** Every probe before the one that finds a stored key looks at an occupied slot. */
  predicate NoGaps(t: seq<HopSlot>)
    requires |t| == SIZE
  {
    forall j, i :: 0 <= j < SIZE && t[j].valid && 0 <= i < ProbeOf(SlotKey(t[j]), j) ==>
                     t[ProbeSlot(SlotKey(t[j]), i)].valid
  }

  ghost predicate Represents(t: seq<HopSlot>, m: Anchors) {
    && |t| == SIZE && NoDuplicates(t) && NoGaps(t)
    && (forall j :: 0 <= j < SIZE && t[j].valid ==> SlotKey(t[j]) in m && m[SlotKey(t[j])] == SlotAnchor(t[j]))
    && (forall k :: k in m ==> exists j: nat :: HoldsKey(t, j, k))
  }

  /** What probes i, i + 1, ... for k come to: the slot of k, a free slot, or nothing. */
  function Probe(t: seq<HopSlot>, k: HopKey, i: nat): (r: Option<nat>)
    requires |t| == SIZE && i <= SIZE
    ensures r.Some? ==> r.value < SIZE
    decreases SIZE - i
  {
    if i == SIZE then None
    else
      var j := ProbeSlot(k, i);
      if t[j].valid && SlotKey(t[j]) != k then Probe(t, k, i + 1) else Some(j)
  }

  lemma {:induction false} ProbeStopsAt(t: seq<HopSlot>, k: HopKey, i: nat, last: nat)
    requires |t| == SIZE && i <= last < SIZE
    requires forall d :: i <= d < last ==> t[ProbeSlot(k, d)].valid && SlotKey(t[ProbeSlot(k, d)]) != k
    requires !t[ProbeSlot(k, last)].valid || SlotKey(t[ProbeSlot(k, last)]) == k
    ensures Probe(t, k, i) == Some(ProbeSlot(k, last))
    decreases last - i
  {
    if i < last {
      ProbeStopsAt(t, k, i + 1, last);
    }
  }

  lemma {:induction false} ProbeOutcome(t: seq<HopSlot>, k: HopKey, i: nat)
    requires |t| == SIZE && i <= SIZE
    ensures Probe(t, k, i).None? ==>
              forall d :: i <= d < SIZE ==> t[ProbeSlot(k, d)].valid && SlotKey(t[ProbeSlot(k, d)]) != k
    ensures Probe(t, k, i).Some? ==>
              var j := Probe(t, k, i).value;
              && j < SIZE && (t[j].valid ==> SlotKey(t[j]) == k)
              && forall d :: i <= d < ProbeOf(k, j) ==> t[ProbeSlot(k, d)].valid && SlotKey(t[ProbeSlot(k, d)]) != k
    decreases SIZE - i
  {
    if i < SIZE {
      var j := ProbeSlot(k, i);
      if t[j].valid && SlotKey(t[j]) != k {
        ProbeOutcome(t, k, i + 1);
      }
    }
  }

  // ---- the probe, written out ----

  function SlotAt(k: HopKey, i: nat): nat {
    (31 * k.switchId + k.egressPort + i) % 256
  }

  predicate OfAnother(t: seq<HopSlot>, j: nat, k: HopKey) {
    j < |t| && t[j].valid && !(t[j].switchId == k.switchId && t[j].egressPort == k.egressPort)
  }

  lemma SlotIsProbe(k: HopKey, i: nat)
    requires i < 256
    ensures SlotAt(k, i) == ProbeSlot(k, i)
  {
    AddWraps(31 * k.switchId + k.egressPort, i);
  }

  lemma AddWraps(a: int, i: nat)
    ensures (a + i) % 256 == (a % 256 + i) % 256
  {
  }

  /** Starting from slot 31 * switch_id + egress_port modulo 256 and going up by one, wrapping
      around, the probe ends at the first slot that is not another port's, or fails after 256. */
  lemma ProbeLaw(t: seq<HopSlot>, k: HopKey)
    requires |t| == 256
    ensures Probe(t, k, 0).None? ==> forall i :: 0 <= i < 256 ==> OfAnother(t, SlotAt(k, i), k)
    ensures Probe(t, k, 0).Some? ==>
              exists i :: 0 <= i < 256 && Probe(t, k, 0).value == SlotAt(k, i) && !OfAnother(t, SlotAt(k, i), k)
                          && forall d :: 0 <= d < i ==> OfAnother(t, SlotAt(k, d), k)
  {
    forall i | 0 <= i < 256
      ensures SlotAt(k, i) == ProbeSlot(k, i)
    {
      SlotIsProbe(k, i);
    }
    ProbeOutcome(t, k, 0);
    if Probe(t, k, 0).Some? {
      var i := ProbeOf(k, Probe(t, k, 0).value);
      assert Probe(t, k, 0).value == SlotAt(k, i) && !OfAnother(t, SlotAt(k, i), k);
      assert forall d :: 0 <= d < i ==> OfAnother(t, SlotAt(k, d), k);
    }
  }

  lemma StoredIsFound(t: seq<HopSlot>, m: Anchors, k: HopKey)
    requires Represents(t, m) && k in m
    ensures Probe(t, k, 0).Some? && HoldsKey(t, Probe(t, k, 0).value, k)
    ensures SlotAnchor(t[Probe(t, k, 0).value]) == m[k]
  {
    var j: nat :| HoldsKey(t, j, k);
    var last := ProbeOf(k, j);
    forall d | 0 <= d < last
      ensures t[ProbeSlot(k, d)].valid && SlotKey(t[ProbeSlot(k, d)]) != k
    {
      assert ProbeSlot(k, d) != j;
    }
    ProbeStopsAt(t, k, 0, last);
  }

  function KeysUpTo(t: seq<HopSlot>, n: nat): set<HopKey>
    requires n <= |t|
  {
    if n == 0 then {} else KeysUpTo(t, n - 1) + {SlotKey(t[n - 1])}
  }

  lemma {:induction false} KeyComesFrom(t: seq<HopSlot>, n: nat, k: HopKey) returns (j: nat)
    requires n <= |t| && k in KeysUpTo(t, n)
    ensures j < n && SlotKey(t[j]) == k
  {
    if SlotKey(t[n - 1]) == k {
      j := n - 1;
    } else {
      j := KeyComesFrom(t, n - 1, k);
    }
  }

  lemma {:induction false} DistinctKeysCount(t: seq<HopSlot>, n: nat)
    requires n <= |t| && NoDuplicates(t) && forall j :: 0 <= j < |t| ==> t[j].valid
    ensures |KeysUpTo(t, n)| == n
  {
    if n > 0 {
      DistinctKeysCount(t, n - 1);
      if SlotKey(t[n - 1]) in KeysUpTo(t, n - 1) {
        var j := KeyComesFrom(t, n - 1, SlotKey(t[n - 1]));
        assert false;
      }
    }
  }

  lemma {:induction false} KeysStored(t: seq<HopSlot>, m: Anchors, n: nat)
    requires n <= |t| && forall j :: 0 <= j < |t| ==> SlotKey(t[j]) in m
    ensures KeysUpTo(t, n) <= m.Keys
  {
    if n > 0 {
      KeysStored(t, m, n - 1);
    }
  }

  lemma {:induction false} SubsetSize<T>(a: set<T>, b: set<T>)
    requires a <= b
    ensures |a| <= |b|
  {
    assert b == a + (b - a);
  }

  lemma AbsentFindsRoom(t: seq<HopSlot>, m: Anchors, k: HopKey)
    requires Represents(t, m) && k !in m && |m| < SIZE
    ensures Probe(t, k, 0).Some? && !t[Probe(t, k, 0).value].valid
  {
    ProbeOutcome(t, k, 0);
    if Probe(t, k, 0).None? {
      forall j | 0 <= j < SIZE
        ensures t[j].valid
      {
        assert t[ProbeSlot(k, ProbeOf(k, j))].valid;
      }
      DistinctKeysCount(t, SIZE);
      KeysStored(t, m, SIZE);
      SubsetSize(KeysUpTo(t, SIZE), m.Keys);
    }
  }

  /** Lookup with creation finds a stored key in its slot and a new key a free slot. */
  lemma LookupFinds(t: seq<HopSlot>, m: Anchors, k: HopKey)
    requires Represents(t, m) && (k in m || |m| < SIZE)
    ensures Probe(t, k, 0).Some?
    ensures t[Probe(t, k, 0).value].valid <==> k in m
    ensures k in m ==> SlotAnchor(t[Probe(t, k, 0).value]) == m[k]
  {
    if k in m {
      StoredIsFound(t, m, k);
    } else {
      AbsentFindsRoom(t, m, k);
    }
  }

  /** Writing the probed slot is the dict assignment, whether the key was there or not. */
  lemma StoreIsInsert(t: seq<HopSlot>, m: Anchors, k: HopKey, x: HopSlot)
    requires Represents(t, m) && Probe(t, k, 0).Some? && SlotKey(x) == k && x.valid
    ensures Represents(t[Probe(t, k, 0).value := x], m[k := SlotAnchor(x)])
  {
    ProbeOutcome(t, k, 0);
    var j := Probe(t, k, 0).value;
    StoreKeepsShape(t, k, j, x);
    StoreKeepsMap(t, m, k, j, x);
  }

  lemma StoreKeepsMap(t: seq<HopSlot>, m: Anchors, k: HopKey, j: nat, x: HopSlot)
    requires Represents(t, m) && j < SIZE && SlotKey(x) == k && x.valid
    requires forall i :: 0 <= i < SIZE && i != j && t[i].valid ==> SlotKey(t[i]) != k
    requires t[j].valid ==> SlotKey(t[j]) == k
    requires NoDuplicates(t[j := x]) && NoGaps(t[j := x])
    ensures Represents(t[j := x], m[k := SlotAnchor(x)])
  {
    var t', m' := t[j := x], m[k := SlotAnchor(x)];
    forall key | key in m'
      ensures exists i: nat :: HoldsKey(t', i, key)
    {
      if key == k {
        assert HoldsKey(t', j, key);
      } else {
        var i: nat :| HoldsKey(t, i, key);
        assert HoldsKey(t', i, key);
      }
    }
  }

  lemma StoreKeepsShape(t: seq<HopSlot>, k: HopKey, j: nat, x: HopSlot)
    requires |t| == SIZE && NoDuplicates(t) && NoGaps(t) && j < SIZE && SlotKey(x) == k && x.valid
    requires t[j].valid ==> SlotKey(t[j]) == k
    requires forall d :: 0 <= d < ProbeOf(k, j) ==> t[ProbeSlot(k, d)].valid && SlotKey(t[ProbeSlot(k, d)]) != k
    ensures NoDuplicates(t[j := x]) && NoGaps(t[j := x])
    ensures forall i :: 0 <= i < SIZE && i != j && t[i].valid ==> SlotKey(t[i]) != k
  {
    var t' := t[j := x];
    forall i | 0 <= i < SIZE && i != j && t[i].valid
      ensures SlotKey(t[i]) != k
    {
      var pi, pj := ProbeOf(k, i), ProbeOf(k, j);
      assert pi < pj || pj < pi;
    }
    forall i, d | 0 <= i < SIZE && t'[i].valid && 0 <= d < ProbeOf(SlotKey(t'[i]), i)
      ensures t'[ProbeSlot(SlotKey(t'[i]), d)].valid
    {
      if i == j {
        assert t[ProbeSlot(k, d)].valid;
      } else {
        assert t[ProbeSlot(SlotKey(t[i]), d)].valid;
      }
    }
  }

  /** The table gives up on a key, and then drops the record that the dict would have
      stored, exactly when it is full and the key is new. */
  lemma LookupFailsIff(t: seq<HopSlot>, m: Anchors, k: HopKey)
    requires Represents(t, m)
    ensures Probe(t, k, 0).None? <==> k !in m && |m| >= SIZE
  {
    if k in m {
      StoredIsFound(t, m, k);
    } else if |m| < SIZE {
      AbsentFindsRoom(t, m, k);
    } else {
      ProbeOutcome(t, k, 0);
      if Probe(t, k, 0).Some? {
        var j := Probe(t, k, 0).value;
        FewerKeysThanSlots(t, m, j, SIZE);
        assert m.Keys <= KeysOfValid(t, SIZE) by {
          forall key | key in m
            ensures key in KeysOfValid(t, SIZE)
          {
            var i: nat :| HoldsKey(t, i, key);
            KeyCounted(t, i, SIZE);
          }
        }
        SubsetSize(m.Keys, KeysOfValid(t, SIZE));
      }
    }
  }

  function KeysOfValid(t: seq<HopSlot>, n: nat): set<HopKey>
    requires n <= |t|
  {
    if n == 0 then {} else KeysOfValid(t, n - 1) + (if t[n - 1].valid then {SlotKey(t[n - 1])} else {})
  }

  lemma {:induction false} KeyCounted(t: seq<HopSlot>, i: nat, n: nat)
    requires i < n <= |t| && t[i].valid
    ensures SlotKey(t[i]) in KeysOfValid(t, n)
  {
    if i < n - 1 {
      KeyCounted(t, i, n - 1);
    }
  }

  lemma {:induction false} FewerKeysThanSlots(t: seq<HopSlot>, m: Anchors, free: nat, n: nat)
    requires Represents(t, m) && free < SIZE && !t[free].valid && n <= SIZE
    ensures |KeysOfValid(t, n)| <= if n > free then n - 1 else n
  {
    if n > 0 {
      FewerKeysThanSlots(t, m, free, n - 1);
    }
  }

  lemma {:induction false} AtMostOnePerSlot(t: seq<HopSlot>, n: nat)
    requires n <= |t|
    ensures |KeysOfValid(t, n)| <= n
  {
    if n > 0 {
      AtMostOnePerSlot(t, n - 1);
    }
  }

  /** The table never represents more keys than it has slots. */
  lemma TableSize(t: seq<HopSlot>, m: Anchors)
    requires Represents(t, m)
    ensures |m| <= SIZE
  {
    forall key | key in m
      ensures key in KeysOfValid(t, SIZE)
    {
      var i: nat :| HoldsKey(t, i, key);
      KeyCounted(t, i, SIZE);
    }
    AtMostOnePerSlot(t, SIZE);
    SubsetSize(m.Keys, KeysOfValid(t, SIZE));
  }
}
