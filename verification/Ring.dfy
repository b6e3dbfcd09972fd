/**
 * The 4096-slot ring, keyed by `seq % 4096`, that extensions/csender/hpcc_sender.c keeps
 * in place of the Python sender's dict of packets in flight.
 */
module Ring {
  import opened Common

  const INFLIGHT_MAX := 4096
  const EMPTY := 0xFFFF_FFFF

  datatype Slot = Slot(seqNo: nat, sentUs: int, wRefSnap: real, incarnationSnap: nat, rtx: nat)

  function Idx(seqNo: nat): (i: nat)
    ensures i < INFLIGHT_MAX
  {
    seqNo % INFLIGHT_MAX
  }

  /** The live slots hold exactly the sequence numbers strictly between `cum` and `next`. */
  ghost predicate Holds(ring: seq<Slot>, cum: int, next: nat) {
    && |ring| == INFLIGHT_MAX && -1 <= cum < next <= EMPTY && next - 1 - cum <= INFLIGHT_MAX
    && (forall i :: 0 <= i < INFLIGHT_MAX && ring[i].seqNo != EMPTY ==>
                      cum < ring[i].seqNo < next && Idx(ring[i].seqNo) == i)
    && (forall k: nat :: cum < k < next ==> ring[Idx(k)].seqNo == k)
  }

  lemma ResiduesDiffer(a: nat, b: nat)
    requires a < b < a + INFLIGHT_MAX
    ensures Idx(a) != Idx(b)
  {
  }

  /** A sequence number is found in its slot exactly when it is in flight. */
  lemma FoundIff(ring: seq<Slot>, cum: int, next: nat, k: nat)
    requires Holds(ring, cum, next) && k != EMPTY
    ensures ring[Idx(k)].seqNo == k <==> cum < k < next
  {
  }

  /** The number that marks an empty slot is found there exactly when that slot is empty, so
      when no packet in flight occupies it. */
  lemma MarkerFoundIff(ring: seq<Slot>, cum: int, next: nat)
    requires Holds(ring, cum, next)
    ensures ring[Idx(EMPTY)].seqNo == EMPTY <==> forall k: nat :: cum < k < next ==> Idx(k) != Idx(EMPTY)
  {
    if ring[Idx(EMPTY)].seqNo != EMPTY {
      assert Idx(ring[Idx(EMPTY)].seqNo) == Idx(EMPTY);
    }
  }

  /** There is always a free slot for the next packet: insertion overwrites no live one. */
  lemma NextSlotFree(ring: seq<Slot>, cum: int, next: nat)
    requires Holds(ring, cum, next) && next - 1 - cum < INFLIGHT_MAX
    ensures ring[Idx(next)].seqNo == EMPTY
  {
    var x := ring[Idx(next)].seqNo;
    if x != EMPTY {
      ResiduesDiffer(x, next);
    }
  }

  lemma InsertHolds(ring: seq<Slot>, cum: int, next: nat, x: Slot)
    requires Holds(ring, cum, next) && next - 1 - cum < INFLIGHT_MAX && next < EMPTY && x.seqNo == next
    ensures Holds(ring[Idx(next) := x], cum, next + 1)
  {
    NextSlotFree(ring, cum, next);
    forall k: nat | cum < k < next
      ensures Idx(k) != Idx(next)
    {
      ResiduesDiffer(k, next);
    }
  }

  /** Freeing the oldest packet moves the lower end of the interval by one. */
  lemma FreeOldest(ring: seq<Slot>, cum: int, next: nat, x: Slot)
    requires Holds(ring, cum, next) && cum + 1 < next && x.seqNo == EMPTY
    ensures Holds(ring[Idx(cum + 1) := x], cum + 1, next)
  {
    forall k: nat | cum + 1 < k < next
      ensures Idx(k) != Idx(cum + 1)
    {
      ResiduesDiffer(cum + 1, k);
    }
  }

  function Low(a: int, b: int): int {
    if a <= b then a else b
  }

  /** One round of the loop that frees slots up to some number: what is found at k is packet
      k, or, past all packets, the marker of an empty slot, which leaves the ring as it is. */
  lemma ClearStep(ring: seq<Slot>, k: nat, next: nat)
    requires Holds(ring, Low(k - 1, next - 1), next) && k <= EMPTY
    ensures ring[Idx(k)].seqNo == k ==>
              (k < next || k == EMPTY)
              && Holds(ring[Idx(k) := ring[Idx(k)].(seqNo := EMPTY)], Low(k, next - 1), next)
    ensures ring[Idx(k)].seqNo != k ==> k >= next && Holds(ring, Low(k, next - 1), next)
  {
    if k < next {
      FreeOldest(ring, k - 1, next, ring[Idx(k)].(seqNo := EMPTY));
    } else if k == EMPTY {
      assert ring[Idx(k)].seqNo == k ==> ring[Idx(k) := ring[Idx(k)].(seqNo := EMPTY)] == ring;
    }
  }

  function LiveSlots(ring: seq<Slot>): set<int> {
    set i | 0 <= i < |ring| && ring[i].seqNo != EMPTY
  }

  function Indices(cum: int, next: nat): set<int>
    requires -1 <= cum < next
    decreases next - cum
  {
    if next == cum + 1 then {} else Indices(cum, next - 1) + {Idx(next - 1)}
  }

  lemma {:induction false} IndexComesFrom(cum: int, next: nat, i: int) returns (k: nat)
    requires -1 <= cum < next && i in Indices(cum, next)
    ensures cum < k < next && Idx(k) == i
    decreases next - cum
  {
    if Idx(next - 1) == i {
      k := next - 1;
    } else {
      k := IndexComesFrom(cum, next - 1, i);
    }
  }

  lemma {:induction false} IndexIsThere(cum: int, next: nat, k: nat)
    requires -1 <= cum < k < next
    ensures Idx(k) in Indices(cum, next)
    decreases next - cum
  {
    if k < next - 1 {
      IndexIsThere(cum, next - 1, k);
    }
  }

  lemma NewIndex(cum: int, next: nat)
    requires -1 <= cum < next - 1 && next - 1 - cum <= INFLIGHT_MAX
    ensures Idx(next - 1) !in Indices(cum, next - 1)
  {
    if Idx(next - 1) in Indices(cum, next - 1) {
      var k := IndexComesFrom(cum, next - 1, Idx(next - 1));
      ResiduesDiffer(k, next - 1);
    }
  }

  lemma OneMore(s: set<int>, x: int)
    requires x !in s
    ensures |s + {x}| == |s| + 1
  {
  }

  lemma {:induction false} IndicesDistinct(cum: int, next: nat)
    requires -1 <= cum < next && next - 1 - cum <= INFLIGHT_MAX
    ensures |Indices(cum, next)| == next - 1 - cum
    decreases next - cum
  {
    if next > cum + 1 {
      IndicesDistinct(cum, next - 1);
      NewIndex(cum, next);
      OneMore(Indices(cum, next - 1), Idx(next - 1));
    }
  }

  /** The number of live slots is the length of the interval. */
  lemma LiveCount(ring: seq<Slot>, cum: int, next: nat)
    requires Holds(ring, cum, next)
    ensures |LiveSlots(ring)| == next - 1 - cum
  {
    IndicesDistinct(cum, next);
    assert LiveSlots(ring) == Indices(cum, next) by {
      forall i | i in LiveSlots(ring)
        ensures i in Indices(cum, next)
      {
        IndexIsThere(cum, next, ring[i].seqNo);
      }
      forall i | i in Indices(cum, next)
        ensures i in LiveSlots(ring)
      {
        var k := IndexComesFrom(cum, next, i);
        assert ring[Idx(k)].seqNo == k;
      }
    }
  }

  // ---- unsigned time differences ----

  const U64 := 0x1_0000_0000_0000_0000

  function Sub64(a: int, b: int): (d: nat)
    ensures d < U64
  {
    (a - b) % U64
  }

  /** The C timer tests an unsigned difference, the Python timer a signed one.  They agree
      exactly when the clock has not stepped back behind the send time, or has done so by
      so much that the wrapped difference is again below the timeout. */
  lemma TimerTestsAgreeIff(now: int, sent: int, rto: nat)
    requires 0 <= now < U64 && 0 <= sent < U64 && 0 < rto < U64
    ensures (Sub64(now, sent) >= rto <==> now - sent >= rto) <==> sent <= now || sent - now > U64 - rto
  {
    if sent <= now {
      assert Sub64(now, sent) == now - sent;
    } else {
      assert Sub64(now, sent) == now - sent + U64;
    }
  }
}
