/** The retransmission timeout that all senders derive from the base RTT. */
module Rto {
  import opened Common

  /** `int(rto_s * 1e6)`, the timeout being three base RTTs within [20 ms, 1 s]. */
  function Timeout(baseRtt: real): (us: nat) {
    (Clamp(3.0 * baseRtt, 0.02, 1.0) * 1000000.0).Floor
  }

  /** A packet sent this many microseconds ago is taken for lost. */
  predicate Overdue(baseRtt: real, age: int) {
    if 3.0 * baseRtt < 0.02 then age >= 20000
    else if 3.0 * baseRtt > 1.0 then age >= 1000000
    else (age + 1) as real > 3000000.0 * baseRtt
  }

  lemma TimeoutMicros(baseRtt: real)
    ensures 3.0 * baseRtt < 0.02 ==> Timeout(baseRtt) == 20000
    ensures 3.0 * baseRtt > 1.0 ==> Timeout(baseRtt) == 1000000
    ensures 0.02 <= 3.0 * baseRtt <= 1.0 ==>
              Timeout(baseRtt) as real <= 3000000.0 * baseRtt < Timeout(baseRtt) as real + 1.0
    ensures 20000 <= Timeout(baseRtt) <= 1000000
  {
    assert 0.02 <= 3.0 * baseRtt <= 1.0 ==> Clamp(3.0 * baseRtt, 0.02, 1.0) == 3.0 * baseRtt;
  }

  /** The test that the timers make, written out. */
  lemma OverdueIff(baseRtt: real, age: int)
    ensures age >= Timeout(baseRtt) <==> Overdue(baseRtt, age)
  {
    TimeoutMicros(baseRtt);
    var us := Timeout(baseRtt);
    if age >= us {
      assert age as real >= us as real;
    } else {
      assert (age + 1) as real <= us as real;
    }
  }
}
