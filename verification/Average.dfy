/** The exponentially weighted moving average of both controllers, step by step and in sum. */
module Average {
  function Ewma(g: real, average: real, sample: real): real {
    (1.0 - g) * average + g * sample
  }

  function Pow(r: real, n: nat): real {
    if n == 0 then 1.0 else r * Pow(r, n - 1)
  }

  function Times(a: real, x: real): real {
    a * x
  }

  /** g * r^n * f. */
  function Term(g: real, power: real, f: real): real {
    g * power * f
  }

  /** The sum over k < m of g * (1 - g)^(n - 1 - k) * fs[k]. */
  function Weighted(g: real, fs: seq<real>, m: nat, n: nat): real
    requires m <= |fs| && m <= n
  {
    if m == 0 then 0.0 else Weighted(g, fs, m - 1, n) + Term(g, Pow(1.0 - g, n - m), fs[m - 1])
  }

  lemma ScaleTerm(a: real, g: real, p: real, p': real, f: real)
    requires p' == a * p
    ensures Term(g, p', f) == Times(a, Term(g, p, f))
  {
    assert g * (a * p) * f == a * (g * p * f);
  }

  lemma Distribute(a: real, x: real, y: real)
    ensures Times(a, x + y) == Times(a, x) + Times(a, y)
  {
  }

  lemma {:induction false} WeightedShifts(g: real, fs: seq<real>, fs': seq<real>, m: nat, n: nat)
    requires m <= |fs| && m <= n && fs <= fs'
    ensures Weighted(g, fs', m, n + 1) == Times(1.0 - g, Weighted(g, fs, m, n))
  {
    if m > 0 {
      WeightedShifts(g, fs, fs', m - 1, n);
      var p, p' := Pow(1.0 - g, n - m), Pow(1.0 - g, n + 1 - m);
      ScaleTerm(1.0 - g, g, p, p', fs[m - 1]);
      Distribute(1.0 - g, Weighted(g, fs, m - 1, n), Term(g, p, fs[m - 1]));
    }
  }

  lemma LastTerm(g: real, x: real, f: real)
    ensures Times(1.0 - g, x) + Term(g, 1.0, f) == Ewma(g, x, f)
  {
  }

  lemma WeightedNext(g: real, fs: seq<real>, f: real)
    ensures Weighted(g, fs + [f], |fs| + 1, |fs| + 1) == Ewma(g, Weighted(g, fs, |fs|, |fs|), f)
  {
    WeightedShifts(g, fs, fs + [f], |fs|, |fs|);
    LastTerm(g, Weighted(g, fs, |fs|, |fs|), f);
  }

  /** The weight that the initial average has left after n samples, and the samples' share. */
  function Smoothed(g: real, start: real, samples: seq<real>): real {
    Times(start, Pow(1.0 - g, |samples|)) + Weighted(g, samples, |samples|, |samples|)
  }

  lemma RegroupStep(g: real, start: real, p: real, p': real, x: real, f: real)
    requires p' == (1.0 - g) * p
    ensures Times(start, p') + Ewma(g, x, f) == Ewma(g, Times(start, p) + x, f)
  {
    assert start * ((1.0 - g) * p) == (1.0 - g) * (start * p);
  }

  lemma SmoothedNext(g: real, start: real, samples: seq<real>, f: real)
    ensures Smoothed(g, start, samples + [f]) == Ewma(g, Smoothed(g, start, samples), f)
  {
    var n := |samples|;
    WeightedNext(g, samples, f);
    RegroupStep(g, start, Pow(1.0 - g, n), Pow(1.0 - g, n + 1), Weighted(g, samples, n, n), f);
  }
}
