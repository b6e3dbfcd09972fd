/** The HPCC window update as a map on windows, and how fast it forgets where it started. */
module Window {
  import opened Average
  import opened Common

  const W_MIN := 1.0
  const U_FLOOR := 0.001

  datatype Config = Config(wMax: nat, eta: real, wAi: real, tau: real, baseRtt: real) {
    predicate Valid() {
      wMax >= 1 && eta > 0.0
    }
    function WMax(): real {
      wMax as real
    }
  }

  /** The factor by which an update at smoothed utilisation `u` scales the window. */
  function Gain(c: Config, u: real): (g: real)
    requires c.Valid()
    ensures g > 0.0
  {
    c.eta / Max(u, U_FLOOR)
  }

  function Update(c: Config, w: real, gain: real): (r: real)
    requires c.Valid()
    ensures W_MIN <= r <= c.WMax()
  {
    Clamp(w * gain + c.wAi, W_MIN, c.WMax())
  }

  /** What the senders compute: `w / (max(u, 1e-3) / eta) + w_ai`, clamped. */
  function NextWindow(c: Config, w: real, u: real): real
    requires c.Valid()
  {
    Clamp(w / (Max(u, U_FLOOR) / c.eta) + c.wAi, W_MIN, c.WMax())
  }

  lemma DivideByQuotient(w: real, v: real, eta: real)
    requires v > 0.0 && eta > 0.0
    ensures v / eta != 0.0 && w / (v / eta) == w * (eta / v)
  {
    var q, g := v / eta, eta / v;
    assert q * eta == v && g * v == eta;
    assert q * g == 1.0 by {
      assert (q * g) * v == q * (g * v);
    }
    assert (w * g) * q == w * (q * g);
  }

  lemma NextWindowIsUpdate(c: Config, w: real, u: real)
    requires c.Valid()
    ensures NextWindow(c, w, u) == Update(c, w, Gain(c, u))
  {
    DivideByQuotient(w, Max(u, U_FLOOR), c.eta);
  }

  /** What an update makes of the window `b`, written out: r is `b * eta / max(u, 1/1000) + w_ai`
      where that lies between 1 and w_max, and otherwise the nearer of the two. */
  predicate WindowLaw(c: Config, b: real, u: real, r: real) {
    var v := if u < 0.001 then 0.001 else u;
    && 1.0 <= r <= c.wMax as real
    && (r > 1.0 ==> (r - c.wAi) * v <= b * c.eta)
    && (r < c.wMax as real ==> (r - c.wAi) * v >= b * c.eta)
  }

  lemma ClampLaw(x: real, lo: real, hi: real)
    requires lo <= hi
    ensures var r := Clamp(x, lo, hi); lo <= r <= hi && (r > lo ==> r <= x) && (r < hi ==> r >= x)
  {
  }

  lemma ScaledBack(b: real, v: real, eta: real)
    requires v > 0.0 && eta > 0.0
    ensures v / eta != 0.0 && b / (v / eta) * v == b * eta
  {
    DivideByQuotient(b, v, eta);
    assert eta / v * v == eta;
    assert b * (eta / v) * v == b * (eta / v * v);
  }

  lemma OrderScales(x: real, y: real, v: real)
    requires v > 0.0
    ensures x <= y <==> x * v <= y * v
  {
  }

  lemma NextWindowObeys(c: Config, b: real, u: real)
    requires c.Valid()
    ensures WindowLaw(c, b, u, NextWindow(c, b, u))
  {
    var v, r := Max(u, U_FLOOR), NextWindow(c, b, u);
    ScaledBack(b, v, c.eta);
    var q := b / (v / c.eta);
    ClampLaw(q + c.wAi, W_MIN, c.WMax());
    OrderScales(r - c.wAi, q, v);
    OrderScales(q, r - c.wAi, v);
  }

  /** The law leaves one window, the one that the senders compute; strictly between the
      bounds it is an equation. */
  lemma WindowLawIff(c: Config, b: real, u: real, r: real)
    requires c.Valid()
    ensures WindowLaw(c, b, u, r) <==> r == NextWindow(c, b, u)
    ensures WindowLaw(c, b, u, r) && 1.0 < r < c.wMax as real ==>
              (r - c.wAi) * (if u < 0.001 then 0.001 else u) == b * c.eta
  {
    NextWindowObeys(c, b, u);
    var v := if u < 0.001 then 0.001 else u;
    OrderScales(r - c.wAi, NextWindow(c, b, u) - c.wAi, v);
    OrderScales(NextWindow(c, b, u) - c.wAi, r - c.wAi, v);
  }

  // ---- the same feedback closes the gap between two windows ----

  lemma ScaleLe(g: real, x: real, y: real)
    requires g >= 0.0 && x <= y
    ensures g * x <= g * y
  {
  }

  lemma ClampContracts(x: real, y: real, lo: real, hi: real)
    ensures Abs(Clamp(x, lo, hi) - Clamp(y, lo, hi)) <= Abs(x - y)
  {
  }

  lemma OneUpdateContracts(c: Config, w1: real, w2: real, g: real)
    requires c.Valid() && g > 0.0
    ensures Abs(Update(c, w1, g) - Update(c, w2, g)) <= g * Abs(w1 - w2)
  {
    ClampContracts(w1 * g + c.wAi, w2 * g + c.wAi, W_MIN, c.WMax());
    assert (w1 * g + c.wAi) - (w2 * g + c.wAi) == g * (w1 - w2);
  }

  /** The window after one update per gain, the last one last. */
  function After(c: Config, w: real, gains: seq<real>): real
    requires c.Valid()
  {
    if gains == [] then w else Update(c, After(c, w, gains[..|gains| - 1]), gains[|gains| - 1])
  }

  /** The first gap times all the gains. */
  function ScaledGap(gap: real, gains: seq<real>): real {
    if gains == [] then gap else Times(gains[|gains| - 1], ScaledGap(gap, gains[..|gains| - 1]))
  }

  predicate Positive(gains: seq<real>) {
    forall i :: 0 <= i < |gains| ==> gains[i] > 0.0
  }

  lemma GapStep(c: Config, x: real, y: real, g: real, b: real, b': real)
    requires c.Valid() && g > 0.0 && Abs(x - y) <= b && b' == Times(g, b)
    ensures Abs(Update(c, x, g) - Update(c, y, g)) <= b'
  {
    OneUpdateContracts(c, x, y, g);
    ScaleLe(g, Abs(x - y), b);
  }

  /** Windows updated with the same gains are at most their first gap times the gains apart. */
  lemma {:induction false} SameGainsContract(c: Config, w1: real, w2: real, gains: seq<real>)
    requires c.Valid() && Positive(gains)
    ensures Abs(After(c, w1, gains) - After(c, w2, gains)) <= ScaledGap(Abs(w1 - w2), gains)
  {
    if gains != [] {
      var front, g := gains[..|gains| - 1], gains[|gains| - 1];
      SameGainsContract(c, w1, w2, front);
      var gap := Abs(w1 - w2);
      GapStep(c, After(c, w1, front), After(c, w2, front), g, ScaledGap(gap, front), ScaledGap(gap, gains));
    }
  }

  // ---- constant overload ----

  /** Where updates with one gain below 1 rest. */
  function Equilibrium(c: Config, g: real): real
    requires c.Valid() && 0.0 < g < 1.0
  {
    Clamp(c.wAi / (1.0 - g), W_MIN, c.WMax())
  }

  function Repeat(g: real, n: nat): (gains: seq<real>)
    ensures |gains| == n && forall i :: 0 <= i < n ==> gains[i] == g
  {
    seq(n, _ => g)
  }

  lemma SignOfProduct(x: real, y: real)
    requires y > 0.0
    ensures x >= 0.0 ==> x * y >= 0.0
    ensures x <= 0.0 ==> x * y <= 0.0
  {
  }

  /** An affine step with slope below 1 moves towards its fixed point. */
  lemma StepsTowards(e: real, p: real, g: real, a: real)
    requires 0.0 < g < 1.0 && a == p * (1.0 - g)
    ensures e <= p ==> e * g + a >= e
    ensures e >= p ==> e * g + a <= e
  {
    SignOfProduct(p - e, 1.0 - g);
    assert e * g + a == e + (p - e) * (1.0 - g);
  }

  lemma EquilibriumIsFixed(c: Config, g: real)
    requires c.Valid() && 0.0 < g < 1.0
    ensures Update(c, Equilibrium(c, g), g) == Equilibrium(c, g)
  {
    var p := c.wAi / (1.0 - g);
    assert c.wAi == p * (1.0 - g);
    StepsTowards(Equilibrium(c, g), p, g, c.wAi);
  }

  lemma {:induction false} EquilibriumStays(c: Config, g: real, n: nat)
    requires c.Valid() && 0.0 < g < 1.0
    ensures After(c, Equilibrium(c, g), Repeat(g, n)) == Equilibrium(c, g)
  {
    if n > 0 {
      EquilibriumStays(c, g, n - 1);
      assert Repeat(g, n)[..n - 1] == Repeat(g, n - 1);
      EquilibriumIsFixed(c, g);
    }
  }

  /** A gap after n steps that scale it by g: g^n times the gap. */
  function Decayed(gap: real, g: real, n: nat): real {
    if n == 0 then gap else Times(g, Decayed(gap, g, n - 1))
  }

  lemma {:induction false} DecayedIsPower(gap: real, g: real, n: nat)
    ensures Decayed(gap, g, n) == Pow(g, n) * gap
  {
    if n > 0 {
      DecayedIsPower(gap, g, n - 1);
      TimesAssociate(g, Pow(g, n - 1), gap);
    }
  }

  lemma TimesAssociate(g: real, p: real, gap: real)
    ensures g * (p * gap) == (g * p) * gap
  {
  }

  lemma {:induction false} ConstantGain(gap: real, g: real, n: nat)
    ensures ScaledGap(gap, Repeat(g, n)) == Decayed(gap, g, n)
  {
    if n > 0 {
      ConstantGain(gap, g, n - 1);
      assert Repeat(g, n)[..n - 1] == Repeat(g, n - 1);
    }
  }

  /** Overloaded at a constant level, the window converges geometrically to the clamped
      w_ai / (1 - gain), from anywhere. */
  lemma OverloadConverges(c: Config, w: real, g: real, n: nat)
    requires c.Valid() && 0.0 < g < 1.0
    ensures Abs(After(c, w, Repeat(g, n)) - Equilibrium(c, g)) <= Decayed(Abs(w - Equilibrium(c, g)), g, n)
  {
    var e := Equilibrium(c, g);
    SameGainsContract(c, w, e, Repeat(g, n));
    EquilibriumStays(c, g, n);
    ConstantGain(Abs(w - e), g, n);
  }

  /** A gain is below 1 exactly when the utilisation is above the target (and the floor). */
  lemma GainBelowOneIff(c: Config, u: real)
    requires c.Valid()
    ensures Gain(c, u) < 1.0 <==> Max(u, U_FLOOR) > c.eta
  {
    var v, g := Max(u, U_FLOOR), Gain(c, u);
    assert g * v == c.eta;
    assert g < 1.0 ==> g * v < v;
    assert g >= 1.0 ==> g * v >= v;
  }

  // ---- underload ----

  lemma GrowthStep(c: Config, x: real, g: real, r: real)
    requires c.Valid() && c.wAi >= 0.0 && g >= 1.0 && x >= 0.0 && x >= Min(r, c.WMax())
    ensures Update(c, x, g) >= Min(r + c.wAi, c.WMax())
  {
    assert x * g >= x;
  }

  function Ramp(w: real, a: real, n: nat): real {
    if n == 0 then w else Ramp(w, a, n - 1) + a
  }

  lemma {:induction false} RampIsLinear(w: real, a: real, n: nat)
    ensures Ramp(w, a, n) == w + n as real * a
  {
    if n > 0 {
      RampIsLinear(w, a, n - 1);
      assert n as real == (n - 1) as real + 1.0;
    }
  }

  /** With gains of at least 1, every update adds at least `w_ai` until the cap. */
  lemma {:induction false} UnderloadGrows(c: Config, w: real, gains: seq<real>)
    requires c.Valid() && c.wAi >= 0.0 && w >= 0.0
    requires forall i :: 0 <= i < |gains| ==> gains[i] >= 1.0
    ensures After(c, w, gains) >= 0.0
    ensures After(c, w, gains) >= Min(Ramp(w, c.wAi, |gains|), c.WMax())
  {
    if gains != [] {
      var front, g := gains[..|gains| - 1], gains[|gains| - 1];
      UnderloadGrows(c, w, front);
      GrowthStep(c, After(c, w, front), g, Ramp(w, c.wAi, |front|));
    }
  }

  lemma EnoughUpdates(w: real, a: real, hi: real, n: nat)
    requires a > 0.0 && n as real >= (hi - w) / a
    ensures Ramp(w, a, n) >= hi
  {
    var need := (hi - w) / a;
    ScaleLe(a, need, n as real);
    assert a * need == hi - w;
    RampIsLinear(w, a, n);
  }

  lemma AfterIsCapped(c: Config, w: real, gains: seq<real>)
    requires c.Valid() && (gains != [] || w <= c.WMax())
    ensures After(c, w, gains) <= c.WMax()
  {
  }

  /** So the cap is reached within (w_max - w) / w_ai updates, rounded up. */
  lemma UnderloadReachesCap(c: Config, w: real, gains: seq<real>)
    requires c.Valid() && c.wAi > 0.0 && 0.0 <= w <= c.WMax()
    requires forall i :: 0 <= i < |gains| ==> gains[i] >= 1.0
    requires |gains| as real >= (c.WMax() - w) / c.wAi
    ensures After(c, w, gains) == c.WMax()
  {
    UnderloadGrows(c, w, gains);
    EnoughUpdates(w, c.wAi, c.WMax(), |gains|);
    AfterIsCapped(c, w, gains);
  }
}
