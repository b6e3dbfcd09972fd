/** Unsigned big-endian integers, the only integer encoding of the wire format. */
module Bytes {
  type byte = x: int | 0 <= x < 256
  type bytes = seq<byte>

  function Pow256(n: nat): (p: nat)
    ensures p > 0
  {
    if n == 0 then 1 else 256 * Pow256(n - 1)
  }

  /** `v.to_bytes(n, "big")` for a value that fits. */
  function BE(n: nat, v: nat): (b: bytes)
    ensures |b| == n
  {
    if n == 0 then [] else BE(n - 1, v / 256) + [v % 256]
  }

  /** `int.from_bytes(b, "big")`. */
  function FromBE(b: bytes): nat {
    if b == [] then 0 else FromBE(b[..|b| - 1]) * 256 + b[|b| - 1]
  }

  predicate Fits(n: nat, v: int) {
    0 <= v < Pow256(n)
  }

  lemma {:induction false} FromBEFits(b: bytes)
    ensures Fits(|b|, FromBE(b))
  {
    if b != [] {
      FromBEFits(b[..|b| - 1]);
    }
  }

  lemma {:induction false} DecodeEncode(n: nat, v: nat)
    requires Fits(n, v)
    ensures FromBE(BE(n, v)) == v
  {
    if n > 0 {
      DecodeEncode(n - 1, v / 256);
      assert BE(n, v)[..n - 1] == BE(n - 1, v / 256);
    }
  }

  lemma {:induction false} EncodeDecode(b: bytes)
    ensures BE(|b|, FromBE(b)) == b
  {
    if b != [] {
      var front := b[..|b| - 1];
      EncodeDecode(front);
      assert FromBE(b) / 256 == FromBE(front) && FromBE(b) % 256 == b[|b| - 1];
      assert b == front + [b[|b| - 1]];
    }
  }

  function Zeros(n: nat): (b: bytes)
    ensures |b| == n && forall i :: 0 <= i < n ==> b[i] == 0
  {
    seq(n, _ => 0)
  }

  // ---- slices and concatenations ----

  lemma SliceOfSlice(f: bytes, lo: nat, hi: nat, a: nat, b: nat)
    requires lo <= hi <= |f| && a <= b <= hi - lo
    ensures f[lo..hi][a..b] == f[lo + a..lo + b]
  {
    forall i | 0 <= i < b - a
      ensures f[lo..hi][a..b][i] == f[lo + a..lo + b][i]
    {
      assert f[lo..hi][a..b][i] == f[lo..hi][a + i] == f[lo + a + i];
    }
  }

  lemma TailSlice(f: bytes, lo: nat, a: nat, b: nat)
    requires lo <= |f| && a <= b <= |f| - lo
    ensures f[lo..][a..b] == f[lo + a..lo + b]
  {
    SliceOfSlice(f, lo, |f|, a, b);
    assert f[lo..|f|] == f[lo..];
  }

  lemma CutInFour(p: bytes, a: nat, b: nat, c: nat)
    requires a <= b <= c <= |p|
    ensures p == p[..a] + p[a..b] + p[b..c] + p[c..]
    ensures p[a..][..b - a] == p[a..b]
  {
  }

  lemma Associate(a: bytes, b: bytes, c: bytes)
    ensures (a + b) + c == a + (b + c)
  {
  }
}
