/** The unsigned bit arithmetic of uthash.h on unbounded naturals: masks, shifts and the
    bookkeeping of a bucket expansion. */
module Bits {

  function Pow2(k: nat): (p: nat)
    ensures p >= 1
  {
    if k == 0 then 1 else 2 * Pow2(k - 1)
  }

  /** Bitwise and. */
  function And(x: nat, y: nat): nat {
    if x == 0 || y == 0 then 0
    else 2 * And(x / 2, y / 2) + (if x % 2 == 1 && y % 2 == 1 then 1 else 0)
  }

  /** Shift right by k. */
  function Shr(x: nat, k: nat): nat
    decreases k
  {
    if k == 0 then x else Shr(x / 2, k - 1)
  }

  function CeilDiv(n: nat, d: nat): nat
    requires d > 0
  {
    if n % d == 0 then n / d else n / d + 1
  }

  /** CeilDiv is the least number of d's that reach n. */
  lemma CeilDivIsLeast(n: nat, d: nat)
    requires d > 0
    ensures CeilDiv(n, d) * d >= n && (CeilDiv(n, d) > 0 ==> (CeilDiv(n, d) - 1) * d < n)
  {
    var q, r := n / d, n % d;
    assert n == d * q + r;
    assert q * d == d * q && (q + 1) * d == d * q + d && (q - 1) * d == d * q - d;
  }

  lemma DivModUnique(x: nat, m: nat, q: nat, r: nat)
    requires r < m && x == m * q + r
    ensures x / m == q && x % m == r
  {
    var d := x / m - q;
    assert x == m * (x / m) + x % m;
    assert m * d == r - x % m by {
      assert m * d == m * (x / m) - m * q;
    }
  }

  /** Halving x and then dividing by p is dividing by 2p; the remainder gets the low bit back. */
  lemma HalveThenDivide(x: nat, p: nat)
    requires p > 0
    ensures x / (2 * p) == (x / 2) / p
    ensures x % (2 * p) == 2 * ((x / 2) % p) + x % 2
  {
    var q, r := (x / 2) / p, (x / 2) % p;
    assert x / 2 == p * q + r;
    assert x == (2 * p) * q + (2 * r + x % 2);
    DivModUnique(x, 2 * p, q, 2 * r + x % 2);
  }

  lemma AndOdd(x: nat, q: nat)
    ensures And(x, 2 * q + 1) == 2 * And(x / 2, q) + x % 2
  {
    assert (2 * q + 1) / 2 == q && (2 * q + 1) % 2 == 1;
  }

  /** HASH_TO_BKT: masking with a power of two less one is the remainder. */
  lemma {:induction false} MaskIsMod(x: nat, k: nat)
    ensures And(x, Pow2(k) - 1) == x % Pow2(k)
    decreases k
  {
    if k > 0 {
      HalveThenDivide(x, Pow2(k - 1));
      MaskIsMod(x / 2, k - 1);
      AndOdd(x, Pow2(k - 1) - 1);
      assert Pow2(k) - 1 == 2 * (Pow2(k - 1) - 1) + 1;
    }
  }

  lemma {:induction false} ShiftIsDiv(x: nat, k: nat)
    ensures Shr(x, k) == x / Pow2(k)
    decreases k
  {
    if k > 0 {
      HalveThenDivide(x, Pow2(k - 1));
      ShiftIsDiv(x / 2, k - 1);
    }
  }

  /** The ideal chain length after doubling: the shift-and-mask expression is ceil(n / buckets). */
  lemma IdealIsCeil(n: nat, k: nat)
    ensures Shr(n, k) + (if And(n, Pow2(k) - 1) != 0 then 1 else 0) == CeilDiv(n, Pow2(k))
  {
    MaskIsMod(n, k);
    ShiftIsDiv(n, k);
  }

  lemma ModHalf(x: nat, p: nat, q: nat, r: nat)
    requires r < 2 * p && x == (2 * p) * q + r
    ensures x % p == r % p == if r < p then r else r - p
  {
    if r < p {
      DivModUnique(r, p, 0, r);
      DivModUnique(x, p, 2 * q, r);
    } else {
      DivModUnique(r, p, 1, r - p);
      DivModUnique(x, p, 2 * q + 1, r - p);
    }
  }

  lemma ModOfDouble(x: nat, p: nat)
    requires p > 0
    ensures (x % (2 * p)) % p == x % p
  {
    ModHalf(x, p, x / (2 * p), x % (2 * p));
  }

  /** Under twice as many buckets an item stays in its bucket or moves up by the old number. */
  lemma DoubledMask(x: nat, k: nat)
    ensures And(x, Pow2(k) - 1) < Pow2(k) && And(x, Pow2(k + 1) - 1) < Pow2(k + 1)
    ensures And(x, Pow2(k + 1) - 1) % Pow2(k) == And(x, Pow2(k) - 1)
  {
    MaskIsMod(x, k);
    MaskIsMod(x, k + 1);
    ModOfDouble(x, Pow2(k));
  }

  // ---------------------------------------------------------------- expansion bookkeeping

  /** expand_mult of a bucket after c items were moved into it one by one, ideal length m. */
  function Multiplier(c: nat, m: nat): nat {
    if c == 0 then 0
    else
      var e := Multiplier(c - 1, m);
      if c > m && c > e * m then e + 1 else e
  }

  lemma MultiplierUnfolds(c: nat, m: nat)
    ensures c == 0 ==> Multiplier(c, m) == 0
    ensures c > 0 ==> var e := Multiplier(c - 1, m); Multiplier(c, m) == if c > m && c > e * m then e + 1 else e
  {
  }

  /** One more item keeps the bounds of the multiplier. */
  lemma BoundsStep(c: nat, m: nat, e: nat)
    requires c > 0 && m >= 1 && (e == 0 <==> c - 1 <= m) && (e >= 1 ==> (e - 1) * m < c - 1 <= e * m + 1)
    ensures var e' := if c > m && c > e * m then e + 1 else e;
            (e' == 0 <==> c <= m) && (e' >= 1 ==> (e' - 1) * m < c <= e' * m + 1)
  {
    assert (e + 1) * m == e * m + m;
  }

  /** The multiplier measures the chain in units of the ideal length. */
  lemma {:induction false} MultiplierBounds(c: nat, m: nat)
    requires m >= 1
    ensures Multiplier(c, m) == 0 <==> c <= m
    ensures Multiplier(c, m) >= 1 ==> (Multiplier(c, m) - 1) * m < c <= Multiplier(c, m) * m + 1
  {
    hide Multiplier;
    MultiplierUnfolds(c, m);
    if c > 0 {
      MultiplierBounds(c - 1, m);
      BoundsStep(c, m, Multiplier(c - 1, m));
    }
  }

  /** The sum over all buckets of the items beyond the ideal length m. */
  function Excess(counts: seq<nat>, m: nat): nat {
    if counts == [] then 0
    else (if counts[0] > m then counts[0] - m else 0) + Excess(counts[1..], m)
  }

  /** The excess is counted bucket by bucket. */
  lemma {:induction false} ExcessLaw(a: seq<nat>, c: nat, b: seq<nat>, m: nat)
    ensures Excess(a + [c] + b, m) == Excess(a, m) + (if c > m then c - m else 0) + Excess(b, m)
  {
    if a == [] {
      assert (a + [c] + b)[1..] == b;
    } else {
      assert (a + [c] + b)[1..] == a[1..] + [c] + b;
      ExcessLaw(a[1..], c, b, m);
    }
  }

  function Sum(counts: seq<nat>): nat {
    if counts == [] then 0 else counts[0] + Sum(counts[1..])
  }

  lemma {:induction false} CountUp(counts: seq<nat>, b: nat, m: nat)
    requires b < |counts|
    ensures Excess(counts[b := counts[b] + 1], m) == Excess(counts, m) + (if counts[b] + 1 > m then 1 else 0)
    ensures Sum(counts[b := counts[b] + 1]) == Sum(counts) + 1
  {
    var up := counts[b := counts[b] + 1];
    if b > 0 {
      CountUp(counts[1..], b - 1, m);
      assert up[1..] == counts[1..][b - 1 := counts[b] + 1];
    } else {
      assert up[1..] == counts[1..];
    }
  }

  lemma {:induction false} AllZero(counts: seq<nat>, m: nat)
    requires forall i | 0 <= i < |counts| :: counts[i] == 0
    ensures Excess(counts, m) == 0 && Sum(counts) == 0
  {
    if counts != [] { AllZero(counts[1..], m); }
  }
}
