/** The documented O(n log n) of the sort macros, with its constants. */
module SortCosts {
  import opened Bits
  import opened StableSorting
  import opened ListSort

  /** The least e with n <= 2^e. */
  function CeilLog2(n: nat): nat {
    if n <= 1 then 0 else 1 + CeilLog2((n + 1) / 2)
  }

  lemma {:induction false} CeilLog2IsLeast(n: nat)
    ensures n <= Pow2(CeilLog2(n))
    ensures n > 1 ==> CeilLog2(n) > 0 && Pow2(CeilLog2(n) - 1) < n
  {
    if n > 1 {
      CeilLog2IsLeast((n + 1) / 2);
      if (n + 1) / 2 > 1 {
        assert CeilLog2(n) - 1 == CeilLog2((n + 1) / 2);
        assert Pow2(CeilLog2(n) - 1) == 2 * Pow2(CeilLog2((n + 1) / 2) - 1);
      } else {
        assert CeilLog2(n) == 1 && Pow2(0) == 1;
      }
    }
  }

  lemma {:induction false} Pow2Monotone(a: nat, b: nat)
    requires a <= b
    ensures Pow2(a) <= Pow2(b)
    decreases b
  {
    if a < b { Pow2Monotone(a, b - 1); }
  }

  /** The outer loop makes max(1, ceil(log2 n) - i) passes from runs of length 2^i on. */
  lemma {:induction false} PassesAreLogarithmic(n: nat, i: nat, k: nat)
    requires k == Pow2(i)
    ensures Passes(n, k) == if CeilLog2(n) <= i + 1 then 1 else CeilLog2(n) - i
    decreases if n > k then n - k else 0
  {
    var l := CeilLog2(n);
    CeilLog2IsLeast(n);
    if n <= 2 * k {
      if l > i + 1 {
        Pow2Monotone(i + 1, l - 1);
        assert Pow2(i + 1) == 2 * k;
      }
    } else {
      assert Pow2(i + 1) == 2 * k;
      if l <= i + 1 { Pow2Monotone(l, i + 1); }
      PassesAreLogarithmic(n, i + 1, 2 * k);
    }
  }

  lemma {:induction false} CostIsPerPass(n: nat, k: nat)
    requires k > 0
    ensures SortCost(n, k) == n * Passes(n, k)
    decreases if n > k then n - k else 0
  {
    if n > 2 * k {
      CostIsPerPass(n, 2 * k);
      assert n * (1 + Passes(n, 2 * k)) == n + n * Passes(n, 2 * k);
    }
  }

  /** Sorting n elements takes at most n * max(1, ceil(log2 n)) comparisons. */
  lemma SortIsNLogN(n: nat)
    ensures SortCost(n, 1) == n * (if CeilLog2(n) == 0 then 1 else CeilLog2(n))
  {
    CostIsPerPass(n, 1);
    assert Pow2(0) == 1;
    PassesAreLogarithmic(n, 0, 1);
  }

  /** Taking d off n takes one off the rounded-up quotient. */
  lemma CeilStep(n: nat, d: nat)
    requires n > 0 && d > 0
    ensures CeilDiv(n, d) == 1 + CeilDiv(n - Min(d, n), d)
  {
    if n < d {
      DivModUnique(n, d, 0, n);
      DivModUnique(0, d, 0, 0);
    } else {
      var m := n - d;
      var q, r := m / d, m % d;
      assert m == d * q + r;
      assert n == d * (q + 1) + r;
      DivModUnique(n, d, q + 1, r);
    }
  }

  /** A pass over n elements with runs of length k makes ceil(n / 2k) merges. */
  lemma {:induction false} MergesPerPass(n: nat, k: nat)
    requires k > 0
    ensures Merges(n, k) == CeilDiv(n, 2 * k)
    decreases n
  {
    hide CeilDiv;
    if n == 0 {
      NoneIsZero(2 * k);
    } else {
      CeilStep(n, 2 * k);
      MergesPerPass(n - Min(2 * k, n), k);
    }
  }

  lemma NoneIsZero(d: nat)
    requires d > 0
    ensures CeilDiv(0, d) == 0
  {
    DivModUnique(0, d, 0, 0);
  }
}
