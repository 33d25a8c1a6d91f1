/** The arithmetic that keeps the load of the hash table in range. */
module Load {
  import opened Common
  import opened Bits

  const MAX_SIZE: nat := 0x1000_0000_0000_0000   // 2^60, the limit of 64-bit builds
  const MIN_TABLE_SIZE: nat := 8

  /** `x << k` before any wrap-around. */
  function Shl(x: nat, k: nat): nat {
    if k == 0 then x else 2 * Shl(x, k - 1)
  }

  /** `x >> k`. */
  function Shr(x: nat, k: nat): nat {
    if k == 0 then x else Shr(x, k - 1) / 2
  }

  /** A power of two no less than the minimum and `n`, given that `n` is a power of two or below the minimum. */
  function TableSize(n: nat): nat {
    if n < MIN_TABLE_SIZE then MIN_TABLE_SIZE else n
  }

  function HiCutoff(buckets: nat): nat {
    buckets * 12 / 16
  }

  /** How full a table may be as long as it may still grow. */
  predicate LoadOk(elements: nat, buckets: nat) {
    buckets <= MAX_SIZE / 2 ==> 5 * elements < 6 * buckets
  }

  lemma MaxSizeIsPow2()
    ensures MAX_SIZE == Pow2(60) && MAX_SIZE / 2 == Pow2(59)
  {
    Pow2Of64();
    assert Pow2(64) == 16 * Pow2(60);
  }

  /** Doubling a table that was within the load leaves it within the load after one more insertion. */
  lemma GrowKeepsLoad(elements: nat, e: nat)
    requires 3 <= e <= 60 && LoadOk(elements, Pow2(e)) && Pow2(e) <= MAX_SIZE / 2
    ensures LoadOk(elements + 1, 2 * Pow2(e)) && e < 60
    ensures Pow2(e + 1) == 2 * Pow2(e)
  {
    MaxSizeIsPow2();
    Pow2Monotone(3, e);
    assert Pow2(3) == 8;
  }

  lemma {:induction false} ShrOfPow2(e: nat, k: nat)
    ensures Shr(Pow2(e), k) == if k <= e then Pow2(e - k) else 0
  {
    if k > 0 {
      ShrOfPow2(e, k - 1);
    }
  }

  /** If `h << j` is below three quarters of `2^e`, then `h` is below three quarters of `2^(e - j)`. */
  lemma {:induction false} ShlBelow(h: nat, j: nat, e: nat)
    requires j <= e && 4 * Shl(h, j) < 3 * Pow2(e)
    ensures 4 * h < 3 * Pow2(e - j)
  {
    if j > 0 {
      ShlBelow(h, j - 1, e - 1);
    }
  }

  lemma {:induction false} ShlAtLeast(h: nat, j: nat)
    requires h >= 1
    ensures Shl(h, j) >= Pow2(j)
  {
    if j > 0 {
      ShlAtLeast(h, j - 1);
    }
  }

  /** The shrunken table, which is the reduction the loop settles on but at least the minimum, is a
      smaller power of two and within the load. */
  lemma ShrinkKeepsLoad(elements: nat, e: nat, k: nat) returns (e': nat)
    requires 3 < e && 1 <= k
    requires elements <= HiCutoff(Pow2(e)) / 4
    requires k == 1 || Shl(elements * 5 / 4 + 1, k - 1) < HiCutoff(Pow2(e))
    ensures 3 <= e' < e && e' == (if k + 3 <= e then e - k else 3)
    ensures var n := Shr(Pow2(e), k); (if n < MIN_TABLE_SIZE then MIN_TABLE_SIZE else n) == Pow2(e')
    ensures Pow2(e') < Pow2(e) && LoadOk(elements, Pow2(e'))
  {
    var h := elements * 5 / 4 + 1;
    ShrOfPow2(e, k);
    ShlAtLeast(h, k - 1);
    assert Pow2(3) == MIN_TABLE_SIZE;
    e' := if k + 3 <= e then e - k else 3;
    Pow2Monotone(e', e - 1);
    Pow2Monotone(3, e');
    if k > e + 1 {
      Pow2Monotone(e + 1, k - 1);
    } else {
      if k > 1 {
        ShlBelow(h, k - 1, e);
      }
      assert 5 * elements < 4 * h && (k <= e ==> Pow2(e - k + 1) == 2 * Pow2(e - k));
      if k + 3 > e {
        Pow2Monotone(e - k + 1, 3);
      }
    }
    if k <= e && k + 3 > e {
      Pow2Monotone(e - k, 3);
    }
  }

  // ---------------------------------------------------------------- how far a table shrinks

  /** The shift at which the loop stops when it starts at `k`. */
  function StopAt(h: nat, k: nat, hi: nat): (r: nat)
    requires h >= 1
    ensures k <= r && !(Shl(h, r) < hi) && (k < r ==> Shl(h, r - 1) < hi)
    decreases hi - Shl(h, k)
  {
    if Shl(h, k) < hi then
      ShlAtLeast(h, k);
      StopAt(h, k + 1, hi)
    else k
  }

  /** The number of buckets a table with too few elements shrinks to. */
  function Reduced(elements: nat, buckets: nat): nat {
    var n := Shr(buckets, StopAt(elements * 5 / 4 + 1, 1, HiCutoff(buckets)));
    if n < MIN_TABLE_SIZE then MIN_TABLE_SIZE else n
  }

  /** The number of buckets when the `size`-th element goes in. */
  function NextBuckets(size: nat, buckets: nat): nat {
    if size >= HiCutoff(buckets) then (if buckets <= MAX_SIZE / 2 then buckets * 2 else buckets)
    else if size <= HiCutoff(buckets) / 4 && buckets > MIN_TABLE_SIZE then Reduced(size, buckets)
    else buckets
  }

  /** If `h << j` reaches three quarters of `2^e`, then `h` reaches three quarters of `2^(e - j)`. */
  lemma {:induction false} ShlReaches(h: nat, j: nat, e: nat)
    requires j <= e && 4 * Shl(h, j) >= 3 * Pow2(e)
    ensures 4 * h >= 3 * Pow2(e - j)
  {
    if j > 0 {
      ShlReaches(h, j - 1, e - 1);
    }
  }

  /** Where the estimate of the code lies: between the cutoff of the new table and its double, and below the cutoff
      of the smallest table if that is what limits the reduction. */
  lemma EstimateOfReduced(elements: nat, e: nat) returns (e': nat)
    requires 3 < e && elements <= HiCutoff(Pow2(e)) / 4
    ensures 3 <= e' < e && Reduced(elements, Pow2(e)) == Pow2(e')
    ensures var h := elements * 5 / 4 + 1; h < 3 * Pow2(e' - 1) && (e' > 3 || h >= 6 ==> 3 * Pow2(e' - 2) <= h)
    ensures LoadOk(elements, Pow2(e'))
  {
    hide Shl, Shr, Pow2, HiCutoff, LoadOk;
    var h := elements * 5 / 4 + 1;
    var k := StopAt(h, 1, HiCutoff(Pow2(e)));
    e' := ShrinkKeepsLoad(elements, e, k);
    BelowTheDouble(elements, e, k);
    SmallPowers();
    if k + 3 <= e {
      ReachesTheCutoff(h, e, k);
    }
  }

  lemma SmallPowers()
    ensures Pow2(1) == 2 && Pow2(2) == 4 && Pow2(3) == 8
  {
  }

  lemma ReachesTheCutoff(h: nat, e: nat, k: nat)
    requires k + 2 <= e && Shl(h, k) >= HiCutoff(Pow2(e))
    ensures 3 * Pow2(e - k - 2) <= h
  {
    Quarter(e);
    Quarter(e - k);
    ShlReaches(h, k, e);
  }

  lemma BelowTheDouble(elements: nat, e: nat, k: nat)
    requires 3 < e && 1 <= k && elements <= HiCutoff(Pow2(e)) / 4
    requires k == 1 || Shl(elements * 5 / 4 + 1, k - 1) < HiCutoff(Pow2(e))
    ensures elements * 5 / 4 + 1 < if k + 3 <= e then 3 * Pow2(e - k - 1) else 12
  {
    var h := elements * 5 / 4 + 1;
    Quarter(e);
    if k == 1 {
      BelowHalf(elements, e);
    } else if k <= e + 1 {
      ShlBelow(h, k - 1, e);
      if k + 3 <= e {
        Quarter(e - k + 1);
      } else {
        SmallPowers();
        Pow2Monotone(e - k + 1, 3);
      }
    } else {
      ShlAtLeast(h, k - 1);
      Pow2Monotone(e + 1, k - 1);
    }
  }

  lemma Quarter(e: nat)
    requires e >= 2
    ensures Pow2(e) == 4 * Pow2(e - 2) && Pow2(e) == 2 * Pow2(e - 1) && HiCutoff(Pow2(e)) == 3 * Pow2(e - 2)
  {
  }

  lemma BelowHalf(elements: nat, e: nat)
    requires 3 < e && elements <= HiCutoff(Pow2(e)) / 4
    ensures elements * 5 / 4 + 1 < 3 * Pow2(e - 2)
  {
    Quarter(e);
    Quarter(e - 2);
  }

  /** No cutoff lies above the next size and up to the estimate that the reduction aims at. */
  ghost predicate GrowsAgain(elements: nat) {
    elements >= 4 && !exists j: nat :: elements + 1 < 3 * Pow2(j) <= elements * 5 / 4 + 1
  }

  /** After a reduction for the `elements`-th element, exactly when no cutoff lies between the next size and the
      estimate, the next element makes the table grow again. */
  lemma GrowsAgainExactly(elements: nat, e: nat)
    requires 3 < e <= 60 && elements <= HiCutoff(Pow2(e)) / 4
    ensures
      var n := NextBuckets(elements, Pow2(e));
      && n == Reduced(elements, Pow2(e)) < Pow2(e)
      && (NextBuckets(elements + 1, n) == 2 * n <==> GrowsAgain(elements))
      && (NextBuckets(elements + 1, n) == n <==> !GrowsAgain(elements))
  {
    hide *;
    var e' := EstimateOfReduced(elements, e);
    ReducesNow(elements, e);
    Pow2Monotone(e' + 1, e);
    DoublePow2(e');
    CutoffInBetween(elements, e');
    AfterReduction(elements, e');
  }

  lemma DoublePow2(e: nat)
    ensures Pow2(e) > 0 && Pow2(e + 1) == 2 * Pow2(e)
  {
  }

  lemma ReducesNow(elements: nat, e: nat)
    requires 3 < e && elements <= HiCutoff(Pow2(e)) / 4
    ensures NextBuckets(elements, Pow2(e)) == Reduced(elements, Pow2(e))
  {
    Quarter(e);
    Pow2Monotone(4, e);
    assert Pow2(4) == 16;
  }

  lemma CutoffInBetween(elements: nat, e: nat)
    requires
      var h := elements * 5 / 4 + 1;
      e >= 3 && h < 3 * Pow2(e - 1) && (e > 3 || h >= 6 ==> 3 * Pow2(e - 2) <= h)
    ensures GrowsAgain(elements) <==> elements + 1 >= 3 * Pow2(e - 2)
  {
    if elements >= 4 {
      NoCutoffBetween(elements, e - 2);
    } else {
      Pow2Monotone(1, e - 2);
      assert Pow2(1) == 2;
    }
  }

  /** The next element makes the reduced table grow when its number reaches the cutoff, and does not reduce it again. */
  lemma AfterReduction(elements: nat, e: nat)
    requires 3 <= e <= 59 && (e > 3 ==> 3 * Pow2(e - 2) <= elements * 5 / 4 + 1)
    ensures
      NextBuckets(elements + 1, Pow2(e)) == if elements + 1 >= 3 * Pow2(e - 2) then 2 * Pow2(e) else Pow2(e)
  {
    MaxSizeIsPow2();
    Pow2Monotone(e, 59);
    Quarter(e);
    assert Pow2(3) == 8;
  }

  /** With the estimate between the cutoff `3 * 2^d` and its double, that cutoff is the only one that can lie in
      between. */
  lemma NoCutoffBetween(elements: nat, d: nat)
    requires elements >= 4 && 3 * Pow2(d) <= elements * 5 / 4 + 1 < 3 * Pow2(d + 1)
    ensures GrowsAgain(elements) <==> elements + 1 >= 3 * Pow2(d)
  {
    if elements + 1 >= 3 * Pow2(d) {
      forall j: nat ensures elements + 1 >= 3 * Pow2(j) || 3 * Pow2(j) > elements * 5 / 4 + 1 {
        if j <= d {
          Pow2Monotone(j, d);
        } else {
          Pow2Monotone(d + 1, j);
        }
      }
    }
  }

  /** The smallest such case of a table of 64 buckets: it shrinks to 16 for the twelfth element, which is already their
      cutoff, and the thirteenth makes it grow. */
  lemma ShrinkCanReachTheCutoff()
    ensures var h := 12 * 5 / 4 + 1;
      Shl(h, 1) < HiCutoff(64) && !(Shl(h, 2) < HiCutoff(64)) && Shr(64, 2) == 16 && 12 == HiCutoff(16)
    ensures NextBuckets(12, 64) == 16 && NextBuckets(13, 16) == 32
  {
    assert Shl(16, 1) == 2 * Shl(16, 0) && Shl(16, 2) == 2 * Shl(16, 1);
    assert Shr(64, 1) == Shr(64, 0) / 2 && Shr(64, 2) == Shr(64, 1) / 2;
    assert StopAt(16, 1, 48) == StopAt(16, 2, 48) == 2;
  }

  /** All intermediate values of the computation fit 64 bits. */
  lemma NoOverflow(elements: nat, e: nat, k: nat)
    requires 3 <= e <= 60 && 1 <= k
    requires elements <= HiCutoff(Pow2(e)) / 4
    requires k == 1 || Shl(elements * 5 / 4 + 1, k - 1) < HiCutoff(Pow2(e))
    ensures Pow2(e) * 12 < TWO64 && elements * 5 < TWO64
    ensures Shl(elements * 5 / 4 + 1, k) < TWO64
  {
    MaxSizeIsPow2();
    Pow2Monotone(e, 60);
    assert k == 1 ==> Shl(elements * 5 / 4 + 1, 0) == elements * 5 / 4 + 1;
  }

  lemma AboveMinimum(e: nat)
    requires Pow2(e) > MIN_TABLE_SIZE
    ensures e > 3
  {
    if e <= 3 {
      Pow2Monotone(e, 3);
      SmallPowers();
    }
  }

  /** How many buckets a table with too few elements shrinks to. The loop terminates, no 64-bit shift
      overflows, and the result is a smaller power of two that is not overloaded. */
  method ReducedBuckets(elements: nat, buckets: nat, ghost e: nat) returns (n: nat, ghost e': nat)
    requires 3 <= e <= 60 && buckets == Pow2(e)
    requires elements <= HiCutoff(buckets) / 4 && buckets > MIN_TABLE_SIZE
    ensures n == Pow2(e') == Reduced(elements, buckets) && 3 <= e' < e && n < buckets
    ensures LoadOk(elements, n)
    ensures NextBuckets(elements + 1, n) == (if GrowsAgain(elements) then 2 * n else n)
  {
    hide Pow2, HiCutoff, LoadOk, NextBuckets, GrowsAgain;
    var hi := HiCutoff(buckets);
    var lg2 := 1;
    var hypothetical := elements * 5 / 4 + 1;
    NoOverflow(elements, e, lg2);
    while Shl(hypothetical, lg2) < hi
      invariant lg2 >= 1 && (lg2 == 1 || Shl(hypothetical, lg2 - 1) < hi)
      invariant Shl(hypothetical, lg2) < TWO64
      invariant StopAt(hypothetical, lg2, hi) == StopAt(hypothetical, 1, hi)
      decreases hi - Shl(hypothetical, lg2)
    {
      ShlAtLeast(hypothetical, lg2);
      lg2 := lg2 + 1;
      NoOverflow(elements, e, lg2);
    }
    n := Shr(buckets, lg2);
    AboveMinimum(e);
    e' := ShrinkKeepsLoad(elements, e, lg2);
    GrowsAgainExactly(elements, e);
    n := if n < MIN_TABLE_SIZE then MIN_TABLE_SIZE else n;
  }
}
