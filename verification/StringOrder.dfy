/** The order of strings by their first differing character, and what it means for decimal numbers of one length. */
module StringOrder {
  import opened Common

  /** `a` is a proper beginning of `b`, or has the smaller character where they first differ. */
  ghost predicate SortsBefore(a: string, b: string) {
    || (|a| < |b| && a == b[..|a|])
    || exists n: nat :: DiffersAt(a, b, n)
  }

  predicate DiffersAt(a: string, b: string, n: nat) {
    n < |a| && n < |b| && a[..n] == b[..n] && a[n] < b[n]
  }

  lemma {:induction false} AtMostIff(a: string, b: string)
    ensures AtMost(a, b) <==> a == b || SortsBefore(a, b)
    ensures AtMost(a, b) <==> !SortsBefore(b, a)
  {
    if a != "" && b != "" {
      if a[0] == b[0] {
        AtMostIff(a[1..], b[1..]);
        SameStart(a, b);
        SameStart(b, a);
        assert a == [a[0]] + a[1..] && b == [b[0]] + b[1..];
      } else {
        assert a[..0] == b[..0];
        FirstDiffers(a, b);
        FirstDiffers(b, a);
      }
    }
  }

  lemma SameStart(a: string, b: string)
    requires a != "" && b != "" && a[0] == b[0]
    ensures SortsBefore(a, b) <==> SortsBefore(a[1..], b[1..])
  {
    if n: nat :| DiffersAt(a, b, n) {
      DiffersLater(a, b, n - 1);
    }
    if n: nat :| DiffersAt(a[1..], b[1..], n) {
      DiffersLater(a, b, n);
    }
    Start(a, b, |a|);
    assert a[..|a|] == a && a[1..][..|a| - 1] == a[1..];
  }

  /** The first `n` characters agree exactly if the first ones do and those behind them. */
  lemma Start(a: string, b: string, n: nat)
    requires a != "" && b != "" && a[0] == b[0]
    ensures 0 < n <= |a| && n <= |b| ==> (a[..n] == b[..n] <==> a[1..][..n - 1] == b[1..][..n - 1])
  {
    if 0 < n <= |a| && n <= |b| {
      assert a[..n] == [a[0]] + a[1..][..n - 1] && b[..n] == [b[0]] + b[1..][..n - 1];
      assert a[..n][1..] == a[1..][..n - 1] && b[..n][1..] == b[1..][..n - 1];
    }
  }

  lemma DiffersLater(a: string, b: string, n: nat)
    requires a != "" && b != "" && a[0] == b[0]
    ensures DiffersAt(a, b, n + 1) <==> DiffersAt(a[1..], b[1..], n)
  {
    Start(a, b, n + 1);
  }

  lemma FirstDiffers(a: string, b: string)
    requires a != "" && b != "" && a[0] != b[0]
    ensures SortsBefore(a, b) <==> a[0] < b[0]
  {
    forall n: nat | 0 < n <= |a| && n <= |b| ensures a[..n] != b[..n] {
      assert a[..n][0] == a[0] && b[..n][0] == b[0];
    }
    assert a[..|a|] == a;
    assert a[..0] == b[..0];
    assert DiffersAt(a, b, 0) <==> a[0] < b[0];
  }

  // ---------------------------------------------------------------- decimal numbers

  predicate Digits(s: string) {
    forall i | 0 <= i < |s| :: '0' <= s[i] <= '9'
  }

  function Pow10(n: nat): nat {
    if n == 0 then 1 else 10 * Pow10(n - 1)
  }

  function Decimal(s: string): int {
    if s == "" then 0 else (s[0] as int - '0' as int) * Pow10(|s| - 1) + Decimal(s[1..])
  }

  lemma {:induction false} DecimalFits(s: string)
    requires Digits(s)
    ensures 0 <= Decimal(s) < Pow10(|s|)
  {
    if s != "" {
      DecimalFits(s[1..]);
      Times(s[0] as int - '0' as int, 9, Pow10(|s| - 1));
    }
  }

  lemma Times(d: int, e: int, p: nat)
    requires d <= e
    ensures d * p <= e * p && (d >= 0 ==> d * p >= 0)
  {
  }

  /** Decimal numbers of one length are in the order of their values. */
  lemma {:induction false} DecimalsInOrder(a: string, b: string)
    requires Digits(a) && Digits(b) && |a| == |b|
    ensures AtMost(a, b) <==> Decimal(a) <= Decimal(b)
  {
    if a != "" {
      var d, e, p := a[0] as int - '0' as int, b[0] as int - '0' as int, Pow10(|a| - 1);
      DecimalFits(a[1..]);
      DecimalFits(b[1..]);
      DecimalsInOrder(a[1..], b[1..]);
      FirstDigit(d, e, p, Decimal(a[1..]), Decimal(b[1..]));
    }
  }

  lemma FirstDigit(d: int, e: int, p: nat, x: int, y: int)
    requires 0 <= x < p && 0 <= y < p
    ensures d < e ==> d * p + x < e * p + y
    ensures e < d ==> e * p + y < d * p + x
  {
    if d < e {
      Times(d + 1, e, p);
    } else if e < d {
      Times(e + 1, d, p);
    }
    assert (d + 1) * p == d * p + p && (e + 1) * p == e * p + p;
  }
}
