/** Unsigned bit operations on natural numbers, with the identities the hash table relies on:
    masking with a power of two minus one, flipping the low bit and clearing it. */
module Bits {
  import opened Common

  function Pow2(e: nat): (r: nat)
    ensures r >= 1
  {
    if e == 0 then 1 else 2 * Pow2(e - 1)
  }

  /** `x & y`, bit by bit. */
  function And(x: nat, y: nat): (r: nat)
    ensures r <= x && r <= y
  {
    if x == 0 || y == 0 then 0 else (x % 2) * (y % 2) + 2 * And(x / 2, y / 2)
  }

  /** `x ^ y`, bit by bit. */
  function Xor(x: nat, y: nat): nat
    decreases x + y
  {
    if x == 0 then y
    else if y == 0 then x
    else (x % 2 + y % 2) % 2 + 2 * Xor(x / 2, y / 2)
  }

  /** The other slot of a pair. */
  function Buddy(b: nat): (r: nat)
    ensures r != b && r / 2 == b / 2
    ensures forall c: nat :: c / 2 == b / 2 ==> c == b || c == r
  {
    if b % 2 == 0 then b + 1 else b - 1
  }

  /** The slot of a pair with the smaller index. */
  function Even(b: nat): (r: nat)
    ensures r <= b <= r + 1 && r % 2 == 0 && r / 2 == b / 2
  {
    b - b % 2
  }

  lemma {:induction false} MaskIsModulo(x: nat, e: nat)
    ensures And(x, Pow2(e) - 1) == x % Pow2(e)
    decreases e
  {
    if e == 0 {
      ModuloUnique(x, 1, x, 0);
    } else if x > 0 {
      var p := Pow2(e - 1);
      MaskIsModulo(x / 2, e - 1);
      SplitModulo(x, p);
      AndOdd(x, p - 1);
    } else {
      ModuloUnique(0, Pow2(e), 0, 0);
    }
  }

  /** The lowest bit of a mask is set. */
  lemma AndOdd(x: nat, y: nat)
    ensures And(x, 2 * y + 1) == x % 2 + 2 * And(x / 2, y)
  {
    assert (2 * y + 1) % 2 == 1 && (2 * y + 1) / 2 == y;
  }

  lemma SplitModulo(x: nat, p: nat)
    requires p > 0
    ensures x % (2 * p) == x % 2 + 2 * ((x / 2) % p)
  {
    var q, m := (x / 2) / p, (x / 2) % p;
    DivMod(x / 2, p);
    assert q * (2 * p) == 2 * (q * p);
    ModuloUnique(x, 2 * p, q, x % 2 + 2 * m);
  }

  lemma DivMod(x: nat, d: nat)
    requires d > 0
    ensures x == (x / d) * d + x % d && 0 <= x % d < d && x / d >= 0
  {
  }

  /** Quotient and remainder are the only pair that recomposes the number. */
  lemma ModuloUnique(x: nat, d: nat, q: nat, r: nat)
    requires d > 0 && x == q * d + r && r < d
    ensures x / d == q && x % d == r
  {
    var q', r' := x / d, x % d;
    DivMod(x, d);
    if q' < q {
      Gap(q, q', d);
    } else if q < q' {
      Gap(q', q, d);
    }
  }

  lemma Gap(a: nat, b: nat, d: nat)
    requires a > b
    ensures a * d >= b * d + d
  {
    var g := a - b - 1;
    assert a * d == b * d + d + g * d;
  }

  lemma XorOneIsBuddy(b: nat)
    ensures Xor(b, 1) == Buddy(b)
  {
    if b != 0 {
      assert Xor(b / 2, 0) == b / 2;
    }
  }

  /** A wrap-around of 64 bits does not disturb the low bits that a mask keeps. */
  lemma WrapKeepsLowBits(x: nat, e: nat)
    requires e <= 64
    ensures (x % TWO64) % Pow2(e) == x % Pow2(e)
  {
    Pow2Sum(e, 64 - e);
    Pow2Of64();
    ModuloOfModulo(x, Pow2(e), Pow2(64 - e));
  }

  lemma ModuloOfModulo(x: nat, p: nat, m: nat)
    requires p > 0 && m > 0
    ensures p * m > 0 && (x % (p * m)) % p == x % p
  {
    Gap(m, 0, p);
    assert p * m == m * p;
    var n := p * m;
    var q, r := x / n, x % n;
    DivMod(x, n);
    var q', r' := r / p, r % p;
    DivMod(r, p);
    Regroup(q, p, m, q');
    ModuloUnique(x, p, q * m + q', r');
  }

  lemma Regroup(q: nat, p: nat, m: nat, q': nat)
    ensures q * (p * m) + q' * p == (q * m + q') * p
  {
    assert q * (p * m) == (q * m) * p;
  }

  lemma Pow2Of64()
    ensures Pow2(64) == TWO64
  {
    Pow2Sum(8, 8);
    Pow2Sum(16, 16);
    Pow2Sum(32, 32);
    assert Pow2(4) == 16 && Pow2(8) == 16 * Pow2(4);
  }

  lemma {:induction false} Pow2Sum(a: nat, b: nat)
    ensures Pow2(a + b) == Pow2(a) * Pow2(b)
  {
    if a > 0 {
      Pow2Sum(a - 1, b);
      assert 2 * (Pow2(a - 1) * Pow2(b)) == (2 * Pow2(a - 1)) * Pow2(b);
    }
  }

  lemma {:induction false} Pow2Monotone(a: nat, b: nat)
    requires a <= b
    ensures Pow2(a) <= Pow2(b)
  {
    if a < b {
      Pow2Monotone(a, b - 1);
    }
  }
}
