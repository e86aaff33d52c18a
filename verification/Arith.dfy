/** Facts about multiplication, quotient and remainder that the solver does not find by itself. */
module Arith {

  lemma MulMono(a: int, b: int, c: nat)
    requires a <= b
    ensures a * c <= b * c
  {
    assert (b - a) * c >= 0;
    assert b * c == a * c + (b - a) * c;
  }

  /** A quotient and a remainder are determined by the number they rebuild. */
  lemma DivModUnique(a: int, n: nat, q: int, r: int)
    requires n > 0 && 0 <= r < n && a == q * n + r
    ensures a / n == q && a % n == r
  {
    var q', r' := a / n, a % n;
    assert a == q' * n + r';
    assert (q - q') * n == r' - r;
    assert (q' - q) * n == r - r';
    if q > q' {
      MulMono(1, q - q', n);
      assert false;
    }
    if q < q' {
      MulMono(1, q' - q, n);
      assert false;
    }
  }

  /** A number below `m * n` has a quotient below `m`. */
  lemma DivLess(a: nat, m: nat, n: nat)
    requires 0 < n && a < m * n
    ensures 0 <= a / n < m && a == a / n * n + a % n
  {
    if m <= a / n {
      MulMono(m, a / n, n);
      assert false;
    }
  }

  /** Of the numbers with the same quotient, the one without a remainder is the least. */
  lemma SameQuotient(a: int, b: int, n: nat)
    requires 0 < n && a / n == b / n && b % n == 0
    ensures b <= a < b + n
  {
    assert a == a / n * n + a % n && b == b / n * n;
  }

  /** A number is determined by its quotient and its remainder. */
  lemma SameParts(a: int, b: int, n: nat)
    requires 0 < n && a / n == b / n && a % n == b % n
    ensures a == b
  {
    assert a == a / n * n + a % n && b == b / n * n + b % n;
  }

  function Pow2(n: nat): (p: nat)
    ensures p > 0
  {
    if n == 0 then 1 else 2 * Pow2(n - 1)
  }

  lemma {:induction false} Pow2Mono(a: nat, b: nat)
    requires a <= b
    ensures Pow2(a) <= Pow2(b)
  {
    if a < b {
      Pow2Mono(a, b - 1);
    }
  }

  lemma {:induction false} Pow2Sum(a: nat, b: nat)
    ensures Pow2(a + b) == Pow2(a) * Pow2(b)
  {
    if b > 0 {
      Pow2Sum(a, b - 1);
    }
  }

  lemma Pow2Of31()
    ensures Pow2(31) == 0x8000_0000
  {
    assert Pow2(7) == 128 && Pow2(8) == 256;
    Pow2Sum(8, 8);
    Pow2Sum(8, 7);
    Pow2Sum(16, 15);
    hide Pow2;
  }
}
