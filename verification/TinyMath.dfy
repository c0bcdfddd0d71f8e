/** The combinatorial functions of `tinyexpr`, on exact numbers. */
module TinyMath {
  import opened Bytes

  const ULONG_MAX := 0xffff_ffff_ffff_ffff
  const UINT_MAX := 0xffff_ffff

  /** A result before it is rounded to a `double`. */
  datatype Number = NaN | Infinity | Exact(n: nat)

  function Factorial(n: nat): (f: nat)
    ensures f >= 1
  {
    if n == 0 then 1 else n * Factorial(n - 1)
  }

  /** Pascal's triangle. */
  function Choose(n: nat, k: nat): (c: nat) {
    if k == 0 then 1 else if n == 0 then 0 else Choose(n - 1, k - 1) + Choose(n - 1, k)
  }

  lemma {:induction false} ChooseEnds(n: nat, k: nat)
    requires k >= n
    ensures Choose(n, k) == if k == n then 1 else 0
  {
    if n > 0 {
      ChooseEnds(n - 1, k - 1);
      ChooseEnds(n - 1, k);
    }
  }

  lemma {:induction false} ChooseSymmetric(n: nat, k: nat)
    requires k <= n
    ensures Choose(n, k) == Choose(n, n - k)
  {
    if k == 0 || k == n {
      ChooseEnds(n, n);
    } else {
      ChooseSymmetric(n - 1, k - 1);
      ChooseSymmetric(n - 1, k);
    }
  }

  /** k times n over k is n times n - 1 over k - 1. */
  lemma {:induction false} Absorb(n: nat, k: nat)
    requires n >= 1 && k >= 1
    ensures k * Choose(n, k) == n * Choose(n - 1, k - 1)
  {
    if n == 1 {
      ChooseEnds(0, k - 1);
      ChooseEnds(1, k);
    } else {
      var a, b := Choose(n - 1, k - 1), Choose(n - 1, k);
      Absorb(n - 1, k);
      if k > 1 { Absorb(n - 1, k - 1); }
      Distribute(n - 1, if k > 1 then Choose(n - 2, k - 2) else 0, Choose(n - 2, k - 1), a, b, k);
    }
  }

  lemma Distribute(n: nat, p: nat, q: nat, a: nat, b: nat, k: nat)
    requires k >= 1 && k * b == n * q && (k - 1) * a == n * p && (k > 1 ==> a == p + q) && (k == 1 ==> a == q)
    ensures k * (a + b) == (n + 1) * a
  {
    assert k * (a + b) == k * a + k * b;
    assert k * a == (k - 1) * a + a;
    if k > 1 {
      assert n * a == n * p + n * q;
    } else {
      assert n * a == n * q;
    }
  }

  /** The product that the loop forms before it divides, in round i above m. */
  function Product(m: nat, i: nat): (p: nat) {
    i * Choose(m + i, i)
  }

  lemma ProductStep(m: nat, i: nat)
    requires i >= 1
    ensures Choose(m + i - 1, i - 1) * (m + i) == Product(m, i) && Product(m, i) / i == Choose(m + i, i)
  {
    hide Choose;
    Absorb(m + i, i);
    Commute(i, Choose(m + i, i));
  }

  lemma Commute(i: nat, c: nat)
    requires i >= 1
    ensures i * c / i == c
  {
    ModUnique(i * c, i, c, 0);
  }

  lemma {:induction false} ProductGrows(m: nat, i: nat, j: nat)
    requires i <= j
    ensures Product(m, i) <= Product(m, j)
    decreases j - i
  {
    hide Choose;
    if i < j {
      ProductGrows(m, i, j - 1);
      ProductStep(m, j);
      ScaledLess(Choose(m + j - 1, j - 1), j - 1, m + j);
    }
  }

  lemma ScaledLess(c: nat, a: nat, b: nat)
    requires a <= b
    ensures a * c <= c * b
  {
    MulLess(a, b, c);
  }

  /** A product is beyond the greatest word exactly if the quotient says so. */
  lemma Exceeds(a: nat, d: nat)
    requires d >= 1
    ensures a > ULONG_MAX / d <==> a * d > ULONG_MAX
  {
    var q := ULONG_MAX / d;
    assert q * d <= ULONG_MAX < (q + 1) * d;
    if a > q {
      assert a * d >= (q + 1) * d by { MulLess(q + 1, a, d); }
    } else {
      MulLess(a, q, d);
    }
  }

  lemma MulLess(a: nat, b: nat, d: nat)
    requires a <= b
    ensures a * d <= b * d
  {
    assert b * d == a * d + (b - a) * d;
  }

  /** The loop of `ncr`: exact, or infinite if the last product does not fit a word. */
  method NcrLoop(un: nat, ur: nat) returns (r: Number)
    requires ur <= un
    ensures r == if Product(un - ur, ur) <= ULONG_MAX then Exact(Choose(un, ur)) else Infinity
  {
    var m, result, i: nat := un - ur, 1, 1;
    while i <= ur
      invariant 1 <= i <= ur + 1 && result == Choose(m + i - 1, i - 1) && Product(m, i - 1) <= ULONG_MAX
    {
      ProductStep(m, i);
      ProductGrows(m, i, ur);
      Exceeds(result, m + i);
      if result > ULONG_MAX / (m + i) { return Infinity; }
      result := result * (m + i);
      result := result / i;
      i := i + 1;
    }
    r := Exact(result);
  }

  /** Choosing those that are left out instead, if these are fewer. */
  function Smaller(un: nat, ur: nat): (k: nat)
    requires ur <= un
    ensures k == (if un - ur < ur then un - ur else ur) && k <= un && Choose(un, k) == Choose(un, ur)
  {
    ChooseSymmetric(un, ur);
    if ur > un / 2 then un - ur else ur
  }

  /** `ncr`: binomials are exact as long as the last product of the loop fits a word. */
  method Ncr(n: real, r: real) returns (c: Number)
    ensures c == NaN <==> n < 0.0 || r < 0.0 || n < r
    ensures 0.0 <= r <= n && n > UINT_MAX as real ==> c == Infinity
    ensures 0.0 <= r <= n <= UINT_MAX as real ==> var un, ur := n.Floor, r.Floor;
      0 <= ur <= un && var k := if un - ur < ur then un - ur else ur;
      c == if k * Choose(un, ur) <= ULONG_MAX then Exact(Choose(un, ur)) else Infinity
  {
    if n < 0.0 || r < 0.0 || n < r { return NaN; }
    if n > UINT_MAX as real || r > UINT_MAX as real { return Infinity; }
    var un: nat, ur: nat := n.Floor, r.Floor;
    ur := Smaller(un, ur);
    c := NcrLoop(un, ur);
  }

  /** The input that shows it: the coefficient fits a word, and the product before the last
      division does not. */
  lemma ProductTooBig(m: nat)
    requires m == 3_399_997
    ensures Choose(m + 3, 3) <= ULONG_MAX < Product(m, 3)
  {
    assert Choose(m, 0) == 1;
    hide Choose, Product;
    ProductIs(m, 1, 1, 3_399_998, 3_399_998);
    ProductIs(m, 2, 3_399_998, 11559989800002, 5779994900001);
    ProductIs(m, 3, 5779994900001, 19651982660003400000, 6550660886667800000);
  }

  lemma ProductIs(m: nat, i: nat, c: nat, p: nat, d: nat)
    requires i >= 1 && Choose(m + i - 1, i - 1) == c && c * (m + i) == p && p == d * i
    ensures Product(m, i) == p && Choose(m + i, i) == d
  {
    hide Choose, Product;
    ProductStep(m, i);
    ModUnique(p, i, d, 0);
  }

  lemma {:induction false} FactorialGrows(i: nat, n: nat)
    requires i <= n
    ensures Factorial(i) <= Factorial(n)
    decreases n
  {
    if i < n {
      FactorialGrows(i, n - 1);
      MulLess(1, n, Factorial(n - 1));
    }
  }

  lemma FactorialStep(i: nat)
    requires i >= 1
    ensures Factorial(i) == Factorial(i - 1) * i
  {
  }

  /** `fac`: exact, or infinite if the factorial does not fit a word. */
  method Fac(a: real) returns (f: Number)
    ensures f == NaN <==> a < 0.0
    ensures a > UINT_MAX as real ==> f == Infinity
    ensures 0.0 <= a <= UINT_MAX as real ==> a.Floor >= 0
    ensures 0.0 <= a <= UINT_MAX as real ==>
      f == if Factorial(a.Floor) <= ULONG_MAX then Exact(Factorial(a.Floor)) else Infinity
  {
    if a < 0.0 { return NaN; }
    if a > UINT_MAX as real { return Infinity; }
    var ua: nat := a.Floor;
    f := FacLoop(ua);
  }

  method FacLoop(ua: nat) returns (f: Number)
    ensures f == if Factorial(ua) <= ULONG_MAX then Exact(Factorial(ua)) else Infinity
  {
    assert Factorial(0) == 1;
    hide Factorial;
    var result, i: nat := 1, 1;
    while i <= ua
      invariant 1 <= i <= ua + 1 && result == Factorial(i - 1) <= ULONG_MAX
    {
      Exceeds(i, result);
      FactorialStep(i);
      FactorialGrows(i, ua);
      if i > ULONG_MAX / result { return Infinity; }
      result := result * i;
      i := i + 1;
    }
    f := Exact(result);
  }
}
