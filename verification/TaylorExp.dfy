/**
 Fixed-point e^x: a floored Taylor sum of a tenth of the exponent, raised to the tenth
 power, and a reciprocal for negative exponents. All numbers are integers, as in the
 program the calculator mirrors; IEEE rounding is not modelled.
 */
module TaylorExp {
  const RANGE_REDUCTION: nat := 10

  function Abs(x: int): nat {
    if x < 0 then -x else x
  }

  // ----- Elementary facts about products and quotients -----

  function Quotient(a: nat, b: nat): (q: nat)
    requires 0 < b
    ensures q * b <= a < q * b + b
  {
    a / b
  }

  lemma {:induction false} MulMono(a: nat, b: nat, c: nat, d: nat)
    requires a <= b && c <= d
    ensures a * c <= b * d
  {
    assert b * d - a * c == b * (d - c) + (b - a) * c;
  }

  lemma {:induction false} NextMultiple(p: nat, q: nat, c: nat)
    requires p < q
    ensures p * c + c <= q * c
  {
    MulMono(p + 1, q, c, c);
    assert (p + 1) * c == p * c + c;
  }

  lemma {:induction false} DivMono(a: nat, b: nat, c: nat)
    requires a <= b && 0 < c
    ensures Quotient(a, c) <= Quotient(b, c)
  {
    var q, p := Quotient(a, c), Quotient(b, c);
    if p < q {
      NextMultiple(p, q, c);
    }
  }

  lemma {:induction false} StepMono(p: nat, p': nat, b: nat, b': nat, c: nat)
    requires p <= p' && b <= b' && 0 < c
    ensures Quotient(p * b, c) <= Quotient(p' * b', c)
  {
    MulMono(p, p', b, b');
    DivMono(p * b, p' * b', c);
  }

  lemma {:induction false} QuotientIs(a: nat, b: nat, q: nat)
    requires 0 < b && q * b <= a < q * b + b
    ensures Quotient(a, b) == q
  {
    var p := Quotient(a, b);
    if p < q {
      NextMultiple(p, q, b);
    } else if q < p {
      NextMultiple(q, p, b);
    }
  }

  lemma {:induction false} DivExact(a: nat, c: nat)
    requires 0 < c
    ensures Quotient(a * c, c) == a
  {
    QuotientIs(a * c, c, a);
  }

  lemma {:induction false} DivAntitone(a: nat, b: nat, c: nat)
    requires 0 < b <= c
    ensures Quotient(a, c) <= Quotient(a, b)
  {
    var q, p := Quotient(a, c), Quotient(a, b);
    MulMono(q, q, b, c);
    if p < q {
      NextMultiple(p, q, b);
    }
  }

  lemma {:induction false} PositiveProduct(a: nat, b: nat)
    requires 0 < a && 0 < b
    ensures 0 < a * b
  {
    MulMono(1, a, 1, b);
  }

  // ----- The approximation -----

  /** Term `i` of the sum, floored at every step. */
  function Term(r: nat, scale: nat, i: nat): nat
    requires 0 < scale
    decreases i
  {
    if i == 0 then scale else Quotient(Term(r, scale, i - 1) * r, i * scale)
  }

  /** Terms 0 to `n`. */
  function TermSum(r: nat, scale: nat, n: nat): (s: nat)
    requires 0 < scale
    ensures scale <= s
  {
    if n == 0 then scale else TermSum(r, scale, n - 1) + Term(r, scale, n)
  }

  /** `scale` times the `k`-th power of `base / scale`, floored at every step. */
  function Power(base: nat, scale: nat, k: nat): nat
    requires 0 < scale
  {
    if k == 0 then scale else Quotient(Power(base, scale, k - 1) * base, scale)
  }

  lemma {:induction false} PowerAtLeastScale(base: nat, scale: nat, k: nat)
    requires 0 < scale <= base
    ensures scale <= Power(base, scale, k)
  {
    if k == 0 {
    } else {
      PowerAtLeastScale(base, scale, k - 1);
      var p := Power(base, scale, k - 1);
      MulMono(scale, p, scale, base);
      DivMono(scale * scale, p * base, scale);
      DivExact(scale, scale);
    }
  }

  function Magnitude(x: nat, scale: nat, precision: nat): (r: nat)
    requires 0 < scale
    ensures scale <= r
  {
    var sum := TermSum(x / RANGE_REDUCTION, scale, precision);
    PowerAtLeastScale(sum, scale, RANGE_REDUCTION);
    Power(sum, scale, RANGE_REDUCTION)
  }

  function Exp(x: int, scale: nat, precision: nat): nat
    requires 0 < scale
  {
    var m := Magnitude(Abs(x), scale, precision);
    if x < 0 then Quotient(scale * scale, m) else m
  }

  // ----- The loops -----

  lemma {:induction false} TermUnfold(r: nat, scale: nat, i: nat)
    requires 0 < scale
    ensures i == 0 ==> Term(r, scale, i) == scale
    ensures 0 < i ==> 0 < i * scale && Term(r, scale, i) == Quotient(Term(r, scale, i - 1) * r, i * scale)
  {
    if 0 < i {
      PositiveProduct(i, scale);
    }
  }

  lemma {:induction false} TermSumUnfold(r: nat, scale: nat, n: nat)
    requires 0 < scale
    ensures n == 0 ==> TermSum(r, scale, n) == scale
    ensures 0 < n ==> TermSum(r, scale, n) == TermSum(r, scale, n - 1) + Term(r, scale, n)
  {
  }

  lemma {:induction false} PowerUnfold(base: nat, scale: nat, k: nat)
    requires 0 < scale
    ensures k == 0 ==> Power(base, scale, k) == scale
    ensures 0 < k ==> Power(base, scale, k) == Quotient(Power(base, scale, k - 1) * base, scale)
  {
  }

  /** Once a term is zero, so are all later ones; leaving the loop early changes nothing. */
  lemma {:induction false} ZeroTermsStay(r: nat, scale: nat, i: nat, n: nat)
    requires 0 < scale && i <= n && Term(r, scale, i) == 0
    ensures Term(r, scale, n) == 0 && TermSum(r, scale, n) == TermSum(r, scale, i)
    decreases n
  {
    if i < n {
      ZeroTermsStay(r, scale, i, n - 1);
      assert Term(r, scale, n - 1) * r == 0;
      PositiveProduct(n, scale);
      QuotientIs(0, n * scale, 0);
    }
  }

  lemma {:induction false} ExpIs(x: int, scale: nat, precision: nat, n: nat)
    requires 0 < scale && n == RANGE_REDUCTION
    ensures 0 < n
    ensures var m := Power(TermSum(Abs(x) / n, scale, precision), scale, n);
            0 < m && Exp(x, scale, precision) == if x < 0 then Quotient(scale * scale, m) else m
  {
    PowerAtLeastScale(TermSum(Abs(x) / n, scale, precision), scale, n);
  }

  method TaylorExp(x: int, scale: nat, precision: nat) returns (result: nat)
    requires 0 < scale
    ensures result == Exp(x, scale, precision)
  {
    hide *;
    var n := RANGE_REDUCTION;
    ExpIs(x, scale, precision, n);
    var reducedX := Abs(x) / n;
    var term, sum := scale, scale;
    TermUnfold(reducedX, scale, 0);
    TermSumUnfold(reducedX, scale, 0);
    var i := 1;
    while i <= precision
      invariant 1 <= i <= precision + 1
      invariant term == Term(reducedX, scale, i - 1) && sum == TermSum(reducedX, scale, i - 1)
    {
      TermUnfold(reducedX, scale, i);
      TermSumUnfold(reducedX, scale, i);
      term := Quotient(term * reducedX, i * scale);
      if term == 0 {
        ZeroTermsStay(reducedX, scale, i, precision);
        break;
      }
      sum := sum + term;
      i := i + 1;
    }
    assert sum == TermSum(reducedX, scale, precision);
    result := scale;
    PowerUnfold(sum, scale, 0);
    for k := 0 to n
      invariant result == Power(sum, scale, k)
    {
      PowerUnfold(sum, scale, k + 1);
      result := Quotient(result * sum, scale);
    }
    if x < 0 {
      result := Quotient(scale * scale, result);
    }
  }

  // ----- Monotonicity -----

  lemma {:induction false} TermMono(r: nat, r': nat, scale: nat, i: nat)
    requires 0 < scale && r <= r'
    ensures Term(r, scale, i) <= Term(r', scale, i)
  {
    if i == 0 {
    } else {
      TermMono(r, r', scale, i - 1);
      PositiveProduct(i, scale);
      StepMono(Term(r, scale, i - 1), Term(r', scale, i - 1), r, r', i * scale);
    }
  }

  lemma {:induction false} TermSumMono(r: nat, r': nat, scale: nat, n: nat)
    requires 0 < scale && r <= r'
    ensures TermSum(r, scale, n) <= TermSum(r', scale, n)
  {
    if n == 0 {
    } else {
      TermSumMono(r, r', scale, n - 1);
      TermMono(r, r', scale, n);
    }
  }

  lemma {:induction false} PowerMono(base: nat, base': nat, scale: nat, k: nat)
    requires 0 < scale && base <= base'
    ensures Power(base, scale, k) <= Power(base', scale, k)
  {
    if k == 0 {
    } else {
      PowerMono(base, base', scale, k - 1);
      StepMono(Power(base, scale, k - 1), Power(base', scale, k - 1), base, base', scale);
    }
  }

  lemma {:induction false} MagnitudeMono(x: nat, y: nat, scale: nat, precision: nat)
    requires 0 < scale && x <= y
    ensures Magnitude(x, scale, precision) <= Magnitude(y, scale, precision)
  {
    TermSumMono(x / RANGE_REDUCTION, y / RANGE_REDUCTION, scale, precision);
    PowerMono(TermSum(x / RANGE_REDUCTION, scale, precision), TermSum(y / RANGE_REDUCTION, scale, precision),
              scale, RANGE_REDUCTION);
  }

  lemma {:induction false} PowerOfScale(scale: nat, k: nat)
    requires 0 < scale
    ensures Power(scale, scale, k) == scale
  {
    if k == 0 {
    } else {
      PowerOfScale(scale, k - 1);
      DivExact(scale, scale);
    }
  }

  lemma {:induction false} ExpOfZero(scale: nat, precision: nat)
    requires 0 < scale
    ensures Exp(0, scale, precision) == scale
  {
    if precision > 0 {
      assert Term(0, scale, 1) == Quotient(scale * 0, 1 * scale);
      QuotientIs(0, scale, 0);
      ZeroTermsStay(0, scale, 1, precision);
    }
    assert TermSum(0, scale, precision) == scale;
    PowerOfScale(scale, RANGE_REDUCTION);
  }

  /** The approximation is monotone over all integers, and is 1 (scaled) at 0. */
  lemma {:induction false} ExpMono(x: int, y: int, scale: nat, precision: nat)
    requires 0 < scale && x <= y
    ensures Exp(x, scale, precision) <= Exp(y, scale, precision)
    ensures x <= 0 ==> Exp(x, scale, precision) <= scale
    ensures 0 <= y ==> scale <= Exp(y, scale, precision)
  {
    if x < 0 {
      DivAntitone(scale * scale, scale, Magnitude(Abs(x), scale, precision));
      DivExact(scale, scale);
      if y < 0 {
        MagnitudeMono(Abs(y), Abs(x), scale, precision);
        DivAntitone(scale * scale, Magnitude(Abs(y), scale, precision), Magnitude(Abs(x), scale, precision));
      }
    } else {
      MagnitudeMono(x, y, scale, precision);
      if x == 0 {
        ExpOfZero(scale, precision);
      }
    }
  }
}
