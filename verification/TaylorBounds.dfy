/**
 How far the floored Taylor sum and its tenth power stay behind the exact values, over
 the reals: at most two units a term for the sum, and an explicit bound for the power.
 */
module TaylorBounds {
  import opened TaylorExp

  function RPow(x: real, k: nat): real {
    if k == 0 then 1.0 else RPow(x, k - 1) * x
  }

  function Factorial(i: nat): real {
    if i == 0 then 1.0 else Factorial(i - 1) * i as real
  }

  /** The `i`-th term of the series of e^q. */
  function SeriesTerm(q: real, i: nat): real {
    if i == 0 then 1.0 else SeriesTerm(q, i - 1) * (q / i as real)
  }

  /** The partial sum of the series of e^q. */
  function Series(q: real, n: nat): real {
    if n == 0 then 1.0 else Series(q, n - 1) + SeriesTerm(q, n)
  }

  // ----- Elementary facts over the reals -----

  lemma {:induction false} RAssociate(a: real, b: real, c: real)
    ensures a * (b * c) == (a * b) * c
  {
  }

  lemma {:induction false} RDistribute(a: real, b: real, c: real)
    ensures (a + b) * c == a * c + b * c
    ensures c * (a + b) == c * a + c * b
  {
  }

  lemma {:induction false} RMulNonNegative(a: real, b: real)
    requires 0.0 <= a && 0.0 <= b
    ensures 0.0 <= a * b
  {
  }

  lemma {:induction false} RMulMono(a: real, b: real, c: real)
    requires a <= b && 0.0 <= c
    ensures a * c <= b * c
  {
    RDistribute(a, b - a, c);
    RMulNonNegative(b - a, c);
  }

  lemma {:induction false} RMulPositive(a: real, b: real)
    requires 0.0 < a && 0.0 < b
    ensures 0.0 < a * b
  {
  }

  lemma {:induction false} RMulStrict(a: real, b: real, c: real)
    requires a < b && 0.0 < c
    ensures a * c < b * c
  {
    RDistribute(a, b - a, c);
    RMulPositive(b - a, c);
  }

  /** A positive factor can be cancelled from an inequality. */
  lemma {:induction false} RCancel(a: real, b: real, c: real)
    requires a * c <= b * c && 0.0 < c
    ensures a <= b
  {
    if b < a {
      RMulStrict(b, a, c);
    }
  }

  lemma {:induction false} Cancelled(q: real, d: real)
    requires 0.0 < d
    ensures q / d * d == q
  {
  }

  // ----- Products by name, for proofs in which only these laws matter -----

  function Times(x: real, y: real): real {
    x * y
  }

  lemma {:induction false} TimesIs(a: real, b: real)
    ensures Times(a, b) == a * b
  {
  }

  lemma {:induction false} TimesUnits(c: real)
    ensures Times(0.0, c) == 0.0 == Times(c, 0.0) && Times(1.0, c) == c == Times(c, 1.0)
  {
  }

  lemma {:induction false} TimesOver(a: real, b: real, c: real)
    ensures Times(a + b, c) == Times(a, c) + Times(b, c) && Times(c, a + b) == Times(c, a) + Times(c, b)
    ensures Times(a - b, c) == Times(a, c) - Times(b, c) && Times(c, a - b) == Times(c, a) - Times(c, b)
  {
    RDistribute(a, b, c);
    RDistribute(a, -b, c);
  }

  lemma {:induction false} TimesSwap(a: real, b: real, c: real)
    ensures Times(a, Times(b, c)) == Times(b, Times(a, c))
    ensures Times(a, b) == Times(b, a)
  {
    RAssociate(a, b, c);
    RAssociate(b, a, c);
  }

  lemma {:induction false} TimesRegroup(a: real, b: real, c: real)
    ensures Times(Times(a, b), c) == Times(a, Times(b, c))
  {
    RAssociate(a, b, c);
  }

  lemma {:induction false} TimesMono(a: real, b: real, c: real, d: real)
    requires 0.0 <= a <= b && 0.0 <= c <= d
    ensures 0.0 <= Times(a, c) <= Times(b, d)
  {
    RMulNonNegative(a, c);
    RMulMono(a, b, c);
    RMulMono(c, d, b);
  }

  lemma {:induction false} TimesCancel(a: real, b: real, c: real)
    requires 0.0 < c
    ensures Times(a, c) <= Times(b, c) ==> a <= b
    ensures Times(c, a) <= Times(c, b) ==> a <= b
  {
    if Times(a, c) <= Times(b, c) || Times(c, a) <= Times(c, b) {
      RCancel(a, b, c);
    }
  }

  lemma {:induction false} ProductIs(a: int, b: int)
    ensures Times(a as real, b as real) == (a * b) as real
  {
  }

  lemma {:induction false} Enclosed(q: real, x: real, c: real, a: real)
    requires 0.0 < c && Times(x, c) == a && Times(q, c) <= a <= Times(q, c) + c
    ensures q <= x <= q + 1.0
  {
    hide *;
    TimesCancel(q, x, c);
    TimesUnits(c);
    TimesOver(q, 1.0, c);
    TimesCancel(x, q + 1.0, c);
  }

  /** A floored quotient in terms of the exact ratio `x`. */
  lemma {:induction false} QuotientReal(a: nat, b: nat, x: real)
    requires 0 < b && Times(x, b as real) == a as real
    ensures Quotient(a, b) as real <= x <= Quotient(a, b) as real + 1.0
  {
    hide *;
    ProductIs(Quotient(a, b), b);
    Enclosed(Quotient(a, b) as real, x, b as real, a as real);
  }

  // ----- Powers -----

  lemma {:induction false} RPowUnfold(x: real, k: nat)
    ensures k == 0 ==> RPow(x, k) == 1.0
    ensures 0 < k ==> RPow(x, k) == Times(RPow(x, k - 1), x)
  {
  }

  lemma {:induction false} RPowAtLeastOne(x: real, k: nat)
    requires 1.0 <= x
    ensures 1.0 <= RPow(x, k)
  {
    hide *;
    RPowUnfold(x, k);
    if k == 0 {
    } else {
      RPowAtLeastOne(x, k - 1);
      TimesUnits(1.0);
      TimesMono(1.0, RPow(x, k - 1), 1.0, x);
    }
  }

  lemma {:induction false} RPowMono(x: real, y: real, k: nat)
    requires 1.0 <= x <= y
    ensures RPow(x, k) <= RPow(y, k)
  {
    hide *;
    RPowUnfold(x, k);
    RPowUnfold(y, k);
    if k == 0 {
    } else {
      RPowMono(x, y, k - 1);
      RPowAtLeastOne(x, k - 1);
      TimesMono(RPow(x, k - 1), RPow(y, k - 1), x, y);
    }
  }

  // ----- The series -----

  lemma {:induction false} Regroup(a: real, b: real, c: real, d: real)
    ensures Times(Times(a, b), Times(c, d)) == Times(Times(a, c), Times(b, d))
  {
    hide *;
    TimesRegroup(a, b, Times(c, d));
    TimesSwap(b, c, d);
    TimesRegroup(a, c, Times(b, d));
  }

  function Factor(q: real, i: nat): real
    requires 0 < i
  {
    q / i as real
  }

  lemma {:induction false} FactorIs(q: real, i: nat)
    requires 0 < i
    ensures Times(Factor(q, i), i as real) == q
  {
    Cancelled(q, i as real);
  }

  lemma {:induction false} SeriesTermUnfold(q: real, i: nat)
    ensures i == 0 ==> SeriesTerm(q, i) == 1.0 == Factorial(i)
    ensures 0 < i ==> SeriesTerm(q, i) == Times(SeriesTerm(q, i - 1), Factor(q, i))
    ensures 0 < i ==> Factorial(i) == Times(Factorial(i - 1), i as real)
  {
  }

  lemma {:induction false} SeriesTermTimes(q: real, i: nat)
    ensures Times(SeriesTerm(q, i), Factorial(i)) == RPow(q, i)
  {
    hide *;
    SeriesTermUnfold(q, i);
    RPowUnfold(q, i);
    if i == 0 {
      TimesUnits(1.0);
    } else {
      SeriesTermTimes(q, i - 1);
      FactorIs(q, i);
      Regroup(SeriesTerm(q, i - 1), Factor(q, i), Factorial(i - 1), i as real);
    }
  }

  /** The terms are q^i / i!. */
  lemma {:induction false} SeriesTermIs(q: real, i: nat)
    ensures SeriesTerm(q, i) * Factorial(i) == RPow(q, i)
  {
    hide *;
    SeriesTermTimes(q, i);
    TimesIs(SeriesTerm(q, i), Factorial(i));
  }

  // ----- The sum -----

  /** How far a floored number stays behind the exact one, which is to be scaled by `s`. */
  function Behind(s: real, exact: real, floored: real): real {
    s * exact - floored
  }

  lemma {:induction false} BehindIs(s: real, exact: real, floored: real)
    ensures Behind(s, exact, floored) == Times(s, exact) - floored
  {
  }

  /** The exponent handed to the series. */
  function Ratio(r: nat, scale: nat): real
    requires 0 < scale
  {
    r as real / scale as real
  }

  lemma {:induction false} RatioTimes(r: nat, scale: nat)
    requires 0 < scale
    ensures Times(Ratio(r, scale), scale as real) == r as real
  {
    Cancelled(r as real, scale as real);
  }

  lemma {:induction false} RatioBounds(r: nat, scale: nat)
    requires 0 < scale
    ensures 0.0 <= Ratio(r, scale)
    ensures r <= scale ==> Ratio(r, scale) <= 1.0
    ensures scale <= r ==> 1.0 <= Ratio(r, scale)
  {
    hide *;
    var q, s := Ratio(r, scale), scale as real;
    RatioTimes(r, scale);
    TimesUnits(s);
    TimesCancel(0.0, q, s);
    TimesCancel(q, 1.0, s);
    TimesCancel(1.0, q, s);
  }

  /** A floored `t * r / d` in terms of the exact factor `y`, which is r / d. */
  lemma {:induction false} FlooredProduct(t: nat, r: nat, d: nat, y: real)
    requires 0 < d && Times(y, d as real) == r as real
    ensures 0 <= t * r
    ensures Quotient(t * r, d) as real <= Times(t as real, y) <= Quotient(t * r, d) as real + 1.0
  {
    hide *;
    MulMono(0, t, 0, r);
    TimesRegroup(t as real, y, d as real);
    ProductIs(t, r);
    QuotientReal(t * r, d, Times(t as real, y));
  }

  lemma {:induction false} StepFactor(q: real, r: nat, i: nat, scale: nat)
    requires 0 < scale && 0 < i && Times(q, scale as real) == r as real
    ensures 0 < i * scale && Times(Factor(q, i), (i * scale) as real) == r as real
  {
    hide *;
    PositiveProduct(i, scale);
    FactorIs(q, i);
    ProductIs(i, scale);
    TimesRegroup(Factor(q, i), i as real, scale as real);
  }

  lemma {:induction false} SmallFactor(q: real, i: nat)
    requires 0.0 <= q <= 1.0 && 0 < i
    ensures 0.0 <= Factor(q, i) && Times(i as real, Factor(q, i)) <= 1.0
  {
    hide *;
    FactorIs(q, i);
    TimesUnits(i as real);
    TimesCancel(0.0, Factor(q, i), i as real);
    TimesSwap(i as real, Factor(q, i), 1.0);
  }

  /** A gap of at most 2 shrinks to 1 under a ratio of at most one half, and flooring adds at most 1. */
  lemma {:induction false} GapStep(gap: real, t: real, w: real, floored: real, i: nat)
    requires 0.0 <= gap <= 2.0 && 0.0 <= w && 0 < i && Times(i as real, w) <= 1.0 && (i == 1 ==> gap == 0.0)
    requires floored <= Times(t, w) <= floored + 1.0
    ensures 0.0 <= Times(t + gap, w) - floored <= 2.0
  {
    hide *;
    TimesOver(t, gap, w);
    TimesUnits(w);
    if i > 1 {
      TimesMono(gap, i as real, w, w);
    }
  }

  lemma {:induction false} TermGapStep(s: real, before: real, w: real, t: real, floored: real, i: nat)
    requires 0.0 <= Behind(s, before, t) <= 2.0 && 0.0 <= w && 0 < i && Times(i as real, w) <= 1.0
    requires i == 1 ==> Behind(s, before, t) == 0.0
    requires floored <= Times(t, w) <= floored + 1.0
    ensures 0.0 <= Behind(s, Times(before, w), floored) <= 2.0
  {
    hide *;
    var gap := Behind(s, before, t);
    BehindIs(s, before, t);
    assert t + gap == Times(s, before);
    GapStep(gap, t, w, floored, i);
    TimesRegroup(s, before, w);
    BehindIs(s, Times(before, w), floored);
  }

  lemma {:induction false} TermGap(r: nat, scale: nat, i: nat)
    requires 0 < scale && r <= scale
    ensures var gap := Behind(scale as real, SeriesTerm(Ratio(r, scale), i), Term(r, scale, i) as real);
            0.0 <= gap <= 2.0 && (i == 0 ==> gap == 0.0)
  {
    hide *;
    var q := Ratio(r, scale);
    TermUnfold(r, scale, i);
    SeriesTermUnfold(q, i);
    if i == 0 {
      BehindIs(scale as real, 1.0, scale as real);
      TimesUnits(scale as real);
    } else {
      TermGap(r, scale, i - 1);
      RatioTimes(r, scale);
      RatioBounds(r, scale);
      StepFactor(q, r, i, scale);
      FlooredProduct(Term(r, scale, i - 1), r, i * scale, Factor(q, i));
      SmallFactor(q, i);
      TermGapStep(scale as real, SeriesTerm(q, i - 1), Factor(q, i),
                  Term(r, scale, i - 1) as real, Term(r, scale, i) as real, i);
    }
  }

  lemma {:induction false} SumGapStep(s: real, a: real, b: real, t: real, u: real)
    ensures Behind(s, a + b, t + u) == Behind(s, a, t) + Behind(s, b, u)
  {
    RDistribute(a, b, s);
  }

  lemma {:induction false} SeriesUnfold(q: real, n: nat)
    ensures n == 0 ==> Series(q, n) == 1.0
    ensures 0 < n ==> Series(q, n) == Series(q, n - 1) + SeriesTerm(q, n)
  {
  }

  /** Flooring costs the sum at most two units for every term after the first. */
  lemma {:induction false} SumGap(r: nat, scale: nat, n: nat)
    requires 0 < scale && r <= scale
    ensures 0.0 <= Behind(scale as real, Series(Ratio(r, scale), n), TermSum(r, scale, n) as real) <= 2.0 * n as real
  {
    hide *;
    var q := Ratio(r, scale);
    TermSumUnfold(r, scale, n);
    SeriesUnfold(q, n);
    if n == 0 {
      BehindIs(scale as real, 1.0, scale as real);
      TimesUnits(scale as real);
    } else {
      SumGap(r, scale, n - 1);
      TermGap(r, scale, n);
      SumGapStep(scale as real, Series(q, n - 1), SeriesTerm(q, n),
                 TermSum(r, scale, n - 1) as real, Term(r, scale, n) as real);
    }
  }

  // ----- The power -----

  /** 1 + q + ... + q^(k-1). */
  function Geometric(q: real, k: nat): real {
    if k == 0 then 0.0 else Geometric(q, k - 1) * q + 1.0
  }

  lemma {:induction false} GeometricUnfold(q: real, k: nat)
    ensures k == 0 ==> Geometric(q, k) == 0.0
    ensures 0 < k ==> Geometric(q, k) == Times(Geometric(q, k - 1), q) + 1.0
  {
  }

  lemma {:induction false} GeometricBound(q: real, k: nat)
    requires 1.0 <= q
    ensures 0.0 <= Geometric(q, k)
    ensures 0 < k ==> Geometric(q, k) <= Times(k as real, RPow(q, k - 1))
  {
    hide *;
    GeometricUnfold(q, k);
    if k == 0 {
    } else if k == 1 {
      GeometricUnfold(q, 0);
      RPowUnfold(q, 0);
      TimesUnits(q);
      TimesUnits(1.0);
    } else {
      var n, p := (k - 1) as real, RPow(q, k - 2);
      GeometricBound(q, k - 1);
      TimesMono(Geometric(q, k - 1), Times(n, p), q, q);
      TimesRegroup(n, p, q);
      RPowUnfold(q, k - 1);
      RPowAtLeastOne(q, k - 1);
      TimesOver(n, 1.0, RPow(q, k - 1));
      TimesUnits(RPow(q, k - 1));
    }
  }

  /** One floored step of the power: the gap grows by the factor, and by at most 1. */
  lemma {:induction false} PowerGapStep(s: real, before: real, q: real, p: real, floored: real, gap: real)
    requires 0.0 <= Behind(s, before, p) <= gap && 1.0 <= q && floored <= Times(p, q) <= floored + 1.0
    ensures 0.0 <= Behind(s, Times(before, q), floored) <= Times(gap, q) + 1.0
  {
    hide *;
    var b := Behind(s, before, p);
    BehindIs(s, before, p);
    BehindIs(s, Times(before, q), floored);
    TimesRegroup(s, before, q);
    assert Times(s, before) == p + b;
    TimesOver(p, b, q);
    TimesMono(b, gap, q, q);
  }

  /** Flooring at every step of the power costs at most the geometric sum of its base. */
  lemma {:induction false} PowerGap(base: nat, scale: nat, k: nat)
    requires 0 < scale <= base
    ensures var q := Ratio(base, scale);
            0.0 <= Behind(scale as real, RPow(q, k), Power(base, scale, k) as real) <= Geometric(q, k)
  {
    hide *;
    var q := Ratio(base, scale);
    PowerUnfold(base, scale, k);
    RPowUnfold(q, k);
    GeometricUnfold(q, k);
    if k == 0 {
      BehindIs(scale as real, 1.0, scale as real);
      TimesUnits(scale as real);
    } else {
      PowerGap(base, scale, k - 1);
      RatioTimes(base, scale);
      RatioBounds(base, scale);
      FlooredProduct(Power(base, scale, k - 1), base, scale, q);
      PowerGapStep(scale as real, RPow(q, k - 1), q, Power(base, scale, k - 1) as real,
                   Power(base, scale, k) as real, Geometric(q, k - 1));
    }
  }

  lemma {:induction false} RPowGapStep(a: real, c: real, b: real, q: real, e: real, n: real)
    requires a == Times(c, e) && 1.0 <= q <= e && 0.0 <= b <= a && a - b <= Times(n, Times(e - q, c))
    ensures Times(a, e) - Times(b, q) <= Times(n + 1.0, Times(e - q, a))
  {
    hide *;
    var d := Times(e - q, c);
    TimesMono(a - b, Times(n, d), e, e);
    TimesRegroup(n, d, e);
    TimesRegroup(e - q, c, e);
    TimesMono(b, a, e - q, e - q);
    TimesSwap(a, e - q, 0.0);
    TimesOver(a, b, e);
    TimesOver(e, q, b);
    TimesOver(n, 1.0, Times(e - q, a));
    TimesUnits(Times(e - q, a));
  }

  /** Powers of two numbers at least 1 differ by at most this. */
  lemma {:induction false} RPowGap(q: real, e: real, k: nat)
    requires 1.0 <= q <= e && 0 < k
    ensures RPow(e, k) - RPow(q, k) <= Times(k as real, Times(e - q, RPow(e, k - 1)))
  {
    hide *;
    RPowUnfold(q, k);
    RPowUnfold(e, k);
    RPowUnfold(q, k - 1);
    RPowUnfold(e, k - 1);
    if k == 1 {
      TimesUnits(q);
      TimesUnits(e);
      TimesUnits(e - q);
    } else {
      RPowGap(q, e, k - 1);
      RPowMono(q, e, k - 1);
      RPowAtLeastOne(q, k - 1);
      RPowGapStep(RPow(e, k - 1), RPow(e, k - 2), RPow(q, k - 1), q, e, (k - 1) as real);
    }
  }

  lemma {:induction false} LostSum(s: real, e: real, q: real, sum: real, ej: real, n: real)
    requires 0.0 < s && q <= e && Times(q, s) == sum && Behind(s, e, sum) <= n && 1.0 <= ej
    ensures 0.0 <= Times(s, Times(e - q, ej)) <= Times(n, ej)
  {
    hide *;
    BehindIs(s, e, sum);
    TimesSwap(s, q, ej);
    TimesOver(e, q, s);
    TimesRegroup(s, e - q, ej);
    TimesUnits(s);
    TimesMono(0.0, e - q, 0.0, s);
    TimesSwap(s, e - q, ej);
    TimesMono(Times(s, e - q), n, ej, ej);
  }

  /** The gap of the sum, raised to the power, and the gap of the power, together. */
  lemma {:induction false} TotalGap(
      s: real, e: real, q: real, sum: real, ek: real, ej: real, qk: real, p: real, gap: real, n: real, k: real)
    requires 0.0 < s && 1.0 <= q <= e && Times(q, s) == sum && Behind(s, e, sum) <= n && 1.0 <= ej && 0.0 <= k
    requires qk <= ek && ek - qk <= Times(k, Times(e - q, ej))
    requires 0.0 <= Behind(s, qk, p) <= gap && gap <= Times(k, ej)
    ensures 0.0 <= Behind(s, ek, p) <= Times(Times(k, n + 1.0), ej)
  {
    hide *;
    LostSum(s, e, q, sum, ej, n);
    var lost := Times(s, Times(e - q, ej));
    TimesMono(s, s, ek - qk, Times(k, Times(e - q, ej)));
    TimesSwap(s, k, Times(e - q, ej));
    TimesMono(k, k, lost, Times(n, ej));
    TimesOver(ek, qk, s);
    BehindIs(s, ek, p);
    BehindIs(s, qk, p);
    TimesOver(n, 1.0, ej);
    TimesUnits(ej);
    TimesOver(Times(n, ej), ej, k);
    TimesRegroup(k, n + 1.0, ej);
  }

  lemma {:induction false} RatioBetween(sum: nat, scale: nat, e: real)
    requires 0 < scale <= sum && 0.0 <= Behind(scale as real, e, sum as real)
    ensures 1.0 <= Ratio(sum, scale) <= e
  {
    hide *;
    RatioBounds(sum, scale);
    RatioTimes(sum, scale);
    BehindIs(scale as real, e, sum as real);
    TimesSwap(scale as real, e, 0.0);
    TimesCancel(Ratio(sum, scale), e, scale as real);
  }

  /** What flooring can cost: `lost` for the sum and one for every step of the power, raised with it. */
  function FloorLoss(e: real, lost: real, k: nat): real {
    if k == 0 then 0.0 else k as real * (lost + 1.0) * RPow(e, k - 1)
  }

  lemma {:induction false} FloorLossIs(e: real, lost: real, k: nat)
    requires 0 < k
    ensures FloorLoss(e, lost, k) == Times(Times(k as real, lost + 1.0), RPow(e, k - 1))
  {
  }

  lemma {:induction false} PowerOfSumGap(sum: nat, scale: nat, e: real, n: real, k: nat)
    requires 0 < scale <= sum && 0 < k && 0.0 <= Behind(scale as real, e, sum as real) <= n
    ensures 0.0 <= Behind(scale as real, RPow(e, k), Power(sum, scale, k) as real) <= FloorLoss(e, n, k)
  {
    hide *;
    var q := Ratio(sum, scale);
    RatioTimes(sum, scale);
    RatioBetween(sum, scale, e);
    PowerGap(sum, scale, k);
    RPowGap(q, e, k);
    GeometricBound(q, k);
    RPowMono(q, e, k - 1);
    RPowMono(q, e, k);
    RPowAtLeastOne(q, k - 1);
    RPowAtLeastOne(e, k - 1);
    TimesMono(k as real, k as real, RPow(q, k - 1), RPow(e, k - 1));
    TotalGap(scale as real, e, q, sum as real, RPow(e, k), RPow(e, k - 1), RPow(q, k),
             Power(sum, scale, k) as real, Geometric(q, k), n, k as real);
    FloorLossIs(e, n, k);
  }

  lemma {:induction false} MagnitudeIs(x: nat, scale: nat, precision: nat, r: nat, k: nat)
    requires 0 < scale && k == RANGE_REDUCTION && r == x / k
    ensures 0 < k && scale <= TermSum(r, scale, precision)
    ensures Magnitude(x, scale, precision) == Power(TermSum(r, scale, precision), scale, k)
  {
  }

  /**
   The whole approximation for a non-negative exponent whose tenth is at most the scale:
   never above the tenth power of the exact partial sum, and below it by at most the
   given multiple of its ninth power.
   */
  lemma {:induction false} MagnitudeGap(x: nat, scale: nat, precision: nat, r: nat, k: nat)
    requires 0 < scale && k == RANGE_REDUCTION && r == x / k && r <= scale
    ensures var e, m := Series(Ratio(r, scale), precision), Magnitude(x, scale, precision);
            0.0 <= Behind(scale as real, RPow(e, k), m as real) <= FloorLoss(e, 2.0 * precision as real, k)
  {
    hide *;
    MagnitudeIs(x, scale, precision, r, k);
    SumGap(r, scale, precision);
    PowerOfSumGap(TermSum(r, scale, precision), scale, Series(Ratio(r, scale), precision), 2.0 * precision as real, k);
  }

  // ----- Negative exponents -----

  /** A floored reciprocal `t` of `m`, which is at most `gap` below `s * ek`, in terms of `ek`. */
  lemma {:induction false} ReciprocalStep(s: real, m: real, t: real, ek: real, gap: real)
    requires 0.0 < s <= m && 0.0 <= Behind(s, ek, m) <= gap && 0.0 <= t <= s
    requires Times(t, m) <= Times(s, s) <= Times(t, m) + m
    ensures s - ek <= Times(t, ek) <= s + gap
  {
    hide *;
    var lost := Behind(s, ek, m);
    BehindIs(s, ek, m);
    assert Times(s, ek) == m + lost;
    TimesSwap(s, t, ek);
    TimesOver(m, lost, t);
    TimesMono(t, s, lost, gap);
    TimesOver(s, gap, s);
    TimesCancel(Times(t, ek), s + gap, s);
    TimesOver(s, ek, s);
    TimesCancel(s - ek, Times(t, ek), s);
  }

  lemma {:induction false} ReciprocalBounds(m: nat, scale: nat)
    requires 0 < scale <= m
    ensures var s, t := scale as real, Quotient(scale * scale, m) as real;
            0.0 <= t <= s && Times(t, m as real) <= Times(s, s) <= Times(t, m as real) + m as real
  {
    var q := Quotient(scale * scale, m);
    hide *;
    DivAntitone(scale * scale, scale, m);
    DivExact(scale, scale);
    ProductIs(q, m);
    ProductIs(scale, scale);
  }

  lemma {:induction false} ExpBelowZero(x: int, scale: nat, precision: nat)
    requires 0 < scale && x < 0
    ensures scale <= Magnitude(-x, scale, precision)
    ensures Exp(x, scale, precision) == Quotient(scale * scale, Magnitude(-x, scale, precision))
  {
  }

  /**
   For a negative exponent the result is scale / E^10, for E the exact partial sum, less
   at most one unit, and exceeds it by at most the loss above divided by E^10.
   */
  lemma {:induction false} ReciprocalGap(x: int, scale: nat, precision: nat, r: nat, k: nat)
    requires 0 < scale && x < 0 && k == RANGE_REDUCTION && r == -x / k && r <= scale
    ensures var e, t := Series(Ratio(r, scale), precision), Exp(x, scale, precision) as real;
            scale as real - RPow(e, k) <= t * RPow(e, k) <=
            scale as real + FloorLoss(e, 2.0 * precision as real, k)
  {
    hide *;
    ExpBelowZero(x, scale, precision);
    var e, m, t := Series(Ratio(r, scale), precision), Magnitude(-x, scale, precision), Exp(x, scale, precision);
    MagnitudeGap(-x, scale, precision, r, k);
    TimesIs(t as real, RPow(e, k));
    ReciprocalBounds(m, scale);
    ReciprocalStep(scale as real, m as real, t as real, RPow(e, k), FloorLoss(e, 2.0 * precision as real, k));
  }
}
