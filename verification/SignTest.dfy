/** The two-sided exact sign test, in its two forms. */
module SignTest {
  import opened Wrappers
  import opened Numbers

  /** `math.comb`, by Pascal's rule. */
  function Comb(n: nat, k: nat): nat {
    if k == 0 then 1 else if n == 0 then 0 else Comb(n - 1, k - 1) + Comb(n - 1, k)
  }

  /** The sum of comb(n, i) over i < m. */
  function Below(n: nat, m: nat): nat {
    if m == 0 then 0 else Below(n, m - 1) + Comb(n, m - 1)
  }

  function Pow2(n: nat): (p: nat)
    ensures p >= 1
  {
    if n == 0 then 1 else 2 * Pow2(n - 1)
  }

  function Ratio(a: real, b: nat): real
    requires b > 0
  {
    a / b as real
  }

  /** `sign_p(wins, losses)` of the campaign analysis. */
  function SignP(wins: nat, losses: nat): real {
    var n := wins + losses;
    if n == 0 then 1.0
    else
      var tail := Below(n, Min(wins, losses) + 1);
      MinReal(1.0, Ratio(2.0 * tail as real, Pow2(n)))
  }

  /** `sign_p(k, n)` of the A3 analysis; NaN is None. */
  function SignPOfTotal(k: int, n: nat): Option<real> {
    if n == 0 then None
    else
      var tail := Min(k, n - k);
      var p := Ratio((2 * if tail < 0 then 0 else Below(n, tail + 1)) as real, Pow2(n));
      Some(MinReal(1.0, p))
  }

  function Factorial(n: nat): nat { if n == 0 then 1 else n * Factorial(n - 1) }

  /** Pascal's rule gives the binomials. */
  lemma {:induction false} CombFactorial(n: nat, k: nat)
    requires k <= n
    ensures Comb(n, k) * (Factorial(k) * Factorial(n - k)) == Factorial(n)
  {
    if k == n {
      CombWhole(n);
    } else if k > 0 {
      CombFactorial(n - 1, k - 1);
      CombFactorial(n - 1, k);
      PascalFactorial(
        Comb(n - 1, k - 1), Comb(n - 1, k), Factorial(k - 1), Factorial(n - 1 - k), Factorial(n - 1), n, k);
    }
  }

  lemma {:induction false} CombWhole(n: nat)
    ensures Comb(n, n) == 1
  {
    if n > 0 {
      CombWhole(n - 1);
      CombBeyond(n - 1, n);
    }
  }

  lemma PascalFactorial(x: nat, y: nat, f: nat, g: nat, h: nat, n: nat, k: nat)
    requires 0 < k < n && x * (f * ((n - k) * g)) == h && y * ((k * f) * g) == h
    ensures (x + y) * ((k * f) * ((n - k) * g)) == n * h
  {
    calc {
      (x + y) * ((k * f) * ((n - k) * g));
      ==
      k * (x * (f * ((n - k) * g))) + (n - k) * (y * ((k * f) * g));
      ==
      k * h + (n - k) * h;
    }
  }

  lemma {:induction false} PascalBelow(n: nat, m: nat)
    requires m > 0
    ensures Below(n + 1, m) == Below(n, m) + Below(n, m - 1)
  {
    if m > 1 {
      PascalBelow(n, m - 1);
    }
  }

  lemma {:induction false} CombBeyond(n: nat, k: nat)
    ensures k > n ==> Comb(n, k) == 0
    ensures k <= n ==> Comb(n, k) > 0
  {
    if n > 0 && k > 0 {
      CombBeyond(n - 1, k - 1);
      CombBeyond(n - 1, k);
    }
  }

  lemma {:induction false} WholeRow(n: nat)
    ensures Below(n, n + 1) == Pow2(n)
  {
    if n == 0 {
      assert Below(0, 1) == Below(0, 0) + Comb(0, 0);
    } else {
      WholeRow(n - 1);
      PascalBelow(n - 1, n + 1);
      CombBeyond(n - 1, n);
    }
  }

  /** A row of binomials read from either end: the first `m` and the first `n + 1 - m` make the row. */
  lemma {:induction false} Complement(n: nat, m: nat)
    requires m <= n + 1
    ensures Below(n, m) + Below(n, n + 1 - m) == Pow2(n)
  {
    if m == 0 || m == n + 1 {
      WholeRow(n);
    } else {
      Complement(n - 1, m);
      Complement(n - 1, m - 1);
      PascalBelow(n - 1, m);
      PascalBelow(n - 1, n + 1 - m);
    }
  }

  lemma {:induction false} BelowGrows(n: nat, m: nat, l: nat)
    requires m <= l <= n + 1
    ensures Below(n, m) <= Below(n, l)
    ensures m < l ==> Below(n, m) < Below(n, l)
  {
    if m < l {
      BelowGrows(n, m, l - 1);
      CombBeyond(n, l - 1);
    }
  }

  /** Away from ties the two tails are disjoint, so twice one tail counts the outcomes at least as
      lopsided and never exceeds the whole row; at a tie it counts the middle twice. */
  lemma TailAgainstRow(wins: nat, losses: nat)
    requires wins + losses > 0
    ensures var n, k := wins + losses, Min(wins, losses);
            && Below(n, k + 1) == Pow2(n) - Below(n, n - k)
            && (2 * Below(n, k + 1) < Pow2(n) <==> wins - losses > 1 || losses - wins > 1)
            && (2 * Below(n, k + 1) == Pow2(n) <==> wins - losses == 1 || losses - wins == 1)
            && (2 * Below(n, k + 1) > Pow2(n) <==> wins == losses)
  {
    var n, k := wins + losses, Min(wins, losses);
    Complement(n, k + 1);
    if k + 1 <= n - k {
      BelowGrows(n, k + 1, n - k);
    } else {
      BelowGrows(n, n - k, k + 1);
    }
  }

  lemma RatioAgainstOne(a: nat, b: nat)
    requires b > 0
    ensures Ratio(a as real, b) < 1.0 <==> a < b
    ensures Ratio(a as real, b) == 1.0 <==> a == b
    ensures Ratio(a as real, b) > 0.0 <==> a > 0
  {
    QuotientAgainstOne(a as real, b as real);
  }

  lemma RatioIs(a: real, b: nat)
    requires b > 0
    ensures Ratio(a, b) * b as real == a
  {
  }

  lemma QuotientAgainstOne(a: real, b: real)
    requires b > 0.0
    ensures a / b < 1.0 <==> a < b
    ensures a / b == 1.0 <==> a == b
    ensures a / b > 0.0 <==> a > 0.0
  {
    var q := a / b;
    assert q * b == a;
    Grows(q, 1.0, b);
    Grows(1.0, q, b);
    Grows(0.0, q, b);
    Grows(q, 0.0, b);
  }

  lemma Grows(x: real, y: real, b: real)
    requires b > 0.0
    ensures x < y ==> x * b < y * b
  {
  }

  /** The clamp acts only at ties, the value is 1 exactly when the counts differ by at most one, it does
      not matter which side is called a win, and the two implementations agree. */
  lemma SignTestExact(wins: nat, losses: nat)
    ensures var n, k := wins + losses, Min(wins, losses);
            wins != losses ==> SignP(wins, losses) == Ratio(2.0 * Below(n, k + 1) as real, Pow2(n))
    ensures wins != losses ==>
              SignP(wins, losses) * Pow2(wins + losses) as real
              == 2.0 * Below(wins + losses, Min(wins, losses) + 1) as real
    ensures SignP(wins, losses) == 1.0 <==> -1 <= wins - losses <= 1
    ensures 0.0 < SignP(wins, losses) <= 1.0
    ensures SignP(wins, losses) == SignP(losses, wins)
    ensures wins + losses > 0 ==> SignPOfTotal(wins, wins + losses) == Some(SignP(wins, losses))
  {
    hide Below, Pow2, Ratio;
    var n, k := wins + losses, Min(wins, losses);
    if n > 0 {
      var twice := 2 * Below(n, k + 1);
      TailAgainstRow(wins, losses);
      RatioAgainstOne(twice, Pow2(n));
      assert 2.0 * Below(n, k + 1) as real == twice as real;
      RatioIs(twice as real, Pow2(n));
      SomeBelow(n, k);
    }
  }

  /** A count outside the total has an empty tail. */
  lemma OutsideTail(k: int, n: nat)
    requires n > 0 && (k < 0 || k > n)
    ensures SignPOfTotal(k, n) == Some(0.0)
  {
  }

  lemma SomeBelow(n: nat, k: nat)
    requires k <= n
    ensures Below(n, k + 1) > 0
  {
    BelowGrows(n, 0, k + 1);
  }
}
