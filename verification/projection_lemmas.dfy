/**
 Properties of the projected ledger: the year-to-year recurrence read off
 adjacent records, the zero-return case, monotone growth for non-negative
 plans, total interest as the running sum of yearly interest, and the
 textbook closed form (compound growth of the initial amount plus the
 future value of an annuity).
 */
module ProjectionLemmas {
  import opened InvestmentModels
  import opened Investments

  /** One step of the recurrence between the records of consecutive years. */
  lemma RecordStep(d: InvestmentInput, year: nat)
    requires year >= 1
    ensures RecordFor(d, year + 1).interest == RecordFor(d, year).valueEndOfYear * Rate(d)
    ensures RecordFor(d, year + 1).valueEndOfYear
            == RecordFor(d, year).valueEndOfYear
               + (RecordFor(d, year + 1).interest + d.annualInvestment)
  {
  }

  /** `r` is the year that follows an end value of `prev`: it earns
      `prev * expectedReturn / 100` as interest and ends at `prev` plus that
      interest plus the contribution. */
  ghost predicate Follows(d: InvestmentInput, prev: real, r: YearRecord) {
    && r.interest == prev * Rate(d)
    && r.valueEndOfYear == prev + (r.interest + d.annualInvestment)
  }

  /** The ledger obeys the loop's recurrence: year 1 follows the initial
      amount and every later year follows the previous year's end value. */
  lemma Recurrence(d: InvestmentInput)
    ensures var rs := Project(d);
      |rs| > 0 ==> Follows(d, d.initialInvestment, rs[0])
    ensures var rs := Project(d);
      forall k :: 1 <= k < |rs| ==> Follows(d, rs[k - 1].valueEndOfYear, rs[k])
  {
    var rs := Project(d);
    forall k | 1 <= k < |rs|
      ensures Follows(d, rs[k - 1].valueEndOfYear, rs[k])
    {
      assert rs[k] == RecordFor(d, k + 1);
      assert rs[k - 1] == RecordFor(d, k);
      RecordStep(d, k);
    }
    if |rs| > 0 {
      assert rs[0] == RecordFor(d, 1);
    }
  }

  // ---------------------------------------------------------------------
  // Zero return

  lemma {:induction false} ValueAfterNoReturn(d: InvestmentInput, n: nat)
    requires d.expectedReturn == 0.0
    ensures ValueAfter(d, n) == d.initialInvestment + d.annualInvestment * n as real
  {
    if n > 0 {
      ValueAfterNoReturn(d, n - 1);
    }
  }

  /** The record earns no interest and its end value is the principal. */
  ghost predicate InterestFree(d: InvestmentInput, r: YearRecord) {
    && r.interest == 0.0
    && r.totalInterest == 0.0
    && r.valueEndOfYear == d.initialInvestment + d.annualInvestment * r.year as real
  }

  lemma RecordNoReturn(d: InvestmentInput, year: nat)
    requires d.expectedReturn == 0.0
    requires year >= 1
    ensures InterestFree(d, RecordFor(d, year))
  {
    ValueAfterNoReturn(d, year);
    ValueAfterNoReturn(d, year - 1);
  }

  /** With a zero expected return no interest is ever earned and each end
      value is exactly the principal paid in so far. */
  lemma ZeroReturn(d: InvestmentInput)
    requires d.expectedReturn == 0.0
    ensures var rs := Project(d);
      forall k :: 0 <= k < |rs| ==> InterestFree(d, rs[k])
  {
    var rs := Project(d);
    forall k | 0 <= k < |rs|
      ensures InterestFree(d, rs[k])
    {
      assert rs[k] == RecordFor(d, k + 1);
      RecordNoReturn(d, k + 1);
    }
  }

  // ---------------------------------------------------------------------
  // Monotone growth

  /** A plan with no negative amount and no negative return stays non-negative. */
  ghost predicate NonNegativePlan(d: InvestmentInput) {
    d.initialInvestment >= 0.0 && d.annualInvestment >= 0.0 && d.expectedReturn >= 0.0
  }

  lemma {:induction false} ValueAfterNonNegative(d: InvestmentInput, n: nat)
    requires NonNegativePlan(d)
    ensures ValueAfter(d, n) >= 0.0
  {
    if n > 0 {
      ValueAfterNonNegative(d, n - 1);
      var prev := ValueAfter(d, n - 1);
      assert prev * Rate(d) >= 0.0;
    }
  }

  lemma {:induction false} ValueAfterMonotone(d: InvestmentInput, i: nat, j: nat)
    requires NonNegativePlan(d)
    requires i <= j
    ensures ValueAfter(d, i) <= ValueAfter(d, j)
    decreases j - i
  {
    if i < j {
      ValueAfterMonotone(d, i, j - 1);
      ValueAfterNonNegative(d, j - 1);
      var prev := ValueAfter(d, j - 1);
      assert prev * Rate(d) >= 0.0;
    }
  }

  /** With non-negative amounts and return, end values never decrease from
      one year to a later one. */
  lemma Monotone(d: InvestmentInput)
    requires NonNegativePlan(d)
    ensures var rs := Project(d);
      forall i, j :: 0 <= i <= j < |rs| ==> rs[i].valueEndOfYear <= rs[j].valueEndOfYear
  {
    var rs := Project(d);
    forall i, j | 0 <= i <= j < |rs|
      ensures rs[i].valueEndOfYear <= rs[j].valueEndOfYear
    {
      ValueAfterMonotone(d, i + 1, j + 1);
    }
  }

  // ---------------------------------------------------------------------
  // Total interest is the running sum of yearly interest

  /** Sum of the yearly interest over a ledger. */
  ghost function SumInterest(rs: seq<YearRecord>): real
    decreases |rs|
  {
    if rs == [] then 0.0 else SumInterest(rs[..|rs| - 1]) + rs[|rs| - 1].interest
  }

  lemma ProjectionPrefix(d: InvestmentInput, n: nat, m: nat)
    requires m <= n
    ensures Projection(d, n)[..m] == Projection(d, m)
  {
  }

  /** Interest accumulated after `n` years, as the loop derives it. */
  ghost function InterestAfter(d: InvestmentInput, n: nat): real {
    ValueAfter(d, n) - d.annualInvestment * n as real - d.initialInvestment
  }

  lemma InterestAfterStep(d: InvestmentInput, n: nat)
    requires n >= 1
    ensures InterestAfter(d, n) == InterestAfter(d, n - 1) + RecordFor(d, n).interest
  {
    assert d.annualInvestment * n as real
           == d.annualInvestment * (n - 1) as real + d.annualInvestment;
  }

  lemma SumInterestStep(d: InvestmentInput, n: nat)
    requires n >= 1
    ensures SumInterest(Projection(d, n))
            == SumInterest(Projection(d, n - 1)) + RecordFor(d, n).interest
  {
    ProjectionPrefix(d, n, n - 1);
  }

  lemma {:induction false} InterestSoFar(d: InvestmentInput, n: nat)
    ensures InterestAfter(d, n) == SumInterest(Projection(d, n))
  {
    if n > 0 {
      InterestSoFar(d, n - 1);
      InterestAfterStep(d, n);
      SumInterestStep(d, n);
    }
  }

  /** The record's total interest is the interest its year has accumulated. */
  ghost predicate AccumulatesInterest(r: YearRecord, earlier: seq<YearRecord>) {
    r.totalInterest == SumInterest(earlier)
  }

  /** The `totalInterest` the loop derives by subtraction equals the interest
      actually earned, year by year, up to and including that record. */
  lemma CumulativeInterest(d: InvestmentInput)
    ensures var rs := Project(d);
      forall k :: 0 <= k < |rs| ==> AccumulatesInterest(rs[k], rs[..k + 1])
  {
    var rs := Project(d);
    forall k | 0 <= k < |rs|
      ensures AccumulatesInterest(rs[k], rs[..k + 1])
    {
      assert rs[k] == RecordFor(d, k + 1);
      assert rs[k].totalInterest == InterestAfter(d, k + 1);
      InterestSoFar(d, k + 1);
      ProjectionPrefix(d, |rs|, k + 1);
    }
  }

  // ---------------------------------------------------------------------
  // Closed form

  /** `g` raised to the `n`-th power. */
  ghost function Pow(g: real, n: nat): real
    decreases n
  {
    if n == 0 then 1.0 else Pow(g, n - 1) * g
  }

  /** `1 + g + ... + g^(n-1)`. */
  ghost function GeomSum(g: real, n: nat): real
    decreases n
  {
    if n == 0 then 0.0 else GeomSum(g, n - 1) + Pow(g, n - 1)
  }

  /** The yearly growth factor `1 + expectedReturn / 100`. */
  ghost function Growth(d: InvestmentInput): real {
    1.0 + Rate(d)
  }

  // Ring identities over abstract reals, kept apart from the recursive
  // definitions so that the solver sees only the algebra.

  lemma HornerAlgebra(s: real, p: real, g: real)
    ensures (s * g + 1.0) + p * g == (s + p) * g + 1.0
  {
  }

  lemma RatioAlgebra(s: real, p: real, g: real)
    requires s * (g - 1.0) == p - 1.0
    ensures (s + p) * (g - 1.0) == p * g - 1.0
  {
  }

  lemma ClosedFormAlgebra(x: real, y: real, c: real, p: real, s: real)
    ensures var v := x * p + y * s;
      v + (v * c + y) == x * (p * (1.0 + c)) + y * (s * (1.0 + c) + 1.0)
  {
  }

  lemma AnnuityAlgebra(x: real, y: real, g: real, c: real, v: real, p: real, s: real)
    requires g == 1.0 + c
    requires v == x * p + y * s
    requires s * (g - 1.0) == p - 1.0
    ensures (v - x * p) * c == y * (p - 1.0)
  {
  }

  /** Horner's step for the geometric sum: `S(n+1) == S(n) * g + 1`. */
  lemma {:induction false} GeomSumHorner(g: real, n: nat)
    ensures GeomSum(g, n + 1) == GeomSum(g, n) * g + 1.0
  {
    if n > 0 {
      GeomSumHorner(g, n - 1);
      HornerAlgebra(GeomSum(g, n - 1), Pow(g, n - 1), g);
    }
  }

  /** The geometric series identity `S(n) * (g - 1) == g^n - 1`. */
  lemma {:induction false} GeomSumTimesRatio(g: real, n: nat)
    ensures GeomSum(g, n) * (g - 1.0) == Pow(g, n) - 1.0
  {
    if n > 0 {
      GeomSumTimesRatio(g, n - 1);
      RatioAlgebra(GeomSum(g, n - 1), Pow(g, n - 1), g);
    }
  }

  /** The closed form after `n` years: the initial amount compounded `n`
      times plus each contribution compounded for the years left after it. */
  ghost function ClosedValue(d: InvestmentInput, n: nat): real {
    d.initialInvestment * Pow(Growth(d), n) + d.annualInvestment * GeomSum(Growth(d), n)
  }

  /** The closed form obeys the same one-year step as the loop. */
  lemma ClosedValueStep(d: InvestmentInput, n: nat)
    requires n >= 1
    ensures YearEnd(d, ClosedValue(d, n - 1)) == ClosedValue(d, n)
  {
    GeomSumHorner(Growth(d), n - 1);
    ClosedFormAlgebra(d.initialInvestment, d.annualInvestment, Rate(d),
                      Pow(Growth(d), n - 1), GeomSum(Growth(d), n - 1));
  }

  lemma {:induction false} ValueAfterClosedForm(d: InvestmentInput, n: nat)
    ensures ValueAfter(d, n) == ClosedValue(d, n)
  {
    if n > 0 {
      ValueAfterClosedForm(d, n - 1);
      ClosedValueStep(d, n);
    }
  }

  /** The end value of the record is the closed form at its year. */
  ghost predicate CompoundsTo(d: InvestmentInput, r: YearRecord, year: nat) {
    r.valueEndOfYear == ClosedValue(d, year)
  }

  /** The annuity identity with the division multiplied out: the part of the
      end value that comes from contributions, times the rate, is
      `a * (g^year - 1)`. For a non-zero rate this is the future value of an
      annuity, `a * (g^year - 1) / rate`; for a zero rate both sides vanish. */
  ghost predicate AnnuityForm(d: InvestmentInput, r: YearRecord, year: nat) {
    (r.valueEndOfYear - d.initialInvestment * Pow(Growth(d), year)) * Rate(d)
    == d.annualInvestment * (Pow(Growth(d), year) - 1.0)
  }

  lemma RecordClosedForm(d: InvestmentInput, year: nat)
    requires year >= 1
    ensures CompoundsTo(d, RecordFor(d, year), year)
    ensures AnnuityForm(d, RecordFor(d, year), year)
  {
    ValueAfterClosedForm(d, year);
    GeomSumTimesRatio(Growth(d), year);
    AnnuityAlgebra(d.initialInvestment, d.annualInvestment, Growth(d), Rate(d),
                   ValueAfter(d, year), Pow(Growth(d), year), GeomSum(Growth(d), year));
  }

  /** Every record's end value in closed form. */
  lemma ClosedForm(d: InvestmentInput)
    ensures var rs := Project(d);
      forall k :: 0 <= k < |rs| ==> CompoundsTo(d, rs[k], k + 1)
    ensures var rs := Project(d);
      forall k :: 0 <= k < |rs| ==> AnnuityForm(d, rs[k], k + 1)
  {
    var rs := Project(d);
    forall k | 0 <= k < |rs|
      ensures CompoundsTo(d, rs[k], k + 1)
      ensures AnnuityForm(d, rs[k], k + 1)
    {
      assert rs[k] == RecordFor(d, k + 1);
      RecordClosedForm(d, k + 1);
    }
  }

  // ---------------------------------------------------------------------
  // Worked examples

  /** 1000 at 10% with no contributions for two years: 1100, then 1210. */
  lemma ExampleCompounding()
    ensures Project(InvestmentInput(1000.0, 0.0, 10.0, 2)) == [
      YearRecord(1, 100.0, 1100.0, 0.0, 100.0, 1000.0),
      YearRecord(2, 110.0, 1210.0, 0.0, 210.0, 1000.0)]
  {
    var d := InvestmentInput(1000.0, 0.0, 10.0, 2);
    assert ValueAfter(d, 1) == 1100.0;
    assert ValueAfter(d, 2) == 1210.0;
    var rs := Project(d);
    assert rs[0] == RecordFor(d, 1) == YearRecord(1, 100.0, 1100.0, 0.0, 100.0, 1000.0);
    assert rs[1] == RecordFor(d, 2) == YearRecord(2, 110.0, 1210.0, 0.0, 210.0, 1000.0);
  }

  /** 100 a year at 0% for three years: 100, 200, 300 and no interest. */
  lemma ExampleContributionsOnly()
    ensures Project(InvestmentInput(0.0, 100.0, 0.0, 3)) == [
      YearRecord(1, 0.0, 100.0, 100.0, 0.0, 100.0),
      YearRecord(2, 0.0, 200.0, 100.0, 0.0, 200.0),
      YearRecord(3, 0.0, 300.0, 100.0, 0.0, 300.0)]
  {
    var d := InvestmentInput(0.0, 100.0, 0.0, 3);
    ZeroReturn(d);
  }
}
