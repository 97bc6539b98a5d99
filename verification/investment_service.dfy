/**
 The projection engine of the investment calculator: a year-by-year
 compounding loop and the holder whose contents it replaces.

 The functional specification (`ValueAfter`, `RecordFor`, `Projection`,
 `Project`) says what the ledger is; `BuildAnnualData` is the imperative loop
 of `calculateInvestmentResults`, proved equal to it; `InvestmentService` is
 the holder of the last ledger computed.
 */
module Investments {
  import opened Wrappers
  import opened InvestmentModels

  /** Value at the end of a year that starts at `value`: the year's interest,
      `value * rate`, and the contribution are both added. */
  function YearEnd(d: InvestmentInput, value: real): real {
    value + (value * Rate(d) + d.annualInvestment)
  }

  /** Value of the investment at the end of year `n` (`n == 0`: the start). */
  function ValueAfter(d: InvestmentInput, n: nat): real
    decreases n
  {
    if n == 0 then d.initialInvestment else YearEnd(d, ValueAfter(d, n - 1))
  }

  /** The record carries the plan's contribution unchanged, and its principal
      is the initial amount plus one contribution per year so far. */
  predicate PrincipalPaidIn(d: InvestmentInput, r: YearRecord) {
    && r.annualInvestment == d.annualInvestment
    && r.totalAmountInvested == d.initialInvestment + d.annualInvestment * r.year as real
  }

  /** The end value splits exactly into principal paid in and interest earned. */
  predicate Balanced(r: YearRecord) {
    r.valueEndOfYear == r.totalAmountInvested + r.totalInterest
  }

  /** The record the loop emits for `year` (1-based). */
  function RecordFor(d: InvestmentInput, year: nat): YearRecord
    requires year >= 1
  {
    var interest := ValueAfter(d, year - 1) * Rate(d);
    var value := ValueAfter(d, year);
    YearRecord(
      year,
      interest,
      value,
      d.annualInvestment,
      value - d.annualInvestment * year as real - d.initialInvestment,
      d.initialInvestment + d.annualInvestment * year as real)
  }

  /** The ledger of the first `n` years: the records for years 1..n, in order. */
  function Projection(d: InvestmentInput, n: nat): (rs: seq<YearRecord>)
    ensures |rs| == n
    ensures forall k :: 0 <= k < n ==> rs[k] == RecordFor(d, k + 1)
    decreases n
  {
    if n == 0 then [] else Projection(d, n - 1) + [RecordFor(d, n)]
  }

  /** The whole ledger for a plan: one record per year of its duration,
      none for a non-positive duration. */
  function Project(d: InvestmentInput): (rs: seq<YearRecord>)
    ensures |rs| == Years(d.duration)
    ensures rs == [] <==> d.duration <= 0
    ensures forall k :: 0 <= k < |rs| ==> rs[k].year == k + 1
    ensures forall i, j :: 0 <= i < j < |rs| ==> rs[i].year < rs[j].year
    ensures forall k :: 0 <= k < |rs| ==> PrincipalPaidIn(d, rs[k])
    ensures forall k :: 0 <= k < |rs| ==> Balanced(rs[k])
  {
    Projection(d, Years(d.duration))
  }

  /** The compounding loop of `calculateInvestmentResults`, without the final
      store into the holder. */
  method BuildAnnualData(data: InvestmentInput) returns (annualData: seq<YearRecord>)
    ensures annualData == Project(data)
  {
    var initialInvestment := data.initialInvestment;
    var annualInvestment := data.annualInvestment;
    annualData := [];
    var investmentValue := initialInvestment;
    var i := 0;
    while i < data.duration
      invariant 0 <= i <= Years(data.duration)
      invariant investmentValue == ValueAfter(data, i)
      invariant annualData == Projection(data, i)
    {
      var year := i + 1;
      var interestEarnedInYear := investmentValue * (data.expectedReturn / 100.0);
      investmentValue := investmentValue + (interestEarnedInYear + annualInvestment);
      var totalInterest :=
        investmentValue - annualInvestment * year as real - initialInvestment;
      var rec := YearRecord(
        year,
        interestEarnedInYear,
        investmentValue,
        annualInvestment,
        totalInterest,
        initialInvestment + annualInvestment * year as real);
      assert rec == RecordFor(data, year);
      annualData := annualData + [rec];
      i := i + 1;
    }
  }

  /** Holder of the most recent ledger; `None` until the first calculation. */
  class InvestmentService {
    var resultsData: Option<seq<YearRecord>>

    constructor()
      ensures resultsData == None
    {
      resultsData := None;
    }

    /** Recomputes the ledger and replaces the held one wholesale: what is
        held afterwards depends on `data` only, not on what was held before. */
    method CalculateInvestmentResults(data: InvestmentInput)
      modifies this
      ensures resultsData == Some(Project(data))
    {
      var annualData := BuildAnnualData(data);
      resultsData := Some(annualData);
    }
  }
}
