/**
 The two records the investment calculator exchanges: the plan a user submits
 and one year of the projected ledger. All amounts are exact reals; the
 browser's IEEE-754 doubles are not modelled.
 */
module InvestmentModels {

  /** A fully coerced investment plan: amounts in currency units, the
      expected return as a percentage per year, the duration in years. */
  datatype InvestmentInput = InvestmentInput(
    initialInvestment: real,
    annualInvestment: real,
    expectedReturn: real,
    duration: int)

  /** One year of the projection: the interest earned in that year, the value
      at its end, the constant yearly contribution, the interest accumulated
      so far and the principal paid in so far. */
  datatype YearRecord = YearRecord(
    year: int,
    interest: real,
    valueEndOfYear: real,
    annualInvestment: real,
    totalInterest: real,
    totalAmountInvested: real)

  /** Number of loop iterations `for (i = 0; i < duration; i++)` performs
      for an integral duration. */
  function Years(duration: int): nat {
    if duration <= 0 then 0 else duration
  }

  /** The yearly rate as a fraction, `expectedReturn / 100`. */
  function Rate(d: InvestmentInput): real {
    d.expectedReturn / 100.0
  }
}
