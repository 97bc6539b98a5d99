# Investment projection, modelled in Dafny

This project models the projection engine of the investment calculator:
`InvestmentService.calculateInvestmentResults` and the `resultsData` holder it
overwrites. The engine takes an initial investment, a yearly contribution, an
expected yearly return in percent and a duration in years. It runs one
compounding step per year and emits one `YearRecord` per year. Each record
holds the year, the interest earned that year, the end-of-year value, the
contribution, the cumulative interest and the cumulative principal. The
finished array replaces whatever the holder held before.

Amounts are Dafny `real`, which is exact, so every identity below holds
exactly. The duration is an `int`.

Files:

- `investment_models.dfy` (module `InvestmentModels`): the plan
  (`InvestmentInput`) and one ledger row (`YearRecord`), the iteration count
  `Years` and the fractional rate `Rate`.
- `investment_service.dfy` (module `Investments`): the functional
  specification and the loop.
  - `YearEnd` is one year's step.
  - `ValueAfter` is the running value.
  - `RecordFor` is the record of one year.
  - `Projection` and `Project` build the ledger.
  - `BuildAnnualData` is the imperative loop, proved equal to `Project`.
  - The `InvestmentService` class holds an `Option<seq<YearRecord>>`, which
    `CalculateInvestmentResults` replaces wholesale.
- `projection_lemmas.dfy` (module `ProjectionLemmas`): properties of the ledger.
  - the year-to-year recurrence
  - the zero-return case
  - monotone growth for non-negative plans
  - total interest equals the running sum of yearly interest
  - the closed form (compound growth plus the future value of an annuity)
  - two worked examples
- `wrappers.dfy` (module `Wrappers`): `Option`, standing in for
  `T | undefined`.

The loop `for (let i = 0; i < duration; i++)` accepts any number and yields
no records for `duration <= 0`, so the ledger has `max(duration, 0)` records.
The code never checks that the initial investment is non-negative, and neither
does the model; only the monotonicity lemmas assume non-negative amounts.

## Model

| member | source | states |
|---|---|---|
| Investments.ValueAfter | investment-calculator/src/app/investments/investment.service.ts:19-24 | A definition with no contract of its own: the running `investmentValue` after n iterations, starting at `initialInvestment` and growing each year by `value * expectedReturn / 100` plus the contribution. Its properties are stated by the lemmas below. |
| Investments.RecordFor | investment-calculator/src/app/investments/investment.service.ts:22-34 | A definition with no contract of its own: the object pushed in the iteration for `year`, with the interest on the previous value, the new value, the contribution, the interest total by subtraction and the principal. Its properties are stated by `Project` and the lemmas below. |
| Investments.Projection | investment-calculator/src/app/investments/investment.service.ts:21-35 | After `n` iterations the array holds exactly `n` records. The k-th record is the one for year k+1. |
| Investments.Project | investment-calculator/src/app/investments/investment.service.ts:21-35 | The ledger has `max(duration, 0)` records and is empty exactly when `duration <= 0`. Record k has `year == k + 1`, so years strictly ascend. Every record carries the contribution unchanged, has principal `initialInvestment + annualInvestment * year`, and has `valueEndOfYear == totalAmountInvested + totalInterest`. |
| Investments.BuildAnnualData | investment-calculator/src/app/investments/investment.service.ts:15-35 | The loop with its running `investmentValue` returns exactly the specified ledger for every input. |
| Investments.InvestmentService.CalculateInvestmentResults | investment-calculator/src/app/investments/investment.service.ts:10-38 | Afterwards the holder contains exactly the newly computed ledger. Its previous contents play no part. |
| ProjectionLemmas.RecordStep | investment-calculator/src/app/investments/investment.service.ts:23-24 | The interest of year y+1 is year y's end value times the rate. Year y+1's end value is year y's end value plus that interest plus the contribution. |
| ProjectionLemmas.Recurrence | investment-calculator/src/app/investments/investment.service.ts:19-30 | Over the ledger, year 1 earns interest on `initialInvestment`. Every later record earns interest on the previous record's end value. Each end value is the previous one (or the initial amount) plus the interest plus the contribution. |
| ProjectionLemmas.ValueAfterNoReturn | investment-calculator/src/app/investments/investment.service.ts:23-24 | With a zero return, the value after n years is `initialInvestment + annualInvestment * n`. |
| ProjectionLemmas.RecordNoReturn | investment-calculator/src/app/investments/investment.service.ts:23-33 | With a zero return, a year's record has zero interest, zero total interest, and end value equal to the principal. |
| ProjectionLemmas.ZeroReturn | investment-calculator/src/app/investments/investment.service.ts:23-33 | With `expectedReturn == 0`, every record has zero interest and `valueEndOfYear == initialInvestment + annualInvestment * year`. |
| ProjectionLemmas.ValueAfterNonNegative | investment-calculator/src/app/investments/investment.service.ts:19-24 | With non-negative initial amount, contribution and return, the running value never goes negative. |
| ProjectionLemmas.ValueAfterMonotone | investment-calculator/src/app/investments/investment.service.ts:19-24 | Under the same conditions, the running value after i years is at most the value after any j >= i years. |
| ProjectionLemmas.Monotone | investment-calculator/src/app/investments/investment.service.ts:21-30 | Under the same conditions, `valueEndOfYear` is non-decreasing across the ledger. |
| ProjectionLemmas.ProjectionPrefix | investment-calculator/src/app/investments/investment.service.ts:21-35 | The loop only appends, so the first m records of an n-year ledger are the m-year ledger. |
| ProjectionLemmas.InterestAfterStep | investment-calculator/src/app/investments/investment.service.ts:23-26 | The interest total derived by subtraction grows each year by exactly that year's interest. |
| ProjectionLemmas.SumInterestStep | investment-calculator/src/app/investments/investment.service.ts:27-29 | Adding a year to the ledger adds that year's interest to the sum of the interest column. |
| ProjectionLemmas.InterestSoFar | investment-calculator/src/app/investments/investment.service.ts:23-26 | After n years, `value - annualInvestment * n - initialInvestment` equals the sum of the yearly interest. |
| ProjectionLemmas.CumulativeInterest | investment-calculator/src/app/investments/investment.service.ts:25-29 | Every record's `totalInterest` equals the sum of the `interest` fields of that record and all earlier ones. |
| ProjectionLemmas.ClosedValueStep | investment-calculator/src/app/investments/investment.service.ts:23-24 | The closed form `P * g^n + a * (1 + g + ... + g^(n-1))`, with `g = 1 + expectedReturn / 100`, obeys the loop's one-year step. |
| ProjectionLemmas.ValueAfterClosedForm | investment-calculator/src/app/investments/investment.service.ts:19-24 | The value after n years equals that closed form. |
| ProjectionLemmas.RecordClosedForm | investment-calculator/src/app/investments/investment.service.ts:23-30 | A year's end value equals the closed form at that year. The contribution part times the rate equals `a * (g^year - 1)`, which is the annuity formula when the rate is non-zero. |
| ProjectionLemmas.ClosedForm | investment-calculator/src/app/investments/investment.service.ts:21-30 | Every record of the ledger satisfies both closed forms at its year. |
| ProjectionLemmas.ExampleCompounding | investment-calculator/src/app/investments/investment.service.ts:15-35 | 1000 at 10% with no contributions for two years gives interest 100 then 110, and end values 1100 then 1210. |
| ProjectionLemmas.ExampleContributionsOnly | investment-calculator/src/app/investments/investment.service.ts:15-35 | 100 a year at 0% for three years gives end values 100, 200 and 300 and never any interest. |

## Left out

- The Angular signal, `computed` and `inject`: the signal is modelled as a plain field that the method overwrites. Reactivity and dependency injection are framework wiring.
- The `+string` coercion in `UserInputComponent.onSubmit` and `NaN`: these depend on JavaScript's string-to-number rules. The model takes numbers as input.
- IEEE-754 rounding: the identities are proved over exact reals. Browser doubles satisfy them only approximately.
- Non-finite amounts and durations, and durations past the array-length limit, are outside the model: with `duration` equal to `Infinity` the loop test never fails and the call does not return normally (it keeps pushing until memory runs out or `push` throws at the 2^32-1 array-length limit), any duration above 2^32-1 hits the same limit, and a `NaN` duration runs no iterations. The model's duration is an unbounded integer and `Project` returns a ledger of any length.
- Fractional durations: with a non-integral `duration` the loop runs ⌈duration⌉ times. The model's duration is an integer.
- Currency formatting (`CurrencyPipe`), templates and styles: these are presentation only.
- The tasks app: `TasksService` is not part of this model. The task components only toggle flags or emit events, and the module files are declarations only.
