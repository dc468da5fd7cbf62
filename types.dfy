/** The records and enumerations of the ledger (types.ts), as values. */
module Types {

  datatype Option<T> = None | Some(value: T)

  /** A calendar month number as `getMonth() + 1` yields it. */
  type Month = m: int | 1 <= m <= 12 witness 1

  /** The creation instant of a loan: milliseconds since the epoch (`getTime()`),
      together with the local calendar year and month of that instant
      (`getFullYear()`, `getMonth() + 1`) as the environment reports them. */
  datatype LoanDate = LoanDate(time: int, year: nat, month: Month)

  /** One recorded loan. */
  datatype Loan = Loan(id: string, name: string, amount: real, description: string, date: LoanDate)

  /** What the form hands to the ledger: a loan without its id and date. */
  datatype LoanEntry = LoanEntry(name: string, amount: real, description: string)

  /** One row of a report: the loans of one borrower within a scope. */
  datatype AggregatedLoan = AggregatedLoan(name: string, totalAmount: real, loanCount: nat)

  datatype SortField = ByName | ByTotalAmount

  datatype SortDirection = Asc | Desc

  datatype SortConfig = SortConfig(field: SortField, direction: SortDirection)

  /** The configuration both reports start with. */
  const InitialSort := SortConfig(ByName, Asc)
}
