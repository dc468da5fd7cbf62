/** The all-time borrower report of components/ReportView.tsx: the single
    expanded row, the footer totals, the expanded borrower's history and the
    sort indicators of the two sortable headers. The indicator and footer
    rules are shared with the monthly report, which repeats them. */
module ReportView {
  import opened Types
  import opened Seqs
  import opened Aggregation
  import opened LoanList

  // ---------------------------------------------------------------------------
  // The expanded row.

  /** `prev === borrowerName ? null : borrowerName`. */
  function Toggled(expanded: Option<string>, clicked: string): (r: Option<string>)
    ensures r.None? <==> expanded == Some(clicked)
    ensures r.Some? ==> r.value == clicked
  {
    if expanded == Some(clicked) then None else Some(clicked)
  }

  /** Clicking the same row twice from a collapsed table collapses it again,
      and from an expanded row it comes back to that row. */
  lemma ToggledTwice(expanded: Option<string>, clicked: string)
    ensures Toggled(Toggled(expanded, clicked), clicked) == if expanded == Some(clicked) then expanded else None
  {
  }

  /** The component's one piece of state. */
  class RowExpansion {
    var expandedBorrower: Option<string>

    constructor()
      ensures expandedBorrower == None
    {
      expandedBorrower := None;
    }

    /** `aria-expanded` of the row for `row`. */
    predicate IsExpanded(row: AggregatedLoan)
      reads this
    {
      expandedBorrower == Some(row.name)
    }

    method RowClick(borrowerName: string)
      modifies this
      ensures expandedBorrower == Toggled(old(expandedBorrower), borrowerName)
    {
      expandedBorrower := Toggled(expandedBorrower, borrowerName);
    }
  }

  /** The rendered rows carry distinct names in every sort order, so at most
      one of them is expanded. */
  lemma AtMostOneExpanded(expansion: RowExpansion, loans: seq<Loan>, cfg: SortConfig, lc: (string, string) -> real, i: nat, j: nat)
    requires i < |SortRows(Aggregate(loans), cfg, lc)| && j < |SortRows(Aggregate(loans), cfg, lc)|
    requires expansion.IsExpanded(SortRows(Aggregate(loans), cfg, lc)[i])
    requires expansion.IsExpanded(SortRows(Aggregate(loans), cfg, lc)[j])
    ensures i == j
  {
    var rows := SortRows(Aggregate(loans), cfg, lc);
    AggregateDistinct(loans);
    SortRowsPermutation(Aggregate(loans), cfg, lc);
    assert Names(rows)[i] == Names(rows)[j];
  }

  // ---------------------------------------------------------------------------
  // The footer.

  datatype Totals = Totals(totalAmount: real, totalLoans: real)

  /** The two `reduce` calls over the displayed rows. */
  function Footer(rows: seq<AggregatedLoan>): (t: Totals)
    ensures rows == [] ==> t == Totals(0.0, 0.0)
  {
    Totals(Sum(rows, TotalOf), Sum(rows, CountOf))
  }

  /** The all-time footer accounts for every loan: its total is the sum of
      all amounts and its count the number of loans, whatever the order. */
  lemma AllTimeFooter(loans: seq<Loan>, cfg: SortConfig, lc: (string, string) -> real)
    ensures Footer(SortRows(Aggregate(loans), cfg, lc)) == Totals(Sum(loans, AmountOf), |loans| as real)
  {
    SortRowsPermutation(Aggregate(loans), cfg, lc);
    AggregateConserves(loans);
  }

  // ---------------------------------------------------------------------------
  // The expanded borrower's history.

  /** `loans.filter(loan => loan.name === name).sort(newest first)`. */
  function BorrowerHistory(loans: seq<Loan>, name: string): seq<Loan> {
    NewestFirst(WithName(loans, name))
  }

  /** The history shows exactly the borrower's loans, each as often as it
      was recorded, newest first. */
  lemma BorrowerHistoryProperties(loans: seq<Loan>, name: string)
    ensures multiset(BorrowerHistory(loans, name)) == multiset(WithName(loans, name))
    ensures forall loan ::
      multiset(BorrowerHistory(loans, name))[loan] == if loan.name == name then multiset(loans)[loan] else 0
    ensures forall loan :: loan in BorrowerHistory(loans, name) <==> loan in loans && loan.name == name
    ensures forall i, j :: 0 <= i < j < |BorrowerHistory(loans, name)| ==>
      BorrowerHistory(loans, name)[i].date.time >= BorrowerHistory(loans, name)[j].date.time
  {
    var made := WithName(loans, name);
    NewestFirstProperties(made);
    forall loan ensures loan in BorrowerHistory(loans, name) <==> loan in made {
      assert loan in BorrowerHistory(loans, name) <==> loan in multiset(BorrowerHistory(loans, name));
    }
    forall loan | loan in loans && loan.name == name ensures loan in made {
      var i :| 0 <= i < |loans| && loans[i] == loan;
    }
  }

  // ---------------------------------------------------------------------------
  // Sort indicators.

  datatype SortIcon = Neutral | ArrowUp | ArrowDown

  /** `renderSortIcon(field)`. */
  function SortIconFor(cfg: SortConfig, field: SortField): (icon: SortIcon)
    ensures icon == Neutral <==> cfg.field != field
    ensures icon == ArrowUp <==> cfg.field == field && cfg.direction == Asc
  {
    if cfg.field != field then Neutral
    else if cfg.direction == Asc then ArrowUp
    else ArrowDown
  }

  /** The `aria-sort` attribute of a header. */
  function AriaSort(cfg: SortConfig, field: SortField): (value: string)
    ensures value == "none" <==> cfg.field != field
    ensures value == "ascending" <==> cfg.field == field && cfg.direction == Asc
    ensures value == "descending" <==> cfg.field == field && cfg.direction.Desc?
  {
    if cfg.field != field then "none"
    else if cfg.direction == Asc then "ascending"
    else "descending"
  }

  /** The icon and the attribute never disagree. */
  lemma IconMatchesAria(cfg: SortConfig, field: SortField)
    ensures SortIconFor(cfg, field) == Neutral <==> AriaSort(cfg, field) == "none"
    ensures SortIconFor(cfg, field) == ArrowUp <==> AriaSort(cfg, field) == "ascending"
    ensures SortIconFor(cfg, field) == ArrowDown <==> AriaSort(cfg, field) == "descending"
  {
  }

  /** At most one of the two headers shows a direction. */
  lemma OneActiveHeader(cfg: SortConfig)
    ensures SortIconFor(cfg, ByName) == Neutral || SortIconFor(cfg, ByTotalAmount) == Neutral
    ensures SortIconFor(cfg, ByName) != Neutral || SortIconFor(cfg, ByTotalAmount) != Neutral
  {
  }

  // ---------------------------------------------------------------------------
  // The table body.

  /** A body is one placeholder row or the data rows. */
  datatype TableBody = Placeholder(message: string) | DataRows(rows: seq<AggregatedLoan>)

  const NoDataMessage := "No data for the report yet."

  /** An empty report renders exactly the placeholder row. */
  function ReportBody(rows: seq<AggregatedLoan>): (body: TableBody)
    ensures body.Placeholder? <==> rows == []
    ensures body.DataRows? ==> body.rows == rows
  {
    if |rows| == 0 then Placeholder(NoDataMessage) else DataRows(rows)
  }
}
