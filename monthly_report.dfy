/** The monthly borrower report of components/MonthlyReport.tsx: the month
    selector, the label of a month key, the message of an empty table and
    the footer, which only appears when there are rows. Its sortable
    headers follow the same rules as the all-time report's (SortIconFor and
    AriaSort in ReportView). */
module MonthlyReport {
  import opened Types
  import opened Text
  import opened Seqs
  import opened Aggregation
  import opened MonthIndex
  import opened ReportView

  /** What `formatMonth` hands to the locale formatter: nothing for an
      empty key, an invalid date when either part does not parse, and
      otherwise the year and zero-based month of `new Date(year, month)`. */
  datatype MonthLabel = Blank | InvalidDate | DateLabel(year: int, monthIndex: int)

  /** `formatMonth(monthStr)`: `parseInt` of the first two pieces of the key
      split on `-`, the month shifted to zero-based. */
  function FormatMonth(monthStr: string): (formatted: MonthLabel)
    ensures formatted.Blank? <==> monthStr == ""
    ensures formatted.DateLabel? ==> monthStr != "" && '-' in monthStr
  {
    if monthStr == "" then Blank
    else
      var parts := Split(monthStr, '-');
      assert '-' !in monthStr ==> |parts| == 1 by {
        if '-' !in monthStr { SplitWithoutSeparator(monthStr, '-'); }
      }
      var year := ParseIntPrefix(parts[0]);
      var month := if |parts| > 1 then ParseIntPrefix(parts[1]) else None;
      if year.None? || month.None? then InvalidDate
      else DateLabel(year.value, month.value - 1)
  }

  /** `parseInt` reads a whole string of digits. */
  lemma ParseIntOfDigits(s: string)
    requires |s| > 0 && AllDigits(s)
    ensures ParseIntPrefix(s) == Some(DigitsValue(s))
  {
    DigitPrefixOfDigits(s, []);
    assert s + [] == s;
    assert s[..|s|] == s;
  }

  /** The label of a key names the month the key was made from. */
  lemma FormatMonthKey(year: nat, month: Month)
    ensures FormatMonth(MonthKey(year, month)) == DateLabel(year, month - 1)
  {
    var y, m := NatToDecimal(year), MonthText(month);
    assert '-' !in y by {
      forall i | 0 <= i < |y| ensures y[i] != '-' {
        assert IsDigit(y[i]);
      }
    }
    assert '-' !in m by {
      forall i | 0 <= i < |m| ensures m[i] != '-' {
        assert IsDigit(m[i]);
      }
    }
    SplitAtFirst(y, '-', m);
    SplitWithoutSeparator(m, '-');
    assert Split(MonthKey(year, month), '-') == [y, m];
    ParseIntOfDigits(y);
    ParseIntOfDigits(m);
    DecimalRoundTrip(year);
  }

  /** Different months in the selector carry different labels. */
  lemma FormatMonthInjective(y1: nat, m1: Month, y2: nat, m2: Month)
    requires FormatMonth(MonthKey(y1, m1)) == FormatMonth(MonthKey(y2, m2))
    ensures MonthKey(y1, m1) == MonthKey(y2, m2)
  {
    FormatMonthKey(y1, m1);
    FormatMonthKey(y2, m2);
  }

  // ---------------------------------------------------------------------------
  // The month selector.

  /** One `<option>`: its value and its label. */
  datatype MonthOption = MonthOption(value: string, text: MonthLabel)

  /** The selector is left out when there are no months; otherwise it has
      one option per month, in the order of the list. */
  function MonthSelector(months: seq<string>): (selector: Option<seq<MonthOption>>)
    ensures selector.None? <==> months == []
    ensures selector.Some? ==> |selector.value| == |months|
    ensures selector.Some? ==>
      forall i :: 0 <= i < |months| ==> selector.value[i] == MonthOption(months[i], FormatMonth(months[i]))
  {
    if |months| == 0 then None
    else Some(seq(|months|, i requires 0 <= i < |months| => MonthOption(months[i], FormatMonth(months[i]))))
  }

  // ---------------------------------------------------------------------------
  // The table body and footer.

  /** The monthly table body: a message naming why it is empty, or the rows. */
  datatype MonthlyBody = NoLoansYet | NoLoansFor(month: MonthLabel) | MonthRows(rows: seq<AggregatedLoan>)

  /** An empty table says whether there are no loans at all or
      none in the selected month. */
  function MonthlyTableBody(rows: seq<AggregatedLoan>, months: seq<string>, selectedMonth: string): (body: MonthlyBody)
    ensures body.MonthRows? <==> rows != []
    ensures body.MonthRows? ==> body.rows == rows
    ensures body.NoLoansYet? <==> rows == [] && months == []
    ensures body.NoLoansFor? ==> body.month == FormatMonth(selectedMonth)
  {
    if |rows| == 0 then
      if |months| == 0 then NoLoansYet else NoLoansFor(FormatMonth(selectedMonth))
    else MonthRows(rows)
  }

  /** The footer is rendered only over a non-empty table. */
  function MonthlyFooter(rows: seq<AggregatedLoan>): (footer: Option<Totals>)
    ensures footer.Some? <==> rows != []
    ensures footer.Some? ==> footer.value == Footer(rows)
  {
    if |rows| > 0 then Some(Footer(rows)) else None
  }

  /** The monthly footer accounts for every loan the table aggregates. */
  lemma MonthlyFooterConserves(loans: seq<Loan>, cfg: SortConfig, lc: (string, string) -> real)
    requires loans != []
    ensures MonthlyFooter(SortRows(Aggregate(loans), cfg, lc)) == Some(Totals(Sum(loans, AmountOf), |loans| as real))
  {
    AllTimeFooter(loans, cfg, lc);
    AggregateNames(loans);
    assert loans[0].name in Names(Aggregate(loans));
    SortRowsPermutation(Aggregate(loans), cfg, lc);
    assert Aggregate(loans)[0] in multiset(SortRows(Aggregate(loans), cfg, lc));
  }
}
