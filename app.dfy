/** The ledger of App.tsx: the loans, the remembered descriptions, the two
    sort configurations and the selected month, the handlers that change
    them, the reconcile effect, and the memoised report rows. */
module App {
  import opened Types
  import opened Text
  import opened Seqs
  import opened StableSort
  import opened MonthIndex
  import opened Aggregation
  import opened ReportView

  // ---------------------------------------------------------------------------
  // Remembered descriptions.

  /** The remembered descriptions are in strictly ascending string order
      (hence distinct), and each is non-empty and trimmed. */
  predicate SavedInvariant(saved: seq<string>) {
    && (forall i, j :: 0 <= i < j < |saved| ==> StrLess(saved[i], saved[j]))
    && (forall i :: 0 <= i < |saved| ==> saved[i] != "" && IsTrimmed(saved[i]))
  }

  /** The list after `handleAddLoan`: the trimmed description joins it when
      it is non-empty and not yet there, and the whole list is re-sorted. */
  function Remember(saved: seq<string>, description: string): seq<string> {
    var trimmed := Trim(description);
    if trimmed != "" && trimmed !in saved then InsertionSort(saved + [trimmed], CompareStrings) else saved
  }

  /** Sorting distinct strings with the default order makes them strictly
      ascending and keeps exactly the same strings. */
  lemma AscendingOrder(keys: seq<string>)
    requires Distinct(keys)
    ensures var sorted := InsertionSort(keys, CompareStrings);
      && (forall i, j :: 0 <= i < j < |sorted| ==> StrLess(sorted[i], sorted[j]))
      && (forall key :: key in sorted <==> key in keys)
  {
    var sorted := InsertionSort(keys, CompareStrings);
    InsertionSortPermutation(keys, CompareStrings);
    DistinctPermutation(keys, sorted);
    StringOrderValid();
    InsertionSortSorted(keys, CompareStrings);
    forall i, j | 0 <= i < j < |sorted| ensures StrLess(sorted[i], sorted[j]) {
      assert CompareStrings(sorted[i], sorted[j]) <= 0.0;
    }
    forall key ensures key in sorted <==> key in keys {
      assert key in sorted <==> key in multiset(sorted);
    }
  }

  /** A description is remembered exactly when its trimmed form is non-empty
      and new; the list keeps its invariant and loses nothing. */
  lemma RememberProperties(saved: seq<string>, description: string)
    requires SavedInvariant(saved)
    ensures SavedInvariant(Remember(saved, description))
    ensures forall d :: d in Remember(saved, description) <==> d in saved || (d == Trim(description) && d != "")
    ensures |Remember(saved, description)| == |saved| + (if Trim(description) != "" && Trim(description) !in saved then 1 else 0)
  {
    var trimmed := Trim(description);
    if trimmed != "" && trimmed !in saved {
      InsertNew(saved, trimmed);
    }
  }

  /** Sorting in a new, non-empty, trimmed string keeps the invariant. */
  lemma InsertNew(saved: seq<string>, trimmed: string)
    requires SavedInvariant(saved) && trimmed != "" && IsTrimmed(trimmed) && trimmed !in saved
    ensures var sorted := InsertionSort(saved + [trimmed], CompareStrings);
      && SavedInvariant(sorted)
      && (forall d :: d in sorted <==> d in saved || d == trimmed)
  {
    var grown := saved + [trimmed];
    assert Distinct(grown) by {
      forall i, j | 0 <= i < j < |grown| ensures grown[i] != grown[j] {
        if j < |saved| {
          StrLessIrreflexive(saved[i]);
        } else {
          assert grown[i] in saved;
        }
      }
    }
    AscendingOrder(grown);
    var sorted := InsertionSort(grown, CompareStrings);
    assert forall d :: d in grown <==> d in saved || d == trimmed;
    forall i | 0 <= i < |sorted| ensures sorted[i] != "" && IsTrimmed(sorted[i]) {
      assert sorted[i] in grown;
    }
  }

  /** Builds the re-sorted list as App.tsx:71 does: a fresh array holding the
      old entries and the new one, sorted in place. */
  method RememberSorted(saved: seq<string>, description: string) returns (r: seq<string>)
    ensures r == Remember(saved, description)
    ensures SavedInvariant(saved) ==> SavedInvariant(r)
  {
    if SavedInvariant(saved) {
      RememberProperties(saved, description);
    }
    var trimmed := Trim(description);
    if trimmed != "" && trimmed !in saved {
      r := SortedCopy(saved + [trimmed]);
    } else {
      r := saved;
    }
  }

  /** `[...prev, trimmedDescription].sort()`: the strings are copied into a
      fresh array and sorted there. */
  method SortedCopy(strings: seq<string>) returns (r: seq<string>)
    ensures r == InsertionSort(strings, CompareStrings)
  {
    var a := new string[|strings|](i requires 0 <= i < |strings| => strings[i]);
    assert a[..] == strings;
    SortInPlace(a, CompareStrings);
    r := a[..];
  }

  /** `prev.filter(d => d !== descriptionToDelete)`. */
  function RemoveAll(saved: seq<string>, doomed: string): (r: seq<string>)
    ensures IsSubsequence(r, saved)
    ensures forall d :: d in r <==> d in saved && d != doomed
    ensures forall d :: multiset(r)[d] == if d == doomed then 0 else multiset(saved)[d]
  {
    if |saved| == 0 then []
    else
      var rest := RemoveAll(saved[1..], doomed);
      assert multiset(saved) == multiset{saved[0]} + multiset(saved[1..]) by {
        assert saved == [saved[0]] + saved[1..];
      }
      if saved[0] == doomed then
        assert rest == [] || rest[0] != saved[0] by {
          if rest != [] { assert rest[0] in rest; }
        }
        assert forall d :: d in saved <==> d == saved[0] || d in saved[1..] by {
          assert saved == [saved[0]] + saved[1..];
        }
        rest
      else
        assert ([saved[0]] + rest)[1..] == rest;
        [saved[0]] + rest
  }

  /** Deleting keeps the remembered list in order: what is left is still
      strictly ascending, non-empty and trimmed. */
  lemma {:induction false} RemoveAllKeepsInvariant(saved: seq<string>, doomed: string)
    requires SavedInvariant(saved)
    ensures SavedInvariant(RemoveAll(saved, doomed))
  {
    if |saved| > 0 {
      var tail := saved[1..];
      assert SavedInvariant(tail) by {
        forall i, j | 0 <= i < j < |tail| ensures StrLess(tail[i], tail[j]) {
          assert StrLess(saved[i + 1], saved[j + 1]);
        }
        forall i | 0 <= i < |tail| ensures tail[i] != "" && IsTrimmed(tail[i]) {
          assert tail[i] == saved[i + 1];
        }
      }
      RemoveAllKeepsInvariant(tail, doomed);
      var rest := RemoveAll(tail, doomed);
      if saved[0] != doomed {
        var r := [saved[0]] + rest;
        forall i, j | 0 <= i < j < |r| ensures StrLess(r[i], r[j]) {
          if i == 0 {
            assert r[j] in rest;
            var k :| 0 <= k < |tail| && tail[k] == r[j];
            assert StrLess(saved[0], saved[k + 1]);
          } else {
            assert r[i] == rest[i - 1] && r[j] == rest[j - 1];
          }
        }
        forall i | 0 <= i < |r| ensures r[i] != "" && IsTrimmed(r[i]) {
          if i > 0 { assert r[i] == rest[i - 1]; }
        }
      }
    }
  }

  /** Deleting an entry that is not there changes nothing. */
  lemma {:induction false} RemoveAbsent(saved: seq<string>, doomed: string)
    requires doomed !in saved
    ensures RemoveAll(saved, doomed) == saved
  {
    if |saved| > 0 {
      assert doomed !in saved[1..] by {
        forall d | d in saved[1..] ensures d in saved {
          assert saved == [saved[0]] + saved[1..];
        }
      }
      RemoveAbsent(saved[1..], doomed);
      assert saved == [saved[0]] + saved[1..];
    }
  }

  /** Remembering a description and then deleting it restores the list,
      provided it was not remembered before. */
  lemma RememberThenDelete(saved: seq<string>, description: string)
    requires SavedInvariant(saved) && Trim(description) !in saved
    ensures RemoveAll(Remember(saved, description), Trim(description)) == saved
  {
    var trimmed := Trim(description);
    if trimmed != "" {
      RememberProperties(saved, description);
      var grown := Remember(saved, description);
      var left := RemoveAll(grown, trimmed);
      RemoveAllKeepsInvariant(grown, trimmed);
      assert forall d :: d in left <==> d in saved;
      AscendingUnique(left, saved);
    } else {
      RemoveAbsent(saved, trimmed);
    }
  }

  /** Two strictly ascending lists with the same members are equal. */
  lemma {:induction false} AscendingUnique(s: seq<string>, t: seq<string>)
    requires forall i, j :: 0 <= i < j < |s| ==> StrLess(s[i], s[j])
    requires forall i, j :: 0 <= i < j < |t| ==> StrLess(t[i], t[j])
    requires forall d :: d in s <==> d in t
    ensures s == t
    decreases |s| + |t|
  {
    assert |s| > 0 ==> s[0] in s;
    assert |t| > 0 ==> t[0] in t;
    if |s| > 0 && |t| > 0 {
      // The least member of each list is its head.
      assert s[0] == t[0] by {
        assert s[0] in t && t[0] in s;
        var i :| 0 <= i < |t| && t[i] == s[0];
        var j :| 0 <= j < |s| && s[j] == t[0];
        if i > 0 && j > 0 {
          assert StrLess(t[0], t[i]) && StrLess(s[0], s[j]);
          StrLessAsymmetric(t[0], s[0]);
        }
      }
      forall d ensures d in s[1..] <==> d in t[1..] {
        Below(s, d);
        Below(t, d);
      }
      AscendingUnique(s[1..], t[1..]);
      assert s == [s[0]] + s[1..] && t == [t[0]] + t[1..];
    }
  }

  /** In a strictly ascending list the tail holds every member but the head. */
  lemma Below(s: seq<string>, d: string)
    requires |s| > 0 && forall i, j :: 0 <= i < j < |s| ==> StrLess(s[i], s[j])
    ensures d in s[1..] <==> d in s && d != s[0]
  {
    if d in s[1..] {
      var k :| 0 <= k < |s| - 1 && s[1..][k] == d;
      assert StrLess(s[0], s[k + 1]);
      StrLessIrreflexive(s[0]);
    }
    if d in s && d != s[0] {
      var k :| 0 <= k < |s| && s[k] == d;
      assert s[1..][k - 1] == d;
    }
  }

  // ---------------------------------------------------------------------------
  // Sort headers.

  function Opposite(direction: SortDirection): (r: SortDirection)
    ensures r != direction
  {
    if direction == Asc then Desc else Asc
  }

  /** `handleSortChange(field)`: the clicked field becomes active; clicking
      the active field again reverses the direction, any other field starts
      ascending. */
  function NextSortConfig(cfg: SortConfig, field: SortField): (next: SortConfig)
    ensures next.field == field
    ensures cfg.field == field ==> next.direction != cfg.direction
    ensures cfg.field != field ==> next.direction == Asc
  {
    SortConfig(field, if cfg.field == field then Opposite(cfg.direction) else Asc)
  }

  /** Two clicks on the active header restore the configuration; a click on
      another header followed by a click on it again sorts it descending. */
  lemma SortClickTwice(cfg: SortConfig, field: SortField)
    ensures NextSortConfig(NextSortConfig(cfg, field), field)
         == if cfg.field == field then cfg else SortConfig(field, Desc)
  {
  }

  // ---------------------------------------------------------------------------
  // The monthly scope.

  /** `loans.filter(...)` with the filter of the selected month. */
  function InScope(loans: seq<Loan>, f: MonthFilter): (r: seq<Loan>)
    ensures |r| <= |loans|
    ensures forall loan :: loan in r <==> loan in loans && InMonth(loan, f)
    ensures IsSubsequence(r, loans)
    ensures forall loan :: multiset(r)[loan] == if InMonth(loan, f) then multiset(loans)[loan] else 0
  {
    if |loans| == 0 then []
    else
      var front, last := loans[..|loans| - 1], loans[|loans| - 1];
      assert forall loan :: loan in loans <==> loan in front || loan == last by {
        assert loans == front + [last];
      }
      assert multiset(loans) == multiset(front) + multiset{last} by {
        assert loans == front + [last];
      }
      FilterStep(InScope(front, f), loans, InMonth(last, f));
      InScope(front, f) + (if InMonth(last, f) then [last] else [])
  }

  /** The monthly scope of a month key is exactly the loans made in it. */
  lemma ScopeOfKey(loans: seq<Loan>, year: nat, month: Month)
    ensures forall loan :: loan in InScope(loans, ParseMonthKey(MonthKey(year, month))) <==>
      loan in loans && KeyOf(loan) == MonthKey(year, month)
  {
    forall loan {
      InMonthOfKey(loan, MonthKey(year, month), year, month);
    }
  }

  /** `monthlyAggregatedLoans`: nothing without a selected month, otherwise
      the rows of the loans in the month the key parses to, sorted. */
  function MonthlyReportRows(loans: seq<Loan>, selectedMonth: string, cfg: SortConfig, lc: (string, string) -> real): seq<AggregatedLoan> {
    if selectedMonth == "" then []
    else SortRows(Aggregate(InScope(loans, ParseMonthKey(selectedMonth))), cfg, lc)
  }

  /** The monthly rows conserve the amounts and the number of the loans in
      scope, and there are none without a selected month. */
  lemma MonthlyConserves(loans: seq<Loan>, selectedMonth: string, cfg: SortConfig, lc: (string, string) -> real)
    ensures selectedMonth == "" ==> MonthlyReportRows(loans, selectedMonth, cfg, lc) == []
    ensures selectedMonth != "" ==>
      var scope := InScope(loans, ParseMonthKey(selectedMonth));
      Footer(MonthlyReportRows(loans, selectedMonth, cfg, lc)) == Totals(Sum(scope, AmountOf), |scope| as real)
  {
    if selectedMonth != "" {
      AllTimeFooter(InScope(loans, ParseMonthKey(selectedMonth)), cfg, lc);
    }
  }

  /** Once the reconcile effect has run, the monthly report of a non-empty
      ledger is never empty: the selected month is one some loan was made
      in. */
  lemma ReconciledMonthHasRows(loans: seq<Loan>, selectedMonth: string, cfg: SortConfig, lc: (string, string) -> real)
    requires loans != []
    ensures MonthlyReportRows(loans, Reconciled(MonthsOf(loans), selectedMonth), cfg, lc) != []
  {
    var months := MonthsOf(loans);
    MonthsOfProperties(loans);
    var key := Reconciled(months, selectedMonth);
    assert HasKey(loans, key);
    var i :| 0 <= i < |loans| && KeyOf(loans[i]) == key;
    var loan := loans[i];
    ScopeOfKey(loans, loan.date.year, loan.date.month);
    var scope := InScope(loans, ParseMonthKey(key));
    assert loan in scope;
    assert scope != [];
    AggregateNames(scope);
    assert scope[0].name in Names(Aggregate(scope));
    SortRowsPermutation(Aggregate(scope), cfg, lc);
    assert Aggregate(scope)[0] in multiset(SortRows(Aggregate(scope), cfg, lc));
  }

  /** A new loan's month is listed afterwards, and no month disappears. */
  lemma AddedLoanMonth(loans: seq<Loan>, loan: Loan)
    ensures KeyOf(loan) in MonthsOf(loans + [loan])
    ensures forall key :: key in MonthsOf(loans) ==> key in MonthsOf(loans + [loan])
  {
    var grown := loans + [loan];
    MonthsOfProperties(loans);
    MonthsOfProperties(grown);
    assert KeyOf(grown[|loans|]) == KeyOf(loan);
    forall key | key in MonthsOf(loans) ensures key in MonthsOf(grown) {
      var i :| 0 <= i < |loans| && KeyOf(loans[i]) == key;
      assert grown[i] == loans[i];
    }
  }

  /** Adding a loan raises the all-time total by its amount and the count by
      one. */
  lemma AddedLoanTotals(loans: seq<Loan>, loan: Loan, cfg: SortConfig, lc: (string, string) -> real)
    ensures Footer(SortRows(Aggregate(loans + [loan]), cfg, lc)).totalAmount
         == Footer(SortRows(Aggregate(loans), cfg, lc)).totalAmount + loan.amount
    ensures Footer(SortRows(Aggregate(loans + [loan]), cfg, lc)).totalLoans
         == Footer(SortRows(Aggregate(loans), cfg, lc)).totalLoans + 1.0
  {
    AllTimeFooter(loans, cfg, lc);
    AllTimeFooter(loans + [loan], cfg, lc);
    SumAppend(loans, [loan], AmountOf);
    assert Sum([loan], AmountOf) == AmountOf(loan);
  }

  /** The body of the reconcile effect on the current month list. */
  method ReconcileStep(months: seq<string>, selected: string) returns (r: string)
    ensures r == Reconciled(months, selected)
  {
    r := selected;
    if |months| > 0 && selected !in months {
      r := months[0];
    } else if |months| == 0 {
      r := "";
    }
  }

  // ---------------------------------------------------------------------------
  // The component's state.

  class Ledger {
    var loans: seq<Loan>
    var savedDescriptions: seq<string>
    var sortConfig: SortConfig
    var selectedMonth: string
    var monthlySortConfig: SortConfig

    predicate Valid()
      reads this
    {
      SavedInvariant(savedDescriptions)
    }

    constructor()
      ensures Valid()
      ensures loans == [] && savedDescriptions == [] && selectedMonth == ""
      ensures sortConfig == InitialSort && monthlySortConfig == InitialSort
    {
      loans, savedDescriptions := [], [];
      sortConfig, selectedMonth, monthlySortConfig := InitialSort, "", InitialSort;
    }

    /** `handleAddLoan`: the id and the date are supplied by the caller. The
        new loan goes at the end and the description is remembered. */
    method AddLoan(entry: LoanEntry, id: string, date: LoanDate)
      requires Valid()
      modifies this
      ensures Valid()
      ensures loans == old(loans) + [Loan(id, entry.name, entry.amount, entry.description, date)]
      ensures savedDescriptions == Remember(old(savedDescriptions), entry.description)
      ensures sortConfig == old(sortConfig) && selectedMonth == old(selectedMonth)
      ensures monthlySortConfig == old(monthlySortConfig)
    {
      var saved := RememberSorted(savedDescriptions, entry.description);
      loans := loans + [Loan(id, entry.name, entry.amount, entry.description, date)];
      savedDescriptions := saved;
    }

    /** `handleDeleteDescription`. */
    method DeleteDescription(doomed: string)
      requires Valid()
      modifies this
      ensures Valid()
      ensures savedDescriptions == RemoveAll(old(savedDescriptions), doomed)
      ensures loans == old(loans) && sortConfig == old(sortConfig)
      ensures selectedMonth == old(selectedMonth) && monthlySortConfig == old(monthlySortConfig)
    {
      RemoveAllKeepsInvariant(savedDescriptions, doomed);
      savedDescriptions := RemoveAll(savedDescriptions, doomed);
    }

    /** `handleSortChange`: the monthly configuration is untouched. */
    method SortChange(field: SortField)
      modifies this
      ensures sortConfig == NextSortConfig(old(sortConfig), field)
      ensures monthlySortConfig == old(monthlySortConfig)
      ensures loans == old(loans) && savedDescriptions == old(savedDescriptions) && selectedMonth == old(selectedMonth)
    {
      sortConfig := NextSortConfig(sortConfig, field);
    }

    /** `handleMonthlySortChange`: the all-time configuration is untouched. */
    method MonthlySortChange(field: SortField)
      modifies this
      ensures monthlySortConfig == NextSortConfig(old(monthlySortConfig), field)
      ensures sortConfig == old(sortConfig)
      ensures loans == old(loans) && savedDescriptions == old(savedDescriptions) && selectedMonth == old(selectedMonth)
    {
      monthlySortConfig := NextSortConfig(monthlySortConfig, field);
    }

    /** `handleMonthChange`. */
    method MonthChange(month: string)
      modifies this
      ensures selectedMonth == month
      ensures loans == old(loans) && savedDescriptions == old(savedDescriptions)
      ensures sortConfig == old(sortConfig) && monthlySortConfig == old(monthlySortConfig)
    {
      selectedMonth := month;
    }

    /** The effect of App.tsx:123-129, run after the loans or the selection
        change. */
    method ReconcileMonth()
      modifies this
      ensures selectedMonth == Reconciled(MonthsOf(loans), old(selectedMonth))
      ensures loans == old(loans) && savedDescriptions == old(savedDescriptions)
      ensures sortConfig == old(sortConfig) && monthlySortConfig == old(monthlySortConfig)
    {
      var months := AvailableMonths(loans);
      var selected := ReconcileStep(months, selectedMonth);
      selectedMonth := selected;
    }

    /** The `availableMonths` memo. */
    method Months() returns (months: seq<string>)
      ensures months == MonthsOf(loans)
    {
      months := AvailableMonths(loans);
    }

    /** The `aggregatedLoans` memo; `lc` is `localeCompare`. */
    method AllTimeRows(lc: (string, string) -> real) returns (rows: seq<AggregatedLoan>)
      ensures rows == SortRows(Aggregate(loans), sortConfig, lc)
    {
      rows := ReportRows(loans, sortConfig, lc);
    }

    /** The `monthlyAggregatedLoans` memo. */
    method MonthlyRows(lc: (string, string) -> real) returns (rows: seq<AggregatedLoan>)
      ensures rows == MonthlyReportRows(loans, selectedMonth, monthlySortConfig, lc)
    {
      if selectedMonth == "" {
        rows := [];
      } else {
        var scope := InScope(loans, ParseMonthKey(selectedMonth));
        rows := ReportRows(scope, monthlySortConfig, lc);
      }
    }
  }
}
