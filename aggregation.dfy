/** The per-borrower report rows of App.tsx:131-196: one pass over the loans
    that tallies each borrower's amounts and loan count in a dictionary, the
    dictionary read out in the order its keys were first added, and the
    in-place sort of the rows under the header's sort configuration. */
module Aggregation {
  import opened Types
  import opened Seqs
  import opened StableSort

  function AmountOf(loan: Loan): real { loan.amount }

  function TotalOf(row: AggregatedLoan): real { row.totalAmount }

  function CountOf(row: AggregatedLoan): real { row.loanCount as real }

  /** The borrower names of the rows, in row order. */
  function Names(rows: seq<AggregatedLoan>): (names: seq<string>)
    ensures |names| == |rows|
  {
    seq(|rows|, i requires 0 <= i < |rows| => rows[i].name)
  }

  /** The loans made to `name`, in their order (`loans.filter(loan =>
      loan.name === name)`). */
  function WithName(loans: seq<Loan>, name: string): (r: seq<Loan>)
    ensures forall loan :: loan in r <==> loan in loans && loan.name == name
    ensures IsSubsequence(r, loans)
    ensures forall loan :: multiset(r)[loan] == if loan.name == name then multiset(loans)[loan] else 0
  {
    if |loans| == 0 then []
    else
      var front, last := loans[..|loans| - 1], loans[|loans| - 1];
      assert forall loan :: loan in loans <==> loan in front || loan == last by {
        assert loans == front + [last];
      }
      assert multiset(loans) == multiset(front) + multiset{last} by {
        assert loans == front + [last];
      }
      FilterStep(WithName(front, name), loans, last.name == name);
      WithName(front, name) + (if last.name == name then [last] else [])
  }

  // ---------------------------------------------------------------------------
  // The dictionary as a sequence of rows in first-seen order.

  /** The position of the first row for `name`, or `|rows|` if there is none. */
  function IndexOfName(rows: seq<AggregatedLoan>, name: string): (k: nat)
    ensures k <= |rows|
    ensures k < |rows| ==> rows[k].name == name
    ensures forall j :: 0 <= j < k ==> rows[j].name != name
    decreases |rows|
  {
    if |rows| == 0 then 0
    else if rows[0].name == name then 0
    else 1 + IndexOfName(rows[1..], name)
  }

  /** `aggregation[name]`: the row for `name`, if the dictionary has one. */
  function Lookup(rows: seq<AggregatedLoan>, name: string): (r: Option<AggregatedLoan>)
    ensures r.Some? <==> name in Names(rows)
    ensures r.Some? ==> r.value in rows && r.value.name == name
  {
    var k := IndexOfName(rows, name);
    assert name in Names(rows) ==> k < |rows| by {
      if name in Names(rows) {
        var j :| 0 <= j < |rows| && Names(rows)[j] == name;
        assert rows[j].name == name;
      }
    }
    assert k < |rows| ==> Names(rows)[k] == name;
    if k < |rows| then Some(rows[k]) else None
  }

  /** One step of the loop body: a missing entry starts at zero, then the
      loan's amount is added and its count incremented. */
  function Bump(entry: Option<AggregatedLoan>, loan: Loan): (row: AggregatedLoan)
    ensures row.name == loan.name
  {
    var start := if entry.Some? then entry.value else AggregatedLoan(loan.name, 0.0, 0);
    AggregatedLoan(loan.name, start.totalAmount + loan.amount, start.loanCount + 1)
  }

  /** The dictionary after one more loan: the borrower's row is bumped in
      place, or appended if the borrower is new. */
  function AddToRows(rows: seq<AggregatedLoan>, loan: Loan): seq<AggregatedLoan> {
    var k := IndexOfName(rows, loan.name);
    var row := Bump(Lookup(rows, loan.name), loan);
    if k == |rows| then rows + [row] else rows[k := row]
  }

  /** Only the loan's borrower's entry changes, and it is bumped. */
  lemma AddToRowsLookup(rows: seq<AggregatedLoan>, loan: Loan, name: string)
    ensures Lookup(AddToRows(rows, loan), name)
         == if name == loan.name then Some(Bump(Lookup(rows, name), loan)) else Lookup(rows, name)
  {
    var k := IndexOfName(rows, loan.name);
    var row := Bump(Lookup(rows, loan.name), loan);
    if k == |rows| {
      IndexOfNameAppend(rows, row, name);
    } else {
      IndexOfNameUpdate(rows, k, row, name);
    }
  }

  /** A new borrower's name is appended; the order of the others is kept. */
  lemma AddToRowsNames(rows: seq<AggregatedLoan>, loan: Loan)
    ensures Names(AddToRows(rows, loan))
         == if loan.name in Names(rows) then Names(rows) else Names(rows) + [loan.name]
  {
    var r := AddToRows(rows, loan);
    var k := IndexOfName(rows, loan.name);
    if k == |rows| {
      assert Lookup(rows, loan.name) == None;
      assert Names(r) == Names(rows) + [loan.name];
    } else {
      assert Names(rows)[k] == loan.name;
      assert Names(r) == Names(rows);
    }
  }

  /** The sums grow by exactly the loan. */
  lemma AddToRowsSums(rows: seq<AggregatedLoan>, loan: Loan)
    ensures Sum(AddToRows(rows, loan), TotalOf) == Sum(rows, TotalOf) + loan.amount
    ensures Sum(AddToRows(rows, loan), CountOf) == Sum(rows, CountOf) + 1.0
  {
    var k := IndexOfName(rows, loan.name);
    var row := Bump(Lookup(rows, loan.name), loan);
    if k == |rows| {
      assert (rows + [row])[..|rows|] == rows;
    } else {
      SumUpdate(rows, k, row, TotalOf);
      SumUpdate(rows, k, row, CountOf);
    }
  }

  /** Appending a row for a new name leaves every other name where it was. */
  lemma {:induction false} IndexOfNameAppend(rows: seq<AggregatedLoan>, row: AggregatedLoan, name: string)
    requires IndexOfName(rows, row.name) == |rows|
    ensures IndexOfName(rows + [row], name)
         == if IndexOfName(rows, name) == |rows| && name != row.name then |rows| + 1 else IndexOfName(rows, name)
    decreases |rows|
  {
    if |rows| > 0 {
      assert (rows + [row])[1..] == rows[1..] + [row];
      if rows[0].name != name {
        IndexOfNameAppend(rows[1..], row, name);
      }
    }
  }

  lemma {:induction false} IndexOfNameUpdate(rows: seq<AggregatedLoan>, k: nat, row: AggregatedLoan, name: string)
    requires k < |rows| && rows[k].name == row.name
    ensures IndexOfName(rows[k := row], name) == IndexOfName(rows, name)
    decreases |rows|
  {
    if k > 0 && rows[0].name != name {
      assert rows[k := row][1..] == rows[1..][k - 1 := row];
      IndexOfNameUpdate(rows[1..], k - 1, row, name);
    }
  }

  /** The rows the dictionary holds after the loop (App.tsx:134-146). */
  function Aggregate(loans: seq<Loan>): seq<AggregatedLoan> {
    if |loans| == 0 then [] else AddToRows(Aggregate(loans[..|loans| - 1]), loans[|loans| - 1])
  }

  /** Conservation: the row totals add up to the loan amounts and the row
      counts to the number of loans. */
  lemma {:induction false} AggregateConserves(loans: seq<Loan>)
    ensures Sum(Aggregate(loans), TotalOf) == Sum(loans, AmountOf)
    ensures Sum(Aggregate(loans), CountOf) == |loans| as real
  {
    if |loans| > 0 {
      var front, last := loans[..|loans| - 1], loans[|loans| - 1];
      AggregateConserves(front);
      AddToRowsSums(Aggregate(front), last);
    }
  }

  /** The row that tallying `made` (the loans of borrower `name`) yields:
      none for no loans, otherwise their total and their number. */
  function Tallied(made: seq<Loan>, name: string): Option<AggregatedLoan> {
    if made == [] then None else Some(AggregatedLoan(name, Sum(made, AmountOf), |made|))
  }

  /** The row of a borrower holds the sum of the amounts and the number of
      that borrower's loans; a name nobody borrowed under has no row. */
  lemma {:induction false} AggregateLookup(loans: seq<Loan>, name: string)
    ensures Lookup(Aggregate(loans), name) == Tallied(WithName(loans, name), name)
  {
    if |loans| > 0 {
      var front, last := loans[..|loans| - 1], loans[|loans| - 1];
      AggregateLookup(front, name);
      assert Aggregate(loans) == AddToRows(Aggregate(front), last);
      assert WithName(loans, name) == WithName(front, name) + (if last.name == name then [last] else []);
      TalliedStep(Aggregate(front), WithName(front, name), last, name);
    }
  }

  /** One more loan updates the tally of its own borrower only. */
  lemma TalliedStep(rows: seq<AggregatedLoan>, made: seq<Loan>, loan: Loan, name: string)
    requires Lookup(rows, name) == Tallied(made, name)
    ensures Lookup(AddToRows(rows, loan), name) == Tallied(made + (if loan.name == name then [loan] else []), name)
  {
    AddToRowsLookup(rows, loan, name);
    if loan.name == name {
      var grown := made + [loan];
      assert grown[..|made|] == made;
      assert Sum(grown, AmountOf) == Sum(made, AmountOf) + AmountOf(loan);
      assert Tallied(grown, name) == Some(AggregatedLoan(name, Sum(made, AmountOf) + loan.amount, |made| + 1));
    } else {
      assert made + [] == made;
    }
  }

  lemma {:induction false} AggregateDistinct(loans: seq<Loan>)
    ensures Distinct(Names(Aggregate(loans)))
  {
    if |loans| > 0 {
      var front := loans[..|loans| - 1];
      AggregateDistinct(front);
      AddToRowsNames(Aggregate(front), loans[|loans| - 1]);
    }
  }

  /** Exactly one row per distinct borrower name. */
  lemma AggregateNames(loans: seq<Loan>)
    ensures Distinct(Names(Aggregate(loans)))
    ensures forall name :: name in Names(Aggregate(loans)) <==> exists i :: 0 <= i < |loans| && loans[i].name == name
  {
    AggregateDistinct(loans);
    forall name ensures name in Names(Aggregate(loans)) <==> exists i :: 0 <= i < |loans| && loans[i].name == name {
      AggregateLookup(loans, name);
      if exists i :: 0 <= i < |loans| && loans[i].name == name {
        var i :| 0 <= i < |loans| && loans[i].name == name;
        assert loans[i] in WithName(loans, name);
      }
    }
  }

  // ---------------------------------------------------------------------------
  // The loop as the source runs it.

  /** The value the dictionary holds per borrower. */
  datatype Tally = Tally(totalAmount: real, loanCount: nat)

  /** `Object.keys(aggregation).map(name => ({ name, ...aggregation[name] }))`. */
  function RowsOf(keys: seq<string>, table: map<string, Tally>): (rows: seq<AggregatedLoan>)
    requires forall name :: name in keys ==> name in table
    ensures Names(rows) == keys
  {
    seq(|keys|, i requires 0 <= i < |keys| =>
      AggregatedLoan(keys[i], table[keys[i]].totalAmount, table[keys[i]].loanCount))
  }

  /** Tallies the loans into a dictionary and reads it out: the rows are
      those of Aggregate. */
  method AggregateLoans(loans: seq<Loan>) returns (rows: seq<AggregatedLoan>)
    ensures rows == Aggregate(loans)
  {
    var keys: seq<string> := [];
    var table: map<string, Tally> := map[];
    for i := 0 to |loans|
      invariant forall name :: name in keys <==> name in table
      invariant Distinct(keys)
      invariant RowsOf(keys, table) == Aggregate(loans[..i])
    {
      keys, table := TallyLoan(keys, table, loans[i]);
      assert loans[..i + 1][..i] == loans[..i];
    }
    assert loans[..|loans|] == loans;
    rows := RowsOf(keys, table);
  }

  /** The body of the `forEach` callback: start a missing entry at zero,
      then add the loan's amount and count it. `keys` is the dictionary's
      key order. */
  method TallyLoan(keys: seq<string>, table: map<string, Tally>, loan: Loan)
    returns (keys': seq<string>, table': map<string, Tally>)
    requires forall name :: name in keys <==> name in table
    requires Distinct(keys)
    ensures forall name :: name in keys' <==> name in table'
    ensures Distinct(keys')
    ensures RowsOf(keys', table') == AddToRows(RowsOf(keys, table), loan)
  {
    keys', table' := keys, table;
    if loan.name !in table' {
      table' := table'[loan.name := Tally(0.0, 0)];
      keys' := keys' + [loan.name];
    }
    table' := table'[loan.name := Tally(table'[loan.name].totalAmount + loan.amount, table'[loan.name].loanCount + 1)];
    if loan.name in table {
      TallyExisting(keys, table, loan);
    } else {
      TallyNew(keys, table, table', loan);
    }
  }

  /** The dictionary update of a loop iteration for a borrower already in
      the dictionary is AddToRows. */
  lemma TallyExisting(keys: seq<string>, table0: map<string, Tally>, loan: Loan)
    requires forall name :: name in keys <==> name in table0
    requires Distinct(keys) && loan.name in table0
    ensures var table := table0[loan.name := Tally(table0[loan.name].totalAmount + loan.amount, table0[loan.name].loanCount + 1)];
      RowsOf(keys, table) == AddToRows(RowsOf(keys, table0), loan)
  {
    var table := table0[loan.name := Tally(table0[loan.name].totalAmount + loan.amount, table0[loan.name].loanCount + 1)];
    var before := RowsOf(keys, table0);
    var j :| 0 <= j < |keys| && keys[j] == loan.name;
    assert Names(before)[j] == loan.name;
    BumpExisting(before, j, loan);
    var r := before[j := Bump(Some(before[j]), loan)];
    var rows := RowsOf(keys, table);
    assert rows[j] == r[j];
    forall i | 0 <= i < |keys| && i != j ensures rows[i] == r[i] {
      assert keys[i] != keys[j];
    }
    assert rows == r;
  }

  /** With distinct names, a loan for the borrower of row `j` bumps that
      row in place. */
  lemma BumpExisting(rows: seq<AggregatedLoan>, j: nat, loan: Loan)
    requires Distinct(Names(rows)) && j < |rows| && rows[j].name == loan.name
    ensures AddToRows(rows, loan) == rows[j := Bump(Some(rows[j]), loan)]
  {
    var k := IndexOfName(rows, loan.name);
    assert k <= j;
    assert Names(rows)[k] == Names(rows)[j];
    DistinctLookup(rows, j);
  }

  /** The dictionary update of a loop iteration for a new borrower is
      AddToRows. */
  lemma TallyNew(keys0: seq<string>, table0: map<string, Tally>, table: map<string, Tally>, loan: Loan)
    requires forall name :: name in keys0 <==> name in table0
    requires forall name :: name in keys0 + [loan.name] <==> name in table
    requires loan.name !in table0
    requires forall name :: name in keys0 ==> table[name] == table0[name]
    requires table[loan.name] == Tally(0.0 + loan.amount, 0 + 1)
    ensures RowsOf(keys0 + [loan.name], table) == AddToRows(RowsOf(keys0, table0), loan)
  {
    var before := RowsOf(keys0, table0);
    var k := IndexOfName(before, loan.name);
    assert loan.name !in Names(before);
    assert k == |before|;
    var r := before + [Bump(None, loan)];
    assert AddToRows(before, loan) == r;
    var keys := keys0 + [loan.name];
    var rows := RowsOf(keys, table);
    forall i | 0 <= i < |keys| ensures rows[i] == r[i] {
      if i < |keys0| {
        assert keys[i] == keys0[i];
      }
    }
  }

  /** With distinct names, each row is what looking up its name finds. */
  lemma DistinctLookup(rows: seq<AggregatedLoan>, i: nat)
    requires Distinct(Names(rows)) && i < |rows|
    ensures Lookup(rows, rows[i].name) == Some(rows[i])
  {
    var k := IndexOfName(rows, rows[i].name);
    assert k <= i;
    assert Names(rows)[k] == Names(rows)[i];
  }

  // ---------------------------------------------------------------------------
  // Sorting the rows (App.tsx:148-155, 186-193).

  /** `sortDirection === SortDirection.ASC ? 1 : -1`. */
  function DirectionModifier(direction: SortDirection): real {
    if direction == Asc then 1.0 else -1.0
  }

  /** The comparator handed to `sort`. `lc` stands for `localeCompare`. */
  function CompareRows(cfg: SortConfig, lc: (string, string) -> real, a: AggregatedLoan, b: AggregatedLoan): real {
    (if cfg.field == ByName then lc(a.name, b.name) else a.totalAmount - b.totalAmount)
      * DirectionModifier(cfg.direction)
  }

  /** The modifier negates the comparison for descending order. */
  lemma CompareRowsDirection(cfg: SortConfig, lc: (string, string) -> real, a: AggregatedLoan, b: AggregatedLoan)
    ensures var base := if cfg.field == ByName then lc(a.name, b.name) else a.totalAmount - b.totalAmount;
      CompareRows(cfg, lc, a, b) == if cfg.direction == Asc then base else -base
  {
  }

  function RowComparator(cfg: SortConfig, lc: (string, string) -> real): (AggregatedLoan, AggregatedLoan) -> real {
    (a, b) => CompareRows(cfg, lc, a, b)
  }

  /** The rows after `aggregatedArray.sort(...)`. */
  function SortRows(rows: seq<AggregatedLoan>, cfg: SortConfig, lc: (string, string) -> real): seq<AggregatedLoan> {
    InsertionSort(rows, RowComparator(cfg, lc))
  }

  /** Comparing by amount is always consistent; comparing by name is when
      `localeCompare` is; negating a consistent comparator keeps it so. */
  lemma RowComparatorValid(cfg: SortConfig, lc: (string, string) -> real)
    requires cfg.field == ByTotalAmount || ValidComparator(lc)
    ensures ValidComparator(RowComparator(cfg, lc))
  {
    var cmp := RowComparator(cfg, lc);
    forall a, b ensures FlipsAt(cmp, a, b) {
      assert cmp(a, b) == CompareRows(cfg, lc, a, b) && cmp(b, a) == CompareRows(cfg, lc, b, a);
      CompareRowsDirection(cfg, lc, a, b);
      CompareRowsDirection(cfg, lc, b, a);
      if cfg.field == ByName {
        Flip(lc, a.name, b.name);
        Flip(lc, b.name, a.name);
      }
    }
    forall a, b, c ensures TransitiveAt(cmp, a, b, c) {
      assert cmp(a, b) == CompareRows(cfg, lc, a, b) && cmp(b, c) == CompareRows(cfg, lc, b, c);
      assert cmp(a, c) == CompareRows(cfg, lc, a, c);
      CompareRowsDirection(cfg, lc, a, b);
      CompareRowsDirection(cfg, lc, b, c);
      CompareRowsDirection(cfg, lc, a, c);
      if cfg.field == ByName {
        if cfg.direction == Asc {
          if lc(a.name, b.name) <= 0.0 && lc(b.name, c.name) <= 0.0 {
            Transitive(lc, a.name, b.name, c.name);
          }
        } else {
          if lc(a.name, b.name) >= 0.0 && lc(b.name, c.name) >= 0.0 {
            Flip(lc, a.name, b.name);
            Flip(lc, b.name, c.name);
            Transitive(lc, c.name, b.name, a.name);
            Flip(lc, c.name, a.name);
            Flip(lc, a.name, c.name);
          }
        }
      }
    }
  }

  /** A reordering of rows with distinct names has distinct names. */
  lemma NamesDistinctPermutation(rows: seq<AggregatedLoan>, other: seq<AggregatedLoan>)
    requires Distinct(Names(rows)) && multiset(rows) == multiset(other)
    ensures Distinct(Names(other))
  {
    assert Distinct(rows) by {
      forall i, j | 0 <= i < j < |rows| ensures rows[i] != rows[j] {
        assert Names(rows)[i] != Names(rows)[j];
      }
    }
    DistinctPermutation(rows, other);
    forall i, j | 0 <= i < j < |other| ensures Names(other)[i] != Names(other)[j] {
      assert other[i] in multiset(rows) && other[j] in multiset(rows);
      var p :| 0 <= p < |rows| && rows[p] == other[i];
      var q :| 0 <= q < |rows| && rows[q] == other[j];
      if p < q {
        assert Names(rows)[p] != Names(rows)[q];
      } else {
        assert Names(rows)[q] != Names(rows)[p];
      }
    }
  }

  /** Sorting only reorders the rows, so it keeps the footer sums and the
      names stay distinct. */
  lemma SortRowsPermutation(rows: seq<AggregatedLoan>, cfg: SortConfig, lc: (string, string) -> real)
    ensures multiset(SortRows(rows, cfg, lc)) == multiset(rows)
    ensures Sum(SortRows(rows, cfg, lc), TotalOf) == Sum(rows, TotalOf)
    ensures Sum(SortRows(rows, cfg, lc), CountOf) == Sum(rows, CountOf)
    ensures Distinct(Names(rows)) ==> Distinct(Names(SortRows(rows, cfg, lc)))
  {
    InsertionSortPermutation(rows, RowComparator(cfg, lc));
    SumPermutation(SortRows(rows, cfg, lc), rows, TotalOf);
    SumPermutation(SortRows(rows, cfg, lc), rows, CountOf);
    if Distinct(Names(rows)) {
      NamesDistinctPermutation(rows, SortRows(rows, cfg, lc));
    }
  }

  /** Sorting rows that are already sorted under the same configuration
      leaves them as they are, so sorting twice is sorting once. */
  lemma SortRowsTwice(rows: seq<AggregatedLoan>, cfg: SortConfig, lc: (string, string) -> real)
    requires cfg.field == ByTotalAmount || ValidComparator(lc)
    ensures SortRows(SortRows(rows, cfg, lc), cfg, lc) == SortRows(rows, cfg, lc)
  {
    RowComparatorValid(cfg, lc);
    InsertionSortSorted(rows, RowComparator(cfg, lc));
    InsertionSortOfSorted(SortRows(rows, cfg, lc), RowComparator(cfg, lc));
  }

  /** By amount, ascending puts totals in non-decreasing order and
      descending in non-increasing order. */
  lemma SortRowsByAmount(rows: seq<AggregatedLoan>, direction: SortDirection, lc: (string, string) -> real)
    ensures var sorted := SortRows(rows, SortConfig(ByTotalAmount, direction), lc);
      forall i, j :: 0 <= i < j < |sorted| ==>
        if direction == Asc then sorted[i].totalAmount <= sorted[j].totalAmount
        else sorted[i].totalAmount >= sorted[j].totalAmount
  {
    var cfg := SortConfig(ByTotalAmount, direction);
    RowComparatorValid(cfg, lc);
    InsertionSortSorted(rows, RowComparator(cfg, lc));
  }

  /** By name, consecutive rows respect `localeCompare`, with its sign
      negated for descending order. */
  lemma SortRowsByName(rows: seq<AggregatedLoan>, direction: SortDirection, lc: (string, string) -> real)
    requires ValidComparator(lc)
    ensures var sorted := SortRows(rows, SortConfig(ByName, direction), lc);
      forall i, j :: 0 <= i < j < |sorted| ==>
        if direction == Asc then lc(sorted[i].name, sorted[j].name) <= 0.0
        else lc(sorted[i].name, sorted[j].name) >= 0.0
  {
    var cfg := SortConfig(ByName, direction);
    RowComparatorValid(cfg, lc);
    InsertionSortSorted(rows, RowComparator(cfg, lc));
  }

  /** Rows that compare equal stay in the order the dictionary had them. */
  lemma SortRowsStable(rows: seq<AggregatedLoan>, cfg: SortConfig, lc: (string, string) -> real, row: AggregatedLoan)
    requires cfg.field == ByTotalAmount || ValidComparator(lc)
    ensures EquivalentTo(SortRows(rows, cfg, lc), RowComparator(cfg, lc), row) == EquivalentTo(rows, RowComparator(cfg, lc), row)
  {
    RowComparatorValid(cfg, lc);
    InsertionSortStable(rows, RowComparator(cfg, lc), row);
  }

  /** The memo body: tally, read out, sort in place. */
  method ReportRows(loans: seq<Loan>, cfg: SortConfig, lc: (string, string) -> real) returns (rows: seq<AggregatedLoan>)
    ensures rows == SortRows(Aggregate(loans), cfg, lc)
  {
    var unsorted := AggregateLoans(loans);
    var a := new AggregatedLoan[|unsorted|](i requires 0 <= i < |unsorted| => unsorted[i]);
    assert a[..] == unsorted;
    SortInPlace(a, RowComparator(cfg, lc));
    rows := a[..];
  }
}
