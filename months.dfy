/** The month index of the ledger (App.tsx): the `YYYY-MM` key of a loan,
    the distinct keys newest first, the parse of a selected key back into a
    (year, month) filter, and the rule that keeps the selected month valid. */
module MonthIndex {
  import opened Types
  import opened Text
  import opened Seqs
  import opened StableSort

  /** `(getMonth() + 1).toString().padStart(2, '0')`: two digits, the
      tens first (MonthTextPadded ties it to the padded decimal text). */
  function MonthText(m: Month): (r: string)
    ensures |r| == 2 && AllDigits(r) && DigitsValue(r) == m
  {
    var r := [DigitChar(m / 10), DigitChar(m % 10)];
    assert r[..1] == [r[0]] && r[..1][..0] == [];
    assert DigitsValue(r[..1]) == m / 10;
    assert DigitsValue(r) == (m / 10) * 10 + m % 10;
    r
  }

  /** The two digits are the month's decimal text padded with a zero. */
  lemma MonthTextPadded(m: Month)
    ensures MonthText(m) == PadStart(NatToDecimal(m), 2, '0')
  {
    var digits := NatToDecimal(m);
    if m < 10 {
      assert digits == [DigitChar(m)];
      assert PadStart(digits, 2, '0') == "0" + digits;
    } else {
      assert digits == NatToDecimal(1) + [DigitChar(m - 10)];
    }
  }

  /** `${year}-${month}` with the month zero-padded. */
  function MonthKey(year: nat, month: Month): (key: string)
    ensures |key| == |NatToDecimal(year)| + 3
    ensures key[..|NatToDecimal(year)|] == NatToDecimal(year)
    ensures key[|NatToDecimal(year)|] == '-'
    ensures var tail := key[|NatToDecimal(year)| + 1..];
      AllDigits(tail) && DigitsValue(tail) == month
  {
    var y, m := NatToDecimal(year), MonthText(month);
    assert (y + "-" + m)[|y| + 1..] == m;
    y + "-" + m
  }

  /** The key of the month a loan was made in. */
  function KeyOf(loan: Loan): string {
    MonthKey(loan.date.year, loan.date.month)
  }

  // ---------------------------------------------------------------------------
  // Parsing a selected key: `selectedMonth.split('-').map(Number)`.

  /** The year and month a key parses to; None stands for NaN or
      `undefined`, which no year or month compares equal to. */
  datatype MonthFilter = MonthFilter(year: Option<int>, month: Option<int>)

  /** Destructures the first two pieces of the split, each already passed
      through `Number`; a missing second piece is `undefined` (None here),
      which no loan's month equals. */
  function ParseMonthKey(key: string): (f: MonthFilter)
    ensures '-' !in key ==> f.month.None?
    ensures AllDigits(Split(key, '-')[0]) <==> f.year.Some?
  {
    var parts := Split(key, '-');
    assert '-' !in key ==> |parts| == 1 by {
      if '-' !in key { SplitWithoutSeparator(key, '-'); }
    }
    MonthFilter(ToNumber(parts[0]), if |parts| > 1 then ToNumber(parts[1]) else None)
  }

  /** The month filter of App.tsx:166-168. */
  predicate InMonth(loan: Loan, f: MonthFilter) {
    f.year == Some(loan.date.year as int) && f.month == Some(loan.date.month as int)
  }

  /** Splitting a zero-padded key on `-` recovers its year and month. */
  lemma MonthKeyRoundTrip(year: nat, month: Month)
    ensures ParseMonthKey(MonthKey(year, month)) == MonthFilter(Some(year), Some(month))
  {
    var y, m := NatToDecimal(year), MonthText(month);
    assert '-' !in y by {
      forall i | 0 <= i < |y| ensures y[i] != '-' {
        assert IsDigit(y[i]);
      }
    }
    assert '-' !in m by {
      forall i | 0 <= i < |m| ensures m[i] != '-' {
        assert IsDigit(m[i]);
      }
    }
    SplitAtFirst(y, '-', m);
    SplitWithoutSeparator(m, '-');
    DecimalRoundTrip(year);
  }

  /** Different months have different keys. */
  lemma MonthKeyInjective(y1: nat, m1: Month, y2: nat, m2: Month)
    requires MonthKey(y1, m1) == MonthKey(y2, m2)
    ensures y1 == y2 && m1 == m2
  {
    MonthKeyRoundTrip(y1, m1);
    MonthKeyRoundTrip(y2, m2);
  }

  /** Filtering by a parsed key selects exactly the loans whose key it is. */
  lemma InMonthOfKey(loan: Loan, key: string, year: nat, month: Month)
    requires key == MonthKey(year, month)
    ensures InMonth(loan, ParseMonthKey(key)) <==> KeyOf(loan) == key
  {
    MonthKeyRoundTrip(year, month);
    if KeyOf(loan) == key {
      MonthKeyInjective(loan.date.year, loan.date.month, year, month);
    }
  }

  // ---------------------------------------------------------------------------
  // `availableMonths`: the distinct keys, sorted, then reversed.

  /** Some loan was made in the month `key` names. */
  predicate HasKey(loans: seq<Loan>, key: string) {
    exists i :: 0 <= i < |loans| && KeyOf(loans[i]) == key
  }

  /** The key of every loan, in the order of the loans. */
  function MonthKeys(loans: seq<Loan>): (keys: seq<string>)
    ensures |keys| == |loans|
    ensures forall key :: key in keys <==> HasKey(loans, key)
  {
    var keys := seq(|loans|, i requires 0 <= i < |loans| => KeyOf(loans[i]));
    assert forall key :: key in keys ==> HasKey(loans, key) by {
      forall key | key in keys ensures HasKey(loans, key) {
        var i :| 0 <= i < |keys| && keys[i] == key;
        assert KeyOf(loans[i]) == key;
      }
    }
    assert forall key :: HasKey(loans, key) ==> key in keys by {
      forall key | HasKey(loans, key) ensures key in keys {
        var i :| 0 <= i < |loans| && KeyOf(loans[i]) == key;
        assert keys[i] == key;
      }
    }
    keys
  }

  /** `Array.from(monthSet).sort().reverse()`. */
  function MonthsOf(loans: seq<Loan>): seq<string> {
    Reversed(InsertionSort(Dedup(MonthKeys(loans)), CompareStrings))
  }

  /** The default string order is a consistent comparator. */
  lemma StringOrderValid()
    ensures ValidComparator(CompareStrings)
  {
    forall a: string, b: string ensures FlipsAt(CompareStrings, a, b) {
      StrLessTotal(a, b);
      StrLessIrreflexive(a);
      if StrLess(a, b) { StrLessAsymmetric(a, b); }
      if StrLess(b, a) { StrLessAsymmetric(b, a); }
    }
    forall a: string, b: string, c: string ensures TransitiveAt(CompareStrings, a, b, c) {
      if StrLess(a, b) && StrLess(b, c) { StrLessTransitive(a, b, c); }
    }
  }

  /** Sorting distinct strings and reversing them puts them in strictly
      descending order, without losing or repeating any. */
  lemma DescendingOrder(keys: seq<string>)
    requires Distinct(keys)
    ensures var months := Reversed(InsertionSort(keys, CompareStrings));
      && Distinct(months)
      && (forall i, j :: 0 <= i < j < |months| ==> StrLess(months[j], months[i]))
      && (forall key :: key in months <==> key in keys)
  {
    var sorted := InsertionSort(keys, CompareStrings);
    var months := Reversed(sorted);
    InsertionSortPermutation(keys, CompareStrings);
    DistinctPermutation(keys, sorted);
    StringOrderValid();
    InsertionSortSorted(keys, CompareStrings);
    ReversedDescending(sorted);
    ReversedMembers(sorted);
    forall key ensures key in sorted <==> key in keys {
      assert key in sorted <==> key in multiset(sorted);
    }
  }

  /** A sorted list of distinct strings, reversed, is strictly descending. */
  lemma ReversedDescending(sorted: seq<string>)
    requires SortedBy(sorted, CompareStrings) && Distinct(sorted)
    ensures forall i, j :: 0 <= i < j < |sorted| ==> StrLess(Reversed(sorted)[j], Reversed(sorted)[i])
  {
    var months := Reversed(sorted);
    forall i, j | 0 <= i < j < |sorted| ensures StrLess(months[j], months[i]) {
      var i', j' := |sorted| - 1 - j, |sorted| - 1 - i;
      assert CompareStrings(sorted[i'], sorted[j']) <= 0.0;
    }
  }

  /** The month list has no duplicates, is in strictly descending string
      order, holds exactly the keys of the loans, and is empty exactly when
      there are no loans. */
  lemma MonthsOfProperties(loans: seq<Loan>)
    ensures Distinct(MonthsOf(loans))
    ensures forall i, j :: 0 <= i < j < |MonthsOf(loans)| ==> StrLess(MonthsOf(loans)[j], MonthsOf(loans)[i])
    ensures forall key :: key in MonthsOf(loans) <==> HasKey(loans, key)
    ensures MonthsOf(loans) == [] <==> loans == []
  {
    var keys := MonthKeys(loans);
    DescendingOrder(Dedup(keys));
    if loans != [] {
      assert keys[0] in Dedup(keys);
    }
  }

  /** Builds the month list as App.tsx:112-120 does: a set filled in one
      pass over the loans, copied out, sorted in place and reversed. */
  method AvailableMonths(loans: seq<Loan>) returns (months: seq<string>)
    ensures months == MonthsOf(loans)
  {
    ghost var keys := MonthKeys(loans);
    var seen: seq<string> := [];
    var i := 0;
    while i < |loans|
      invariant 0 <= i <= |loans|
      invariant seen == Dedup(keys[..i])
    {
      var key := KeyOf(loans[i]);
      assert keys[..i + 1][..i] == keys[..i];
      if key !in seen {
        seen := seen + [key];
      }
      i := i + 1;
    }
    assert keys[..i] == keys;
    var a := new string[|seen|](j requires 0 <= j < |seen| => seen[j]);
    assert a[..] == Dedup(keys);
    SortInPlace(a, CompareStrings);
    months := Reversed(a[..]);
  }

  // ---------------------------------------------------------------------------
  // The effect of App.tsx:123-129.

  /** The selected month after the reconcile effect has run. */
  function Reconciled(months: seq<string>, selected: string): (r: string)
    ensures |months| > 0 ==> r in months
    ensures |months| == 0 ==> r == ""
    ensures selected in months ==> r == selected
    ensures selected !in months && |months| > 0 ==> r == months[0]
  {
    if |months| > 0 && selected !in months then months[0]
    else if |months| == 0 then ""
    else selected
  }

  /** Running the effect a second time changes nothing. */
  lemma ReconciledIdempotent(months: seq<string>, selected: string)
    ensures Reconciled(months, Reconciled(months, selected)) == Reconciled(months, selected)
  {
  }
}
