/** The loan history of components/LoanList.tsx: a copy of the loans sorted
    newest first by timestamp, or a placeholder when there are none. The same
    order is used for a borrower's history in the all-time report. */
module LoanList {
  import opened Types
  import opened StableSort

  /** `(a, b) => b.date.getTime() - a.date.getTime()`. */
  function CompareNewestFirst(a: Loan, b: Loan): real {
    (b.date.time - a.date.time) as real
  }

  /** The loans after the sort, newest first. */
  function NewestFirst(loans: seq<Loan>): seq<Loan> {
    InsertionSort(loans, CompareNewestFirst)
  }

  /** The loans made at instant `time`, in their order. */
  function AtTime(loans: seq<Loan>, time: int): seq<Loan> {
    if |loans| == 0 then []
    else AtTime(loans[..|loans| - 1], time) + (if loans[|loans| - 1].date.time == time then [loans[|loans| - 1]] else [])
  }

  lemma NewestFirstValid()
    ensures ValidComparator(CompareNewestFirst)
  {
    forall a, b ensures FlipsAt(CompareNewestFirst, a, b) {
    }
    forall a, b, c ensures TransitiveAt(CompareNewestFirst, a, b, c) {
    }
  }

  /** The displayed list holds the same loans, newest first. */
  lemma NewestFirstProperties(loans: seq<Loan>)
    ensures multiset(NewestFirst(loans)) == multiset(loans)
    ensures forall i, j :: 0 <= i < j < |NewestFirst(loans)| ==> NewestFirst(loans)[i].date.time >= NewestFirst(loans)[j].date.time
  {
    InsertionSortPermutation(loans, CompareNewestFirst);
    NewestFirstValid();
    InsertionSortSorted(loans, CompareNewestFirst);
  }

  /** The loans comparing equal to `x` are those made at the same instant. */
  lemma {:induction false} AtTimeIsEquivalent(loans: seq<Loan>, x: Loan)
    ensures EquivalentTo(loans, CompareNewestFirst, x) == AtTime(loans, x.date.time)
  {
    if |loans| > 0 {
      AtTimeIsEquivalent(loans[..|loans| - 1], x);
    }
  }

  /** Loans with equal timestamps keep their input order. */
  lemma NewestFirstStable(loans: seq<Loan>, time: int)
    ensures AtTime(NewestFirst(loans), time) == AtTime(loans, time)
  {
    var x := Loan("", "", 0.0, "", LoanDate(time, 0, 1));
    NewestFirstValid();
    InsertionSortStable(loans, CompareNewestFirst, x);
    AtTimeIsEquivalent(loans, x);
    AtTimeIsEquivalent(NewestFirst(loans), x);
  }

  /** `[...loans].sort(...)`: the sort runs on a fresh copy and the input
      array keeps its order. */
  method CopyThenSort(loans: array<Loan>) returns (sorted: array<Loan>)
    ensures fresh(sorted)
    ensures sorted[..] == NewestFirst(loans[..])
    ensures loans[..] == old(loans[..])
  {
    sorted := new Loan[loans.Length](i requires 0 <= i < loans.Length reads loans => loans[i]);
    assert sorted[..] == loans[..];
    SortInPlace(sorted, CompareNewestFirst);
  }

  /** What the history panel shows. */
  datatype ListView = NoLoansPlaceholder | Entries(loans: seq<Loan>)

  /** The placeholder stands in for the entries exactly when there are no
      loans; otherwise every loan is shown once, newest first. */
  function LoanListView(loans: seq<Loan>): (view: ListView)
    ensures view.NoLoansPlaceholder? <==> loans == []
    ensures view.Entries? ==> multiset(view.loans) == multiset(loans)
    ensures view.Entries? ==> view.loans == NewestFirst(loans)
  {
    var sorted := NewestFirst(loans);
    NewestFirstProperties(loans);
    if |sorted| == 0 then NoLoansPlaceholder else Entries(sorted)
  }
}
