/** `Array.prototype.sort` with a comparator: a stable sort that puts `a`
    after `b` exactly when the comparator says `cmp(a, b) > 0`. It is
    specified by insertion sort, which is stable; for a consistent comparator
    every stable sort gives the same order. */
module StableSort {

  /** The sign of `cmp` flips when `a` and `b` are swapped. */
  ghost predicate FlipsAt<T>(cmp: (T, T) -> real, a: T, b: T) {
    cmp(a, b) > 0.0 <==> cmp(b, a) < 0.0
  }

  /** "Not after" is transitive through `b`. */
  ghost predicate TransitiveAt<T>(cmp: (T, T) -> real, a: T, b: T, c: T) {
    cmp(a, b) <= 0.0 && cmp(b, c) <= 0.0 ==> cmp(a, c) <= 0.0
  }

  /** The comparator is consistent: its sign flips when its arguments are
      swapped, and "not after" is transitive (a total preorder). The
      quantifiers fire only through the lemmas Flip and Transitive. */
  ghost predicate ValidComparator<T(!new)>(cmp: (T, T) -> real) {
    && (forall a, b {:trigger FlipsAt(cmp, a, b)} :: FlipsAt(cmp, a, b))
    && (forall a, b, c {:trigger TransitiveAt(cmp, a, b, c)} :: TransitiveAt(cmp, a, b, c))
  }

  /** Every element is "not after" every later element. */
  ghost predicate SortedBy<T>(s: seq<T>, cmp: (T, T) -> real) {
    forall i, j :: 0 <= i < j < |s| ==> cmp(s[i], s[j]) <= 0.0
  }

  /** Places `x` behind the last element of `t` that is not after it. */
  function Insert<T>(t: seq<T>, x: T, cmp: (T, T) -> real): (r: seq<T>)
    ensures |r| == |t| + 1
  {
    if |t| == 0 then [x]
    else if cmp(t[|t| - 1], x) > 0.0 then Insert(t[..|t| - 1], x, cmp) + [t[|t| - 1]]
    else t + [x]
  }

  /** The result of sorting `s` with `cmp`. */
  function InsertionSort<T>(s: seq<T>, cmp: (T, T) -> real): (r: seq<T>)
    ensures |r| == |s|
  {
    if |s| == 0 then [] else Insert(InsertionSort(s[..|s| - 1], cmp), s[|s| - 1], cmp)
  }

  /** Insert puts `x` at some position `k`: everything before it is not after
      the element just before `x`, everything behind it is after `x`. */
  lemma {:induction false} InsertShape<T>(t: seq<T>, x: T, cmp: (T, T) -> real) returns (k: nat)
    ensures k <= |t| && Insert(t, x, cmp) == t[..k] + [x] + t[k..]
    ensures k > 0 ==> cmp(t[k - 1], x) <= 0.0
    ensures forall j :: k <= j < |t| ==> cmp(t[j], x) > 0.0
    decreases |t|
  {
    if |t| == 0 {
      k := 0;
    } else if cmp(t[|t| - 1], x) > 0.0 {
      var front := t[..|t| - 1];
      assert Insert(t, x, cmp) == Insert(front, x, cmp) + [t[|t| - 1]];
      k := InsertShape(front, x, cmp);
      assert front[..k] == t[..k];
      assert front[k..] + [t[|t| - 1]] == t[k..];
      assert forall j :: k <= j < |t| - 1 ==> t[j] == front[j];
    } else {
      k := |t|;
    }
  }

  /** Inserting adds exactly the one new element. */
  lemma {:induction false} InsertPermutation<T>(t: seq<T>, x: T, cmp: (T, T) -> real)
    ensures multiset(Insert(t, x, cmp)) == multiset(t) + multiset{x}
    decreases |t|
  {
    if |t| > 0 && cmp(t[|t| - 1], x) > 0.0 {
      var front, last := t[..|t| - 1], t[|t| - 1];
      InsertPermutation(front, x, cmp);
      assert t == front + [last];
      assert Insert(t, x, cmp) == Insert(front, x, cmp) + [last];
    }
  }

  /** Sorting only reorders: the result is a permutation of the input. */
  lemma {:induction false} InsertionSortPermutation<T>(s: seq<T>, cmp: (T, T) -> real)
    ensures multiset(InsertionSort(s, cmp)) == multiset(s)
  {
    if |s| > 0 {
      var front, last := s[..|s| - 1], s[|s| - 1];
      var sortedFront := InsertionSort(front, cmp);
      calc {
        multiset(InsertionSort(s, cmp));
        multiset(Insert(sortedFront, last, cmp));
        { InsertPermutation(sortedFront, last, cmp); }
        multiset(sortedFront) + multiset{last};
        { InsertionSortPermutation(front, cmp); }
        multiset(front) + multiset{last};
        { assert s == front + [last]; }
        multiset(s);
      }
    }
  }

  lemma InsertSorted<T(!new)>(t: seq<T>, x: T, cmp: (T, T) -> real)
    requires ValidComparator(cmp) && SortedBy(t, cmp)
    ensures SortedBy(Insert(t, x, cmp), cmp)
  {
    var k := InsertShape(t, x, cmp);
    forall i | 0 <= i < k ensures cmp(t[i], x) <= 0.0 {
      if i < k - 1 {
        Transitive(cmp, t[i], t[k - 1], x);
      }
    }
    forall j | k <= j < |t| ensures cmp(x, t[j]) <= 0.0 {
      Flip(cmp, t[j], x);
    }
    SortedAround(t, k, x, cmp);
  }

  /** Putting `x` into a sorted sequence between the elements not after it
      and the elements not before it keeps the sequence sorted. */
  lemma SortedAround<T>(t: seq<T>, k: nat, x: T, cmp: (T, T) -> real)
    requires k <= |t| && SortedBy(t, cmp)
    requires forall i :: 0 <= i < k ==> cmp(t[i], x) <= 0.0
    requires forall j :: k <= j < |t| ==> cmp(x, t[j]) <= 0.0
    ensures SortedBy(t[..k] + [x] + t[k..], cmp)
  {
    var r := t[..k] + [x] + t[k..];
    forall i, j | 0 <= i < j < |r| ensures cmp(r[i], r[j]) <= 0.0 {
      var i' := if i < k then i else i - 1;
      var j' := if j <= k then j else j - 1;
      if i == k {
        assert r[j] == t[j'];
      } else if j == k {
        assert r[i] == t[i'];
      } else {
        assert r[i] == t[i'] && r[j] == t[j'];
      }
    }
  }

  lemma Transitive<T(!new)>(cmp: (T, T) -> real, a: T, b: T, c: T)
    requires ValidComparator(cmp) && cmp(a, b) <= 0.0 && cmp(b, c) <= 0.0
    ensures cmp(a, c) <= 0.0
  {
    assert TransitiveAt(cmp, a, b, c);
  }

  lemma Flip<T(!new)>(cmp: (T, T) -> real, a: T, b: T)
    requires ValidComparator(cmp)
    ensures cmp(a, b) > 0.0 <==> cmp(b, a) < 0.0
    ensures cmp(a, b) == 0.0 ==> cmp(b, a) == 0.0
  {
    assert FlipsAt(cmp, a, b) && FlipsAt(cmp, b, a);
  }

  /** With a consistent comparator the result is in order. */
  lemma {:induction false} InsertionSortSorted<T(!new)>(s: seq<T>, cmp: (T, T) -> real)
    requires ValidComparator(cmp)
    ensures SortedBy(InsertionSort(s, cmp), cmp)
  {
    if |s| > 0 {
      InsertionSortSorted(s[..|s| - 1], cmp);
      InsertSorted(InsertionSort(s[..|s| - 1], cmp), s[|s| - 1], cmp);
    }
  }

  /** Sorting a sequence that is already in order changes nothing: each
      element is appended behind its predecessor, which is not after it. */
  lemma {:induction false} InsertionSortOfSorted<T>(s: seq<T>, cmp: (T, T) -> real)
    requires SortedBy(s, cmp)
    ensures InsertionSort(s, cmp) == s
  {
    if |s| > 0 {
      var front, last := s[..|s| - 1], s[|s| - 1];
      assert SortedBy(front, cmp) by {
        forall i, j | 0 <= i < j < |front| ensures cmp(front[i], front[j]) <= 0.0 {
          assert front[i] == s[i] && front[j] == s[j];
        }
      }
      InsertionSortOfSorted(front, cmp);
      if |front| > 0 {
        assert front[|front| - 1] == s[|s| - 2];
        assert cmp(s[|s| - 2], last) <= 0.0;
      }
      assert front + [last] == s;
    }
  }

  // ---------------------------------------------------------------------------
  // Stability.

  /** The elements of `s` that compare equal to `x`, in their order in `s`. */
  function EquivalentTo<T>(s: seq<T>, cmp: (T, T) -> real, x: T): seq<T> {
    if |s| == 0 then []
    else EquivalentTo(s[..|s| - 1], cmp, x) + (if cmp(s[|s| - 1], x) == 0.0 then [s[|s| - 1]] else [])
  }

  lemma {:induction false} EquivalentToAppend<T>(s: seq<T>, t: seq<T>, cmp: (T, T) -> real, x: T)
    ensures EquivalentTo(s + t, cmp, x) == EquivalentTo(s, cmp, x) + EquivalentTo(t, cmp, x)
    decreases |t|
  {
    if |t| == 0 {
      assert s + t == s;
    } else {
      var t' := t[..|t| - 1];
      assert (s + t)[..|s + t| - 1] == s + t';
      EquivalentToAppend(s, t', cmp, x);
    }
  }

  /** The elements equal to `x` in `u + [y] + w`, piece by piece. */
  lemma EquivalentToSplice<T>(u: seq<T>, y: T, w: seq<T>, cmp: (T, T) -> real, x: T)
    ensures EquivalentTo(u + [y] + w, cmp, x)
         == EquivalentTo(u, cmp, x) + (if cmp(y, x) == 0.0 then [y] else []) + EquivalentTo(w, cmp, x)
  {
    EquivalentToAppend(u + [y], w, cmp, x);
    assert (u + [y])[..|u|] == u;
  }

  /** Inserting `y` adds it to the elements equal to `x` at their end when
      it is equal to `x`, and otherwise leaves them as they were. */
  lemma InsertStable<T(!new)>(t: seq<T>, y: T, cmp: (T, T) -> real, x: T)
    requires ValidComparator(cmp)
    ensures EquivalentTo(Insert(t, y, cmp), cmp, x)
         == EquivalentTo(t, cmp, x) + (if cmp(y, x) == 0.0 then [y] else [])
  {
    var k := InsertShape(t, y, cmp);
    var u, w := t[..k], t[k..];
    assert t == u + w;
    EquivalentToAppend(u, w, cmp, x);
    EquivalentToSplice(u, y, w, cmp, x);
    if cmp(y, x) == 0.0 {
      NoneEquivalentBehind(w, y, cmp, x);
    }
  }

  /** Elements that are after `y` are not equal to anything equal to `y`. */
  lemma {:induction false} NoneEquivalentBehind<T(!new)>(u: seq<T>, y: T, cmp: (T, T) -> real, x: T)
    requires ValidComparator(cmp) && cmp(y, x) == 0.0
    requires forall j :: 0 <= j < |u| ==> cmp(u[j], y) > 0.0
    ensures EquivalentTo(u, cmp, x) == []
    decreases |u|
  {
    if |u| > 0 {
      var e := u[|u| - 1];
      NoneEquivalentBehind(u[..|u| - 1], y, cmp, x);
      Flip(cmp, y, x);
      NotAfterThroughEqual(cmp, e, x, y);
    }
  }

  lemma NotAfterThroughEqual<T(!new)>(cmp: (T, T) -> real, e: T, x: T, y: T)
    requires ValidComparator(cmp) && cmp(x, y) == 0.0
    ensures cmp(e, x) == 0.0 ==> cmp(e, y) <= 0.0
  {
    if cmp(e, x) == 0.0 {
      Transitive(cmp, e, x, y);
    }
  }

  /** Elements that compare equal keep their relative order. */
  lemma {:induction false} InsertionSortStable<T(!new)>(s: seq<T>, cmp: (T, T) -> real, x: T)
    requires ValidComparator(cmp)
    ensures EquivalentTo(InsertionSort(s, cmp), cmp, x) == EquivalentTo(s, cmp, x)
  {
    if |s| > 0 {
      var front := s[..|s| - 1];
      InsertionSortStable(front, cmp, x);
      InsertStable(InsertionSort(front, cmp), s[|s| - 1], cmp, x);
    }
  }

  // ---------------------------------------------------------------------------
  // The sort as the source runs it: in place on an array.

  /** One more element of the input is one more insertion. */
  lemma InsertionSortPrefix<T>(s: seq<T>, i: nat, cmp: (T, T) -> real)
    requires i < |s|
    ensures InsertionSort(s[..i + 1], cmp) == Insert(InsertionSort(s[..i], cmp), s[i], cmp)
  {
    assert s[..i + 1][..i] == s[..i];
  }

  /** Insert puts `x` behind position `j` when everything from `j` on is
      after `x` and the element before `j` is not. */
  lemma {:induction false} InsertAt<T>(t: seq<T>, j: nat, x: T, cmp: (T, T) -> real)
    requires j <= |t| && (j == 0 || cmp(t[j - 1], x) <= 0.0)
    requires forall m :: j <= m < |t| ==> cmp(t[m], x) > 0.0
    ensures Insert(t, x, cmp) == t[..j] + [x] + t[j..]
    decreases |t|
  {
    if |t| > j {
      var front := t[..|t| - 1];
      InsertAt(front, j, x, cmp);
      assert front[..j] == t[..j];
      assert front[j..] + [t[|t| - 1]] == t[j..];
    }
  }

  method SortInPlace<T>(a: array<T>, cmp: (T, T) -> real)
    modifies a
    ensures a[..] == InsertionSort(old(a[..]), cmp)
  {
    ghost var input := a[..];
    var i := 0;
    while i < a.Length
      invariant 0 <= i <= a.Length
      invariant a[..i] == InsertionSort(input[..i], cmp)
      invariant forall m :: i <= m < a.Length ==> a[m] == input[m]
    {
      InsertionSortPrefix(input, i, cmp);
      InsertLast(a, i, cmp);
      i := i + 1;
    }
    assert a[..] == a[..a.Length];
    assert input[..a.Length] == input;
  }

  /** One pass of the outer loop: moves `a[i]` left past the elements of the
      prefix that are after it. */
  method InsertLast<T>(a: array<T>, i: nat, cmp: (T, T) -> real)
    requires i < a.Length
    modifies a
    ensures a[..i + 1] == Insert(old(a[..i]), old(a[i]), cmp)
    ensures forall m :: i < m < a.Length ==> a[m] == old(a[m])
  {
    var x := a[i];
    ghost var sorted := a[..i];
    var j := ShiftRight(a, i, x, cmp);
    a[j] := x;
    InsertAt(sorted, j, x, cmp);
    PlacedAt(a[..i + 1], sorted, j, x);
  }

  /** A sequence that agrees with `t` before `j`, holds `x` at `j` and `t`
      shifted by one after it is `t` with `x` inserted at `j`. */
  lemma PlacedAt<T>(r: seq<T>, t: seq<T>, j: nat, x: T)
    requires j <= |t| && |r| == |t| + 1
    requires forall m :: 0 <= m < j ==> r[m] == t[m]
    requires r[j] == x
    requires forall m :: j < m < |r| ==> r[m] == t[m - 1]
    ensures r == t[..j] + [x] + t[j..]
  {
  }

  /** The inner loop: shifts the elements of `a[..i]` that are after `x` one
      place right, overwriting `a[i]`, and returns the gap left for `x`. */
  method ShiftRight<T>(a: array<T>, i: nat, x: T, cmp: (T, T) -> real) returns (j: nat)
    requires i < a.Length
    modifies a
    ensures j <= i
    ensures forall m :: 0 <= m < j ==> a[m] == old(a[m])
    ensures forall m :: j < m <= i ==> a[m] == old(a[m - 1])
    ensures forall m :: i < m < a.Length ==> a[m] == old(a[m])
    ensures forall m :: j <= m < i ==> cmp(old(a[m]), x) > 0.0
    ensures j > 0 ==> cmp(old(a[j - 1]), x) <= 0.0
  {
    ghost var before := a[..];
    j := i;
    while j > 0 && cmp(a[j - 1], x) > 0.0
      invariant 0 <= j <= i
      invariant forall m :: 0 <= m < j ==> a[m] == before[m]
      invariant forall m :: j < m <= i ==> a[m] == before[m - 1]
      invariant forall m :: i < m < a.Length ==> a[m] == before[m]
      invariant forall m :: j <= m < i ==> cmp(before[m], x) > 0.0
    {
      a[j] := a[j - 1];
      j := j - 1;
    }
  }
}
