# Loan ledger — a Dafny model

This project models the core of a small single-user loan ledger written in
React. Someone records the loans they make to borrowers, and the app keeps:

- the loans, which only grow;
- a sorted list of remembered descriptions that feeds an autocomplete;
- two per-borrower reports, all-time and for one selected month, each with
  its own sortable headers.

The model covers:

- **App.tsx.** The `Ledger` class holds the five pieces of state. Its
  handlers and the month-reconcile effect are methods. The memos are
  methods built like the source: the dictionary loop, the month set filled
  in a loop, and the in-place sort. Each memo is proved equal to a
  functional specification, and the specification's properties are lemmas.
- **components/LoanForm.tsx.** The `LoanForm` class holds the six form
  fields. It models validation, suggestion filtering, focus, suggestion
  click, the click-outside listener and submission.
- **components/ReportView.tsx.** It models:
  - the single expanded row (`RowExpansion`);
  - the footer totals;
  - the borrower history, filtered and sorted newest first;
  - the sort icon and `aria-sort`;
  - the placeholder row.
- **components/MonthlyReport.tsx.** It models `formatMonth`, the month
  selector, the empty-table message, and a footer that only appears when
  the table has rows. Its sort icon and `aria-sort` follow the same rules as
  the all-time report (MonthlyReport.tsx:25-40), so `ReportView.SortIconFor`
  and `ReportView.AriaSort` model both components.
- **components/LoanList.tsx.** It models the copy-then-sort newest first and
  the empty-list placeholder.

`Array.prototype.sort` with a comparator is modelled by one stable insertion
sort (`StableSort.InsertionSort`). `StableSort.SortInPlace` runs it in place
on an array and is proved equal to it. The lemmas prove three things about
the sort:

- it is a permutation of its input;
- it is ordered for a consistent comparator;
- it is stable.

Modules, in dependency order:

| module | file | role |
|---|---|---|
| `Types` | types.dfy | the records and enums of types.ts |
| `Text` | text.dfy | `trim`, ASCII `toLowerCase`, `includes`, default string order, decimal text, `padStart`, `split`, `Number`/`parseInt` on digits |
| `Seqs` | seqs.dfy | distinctness, reversal, a `Set`'s insertion order, sums (`reduce`) |
| `StableSort` | stable_sort.dfy | the comparator sort, functional and in place |
| `MonthIndex` | months.dfy | `YYYY-MM` keys, their parse, `availableMonths`, the reconcile rule |
| `Aggregation` | aggregation.dfy | the per-borrower dictionary loop and the row sort |
| `LoanList` | loan_list.dfy | the newest-first history |
| `ReportView` | report_view.dfy | the all-time report |
| `MonthlyReport` | monthly_report.dfy | the monthly report |
| `LoanForm` | loan_form.dfy | the entry form |
| `App` | app.dfy | the ledger state and its derivations |

## Model

| member | source | states |
|---|---|---|
| Text.TrimStart | App.tsx:69 | the result is a suffix of the input, every character cut off is whitespace, and it does not start with whitespace |
| Text.TrimEnd | App.tsx:69 | the result is a prefix of the input, every character cut off is whitespace, and it does not end with whitespace |
| Text.Trim | components/LoanForm.tsx:57 | the result is an infix of the input with no whitespace at either end, and everything cut off before and after it is whitespace; it is empty exactly when the input is all whitespace |
| Text.TrimOfTrimmed | components/LoanForm.tsx:66 | a string with no whitespace at its ends is its own trim |
| Text.TrimIdempotent | components/LoanForm.tsx:66 | trimming twice gives the same as trimming once |
| Text.ToLower | components/LoanForm.tsx:39 | an upper-case ASCII letter maps to its lower-case letter; every other character is unchanged |
| Text.LowerCase | components/LoanForm.tsx:39 | the result has the same length and lowers each character in place |
| Text.Contains | components/LoanForm.tsx:39 | reference definition of `includes`: the query occurs in the string at some position; LoanForm.Suggestions states its use |
| Text.StrLessIrreflexive | App.tsx:71 | no string sorts before itself under the default sort order |
| Text.StrLessTransitive | App.tsx:71 | the default sort order is transitive |
| Text.StrLessTotal | App.tsx:71 | of two different strings, one sorts before the other |
| Text.StrLessAsymmetric | App.tsx:71 | two strings never sort before each other |
| Text.StrLess | App.tsx:71 | reference definition of the default `sort()` order: the first differing character decides, and a proper prefix comes first; the four lemmas above state that it is a strict total order |
| Text.CompareStrings | App.tsx:119 | the comparison is negative exactly when the first string sorts first, and zero exactly when the strings are equal |
| Text.DigitChar | App.tsx:116 | the character is a decimal digit whose value is the number |
| Text.NatToDecimal | App.tsx:115-117 | `toString()` of a natural number is a non-empty string of digits with no leading zero, one digit long exactly below ten; with Text.DecimalRoundTrip this fixes the text |
| Text.DecimalRoundTrip | App.tsx:164 | reading back the decimal text of `n` gives `n` |
| Text.ToNumber | App.tsx:164 | `Number` gives the decimal value of a digit string (0 for the empty string) and NaN for anything else |
| Text.ParseIntPrefix | components/MonthlyReport.tsx:52 | `parseInt` gives a number exactly when the string starts with a digit |
| Text.DigitPrefixLength | components/MonthlyReport.tsx:52 | the length of the longest run of digits at the start |
| Text.DigitPrefixOfDigits | components/MonthlyReport.tsx:52 | the digit run of a digit string followed by a non-digit is the whole digit string |
| Text.PadStart | App.tsx:116 | the length is the larger of the width and the input length; the input is a suffix and only fill characters precede it |
| Text.Split | App.tsx:164 | there is at least one piece and no piece contains the separator |
| Text.SplitJoin | App.tsx:164 | joining the pieces with the separator gives the string back |
| Text.SplitWithoutSeparator | App.tsx:164 | a string without the separator splits into itself alone |
| Text.SplitAtFirst | App.tsx:164 | the first piece ends at the first separator |
| Seqs.Reversed | App.tsx:119 | element `i` of the result is element `n - 1 - i` of the input |
| Seqs.Dedup | App.tsx:113-118 | what a `Set` holds: no repetitions, exactly the values of the input, in their order in the input |
| Seqs.ReversedMembers | App.tsx:119 | reversing keeps the same values and keeps them distinct |
| Seqs.DistinctMultiplicity | App.tsx:119 | in a list without repetitions every value occurs at most once |
| Seqs.RepeatedMultiplicity | App.tsx:119 | a value at two positions occurs at least twice |
| Seqs.DistinctPermutation | App.tsx:119 | a permutation of a list without repetitions has none |
| Seqs.SubsequenceAppend | components/ReportView.tsx:102 | appending an element to a sequence keeps every subsequence one, with or without the element appended to it too |
| Seqs.Sum | components/ReportView.tsx:46-47 | reference definition of `reduce((acc, x) => acc + f(x), 0)`; the Sum lemmas below state its properties |
| Seqs.SumAppend | components/ReportView.tsx:46-47 | the `reduce` sum of a concatenation is the sum of the two sums |
| Seqs.SumUpdate | App.tsx:138-139 | replacing one element changes the sum by the difference |
| Seqs.SumPermutation | components/ReportView.tsx:46-47 | reordering a list does not change its sum |
| Seqs.RemoveLastPermutation | components/ReportView.tsx:46-47 | removing the same element from two permutations leaves two permutations |
| Seqs.SumWithout | components/ReportView.tsx:46-47 | the sum is one element plus the sum of the others |
| StableSort.Insert | App.tsx:148-155 | one insertion step of the sort lengthens the list by one (InsertShape and InsertPermutation say where and what) |
| StableSort.InsertionSort | App.tsx:148-155 | the sort keeps the length; its order, permutation and stability are the lemmas below |
| StableSort.InsertShape | App.tsx:148-155 | insertion puts `x` at some position `k` of the list: the element just before it is not after `x`, and every element behind it is after `x` |
| StableSort.InsertPermutation | App.tsx:148-155 | insertion adds exactly the one new element |
| StableSort.InsertionSortPermutation | App.tsx:148-155 | the sorted list is a permutation of the input |
| StableSort.InsertSorted | App.tsx:148-155 | with a consistent comparator, inserting into a sorted list keeps it sorted |
| StableSort.SortedAround | App.tsx:148-155 | placing an element between the elements not after it and those not before it keeps a list sorted |
| StableSort.Transitive | App.tsx:148-155 | for a consistent comparator, "not after" is transitive |
| StableSort.Flip | App.tsx:148-155 | for a consistent comparator, swapping the arguments flips the sign |
| StableSort.InsertionSortSorted | App.tsx:148-155 | with a consistent comparator, every element is not after any later element |
| StableSort.InsertionSortOfSorted | App.tsx:148-155 | sorting a sequence that is already in order leaves it unchanged |
| StableSort.EquivalentToAppend | App.tsx:148-155 | the elements equal to `x` in a concatenation are those of each part, in order |
| StableSort.EquivalentToSplice | App.tsx:148-155 | the same, for a list split around one element |
| StableSort.InsertStable | App.tsx:148-155 | insertion appends the new element to the elements equal to it and changes no other class of equal elements |
| StableSort.NoneEquivalentBehind | App.tsx:148-155 | elements after `y` are not equal to anything equal to `y` |
| StableSort.NotAfterThroughEqual | App.tsx:148-155 | an element equal to `x` is not after anything equal to `x` |
| StableSort.InsertionSortStable | App.tsx:148-155 | elements that compare equal keep their input order (stability) |
| StableSort.InsertionSortPrefix | App.tsx:148 | one more input element is one more insertion |
| StableSort.InsertAt | App.tsx:148 | the position the in-place pass finds is where insertion puts the element |
| StableSort.SortInPlace | App.tsx:148 | the array ends up holding the stable sort of its old contents |
| StableSort.InsertLast | App.tsx:148 | one outer pass inserts `a[i]` into the sorted prefix and leaves the rest of the array alone |
| StableSort.PlacedAt | App.tsx:148 | a list that matches `t` before `j`, holds `x` at `j` and holds `t` shifted by one after `j` is `t` with `x` inserted at `j` |
| StableSort.ShiftRight | App.tsx:148 | the inner loop shifts exactly the run of prefix elements after `x` one place right and returns the gap |
| MonthIndex.MonthText | App.tsx:116 | the month is two digits whose value is the month |
| MonthIndex.MonthTextPadded | App.tsx:116 | those two digits are `toString().padStart(2, '0')` of the month |
| MonthIndex.MonthKey | App.tsx:117 | the key is the year's decimal text, a dash, and two digits whose value is the month |
| MonthIndex.ParseMonthKey | App.tsx:164 | a key without a dash gives an `undefined` month, which no loan's month equals; the year is a number exactly when the first piece is all digits |
| MonthIndex.MonthKeyRoundTrip | App.tsx:164 | splitting a key on `-` and applying `Number` gives back its year and month |
| MonthIndex.MonthKeyInjective | App.tsx:115-117 | different months have different keys |
| MonthIndex.InMonthOfKey | App.tsx:166-168 | the filter built from a key accepts a loan exactly when the loan's key is that key |
| MonthIndex.MonthKeys | App.tsx:114-118 | one key per loan, and a string is among them exactly when some loan has that key |
| MonthIndex.StringOrderValid | App.tsx:119 | the default string comparison is a consistent comparator |
| MonthIndex.DescendingOrder | App.tsx:119 | sorting distinct keys and then reversing them gives a strictly descending, repetition-free list of the same keys |
| MonthIndex.ReversedDescending | App.tsx:119 | a sorted list of distinct strings, reversed, is strictly descending |
| MonthIndex.MonthsOfProperties | App.tsx:112-120 | the month list has no repetitions, is strictly descending, holds exactly the keys of the loans, and is empty exactly when there are no loans |
| MonthIndex.KeyOf | App.tsx:115-117 | reference definition of the `${year}-${month}` key of a loan; MonthIndex.MonthKeyRoundTrip and MonthKeyInjective state its properties |
| MonthIndex.InMonth | App.tsx:166-168 | reference definition of the month filter; MonthIndex.InMonthOfKey states that it accepts exactly the loans with the key |
| MonthIndex.MonthsOf | App.tsx:112-120 | reference definition of `availableMonths`; MonthIndex.MonthsOfProperties states its properties |
| MonthIndex.AvailableMonths | App.tsx:112-120 | the set-filling loop, the in-place sort and the reverse give exactly that month list |
| MonthIndex.Reconciled | App.tsx:123-129 | with months, the selection afterwards is one of them: the old selection if it was one, else the first; without months it is `''` |
| MonthIndex.ReconciledIdempotent | App.tsx:123-129 | running the effect a second time changes nothing |
| Aggregation.WithName | components/ReportView.tsx:102 | the result is a subsequence of the loans; it holds each loan with that name exactly as often as the loans do, and no other loan |
| Aggregation.IndexOfName | App.tsx:135 | the first position holding the name, or the length if there is none |
| Aggregation.Lookup | App.tsx:135 | a row is found exactly when the name is in the dictionary, and it is a row with that name |
| Aggregation.Bump | App.tsx:136-139 | the bumped entry belongs to the loan's borrower |
| Aggregation.AddToRowsLookup | App.tsx:134-140 | one more loan bumps its own borrower's entry and leaves every other entry as it was |
| Aggregation.AddToRowsNames | App.tsx:134-140 | a new borrower's name is appended; the order of the other names is kept |
| Aggregation.AddToRowsSums | App.tsx:138-139 | the sum of totals grows by the amount, and the sum of counts by one |
| Aggregation.IndexOfNameAppend | App.tsx:136 | appending a row for a new name moves no name already present, and the new name is found at the end |
| Aggregation.IndexOfNameUpdate | App.tsx:138-139 | updating a row in place with the same name moves no name's first position |
| Aggregation.AggregateConserves | App.tsx:134-146 | the totals add up to the sum of the loan amounts and the counts to the number of loans |
| Aggregation.AggregateLookup | App.tsx:134-146 | a borrower's row holds the sum and the number of that borrower's loans; a name with no loans has no row |
| Aggregation.TalliedStep | App.tsx:138-139 | one more loan updates only its own borrower's tally |
| Aggregation.AggregateDistinct | App.tsx:142-146 | no two rows have the same name |
| Aggregation.AggregateNames | App.tsx:131-146 | exactly one row per distinct borrower name |
| Aggregation.RowsOf | App.tsx:142-146 | reading out the dictionary yields its keys in order |
| Aggregation.AggregateLoans | App.tsx:132-146 | the dictionary loop and the read-out yield exactly the specified rows |
| Aggregation.TallyLoan | App.tsx:134-140 | one loop iteration keeps the keys distinct and in step with the dictionary, and matches one specified step |
| Aggregation.TallyExisting | App.tsx:138-139 | for a borrower already present, the in-place update is one specified step |
| Aggregation.BumpExisting | App.tsx:135-139 | when names are distinct, a loan for the borrower of row `j` bumps row `j` in place |
| Aggregation.TallyNew | App.tsx:135-139 | for a new borrower, the new entry at the end is one specified step |
| Aggregation.DistinctLookup | App.tsx:135 | when names are distinct, looking up a row's name finds that row |
| Aggregation.CompareRowsDirection | App.tsx:149-154 | the direction modifier negates the comparison for descending order |
| Aggregation.RowComparatorValid | App.tsx:148-155 | the row comparator is consistent: always by amount, and by name whenever `localeCompare` is |
| Aggregation.SortRowsPermutation | App.tsx:148 | the sorted rows are a permutation of the rows, keep both footer sums, and keep names distinct when they were |
| Aggregation.NamesDistinctPermutation | App.tsx:142-148 | any reordering of rows with distinct names has distinct names |
| Aggregation.SortRowsTwice | App.tsx:148-155 | sorting the sorted rows again under the same configuration changes nothing |
| Aggregation.AddToRows | App.tsx:134-140 | reference definition of one `forEach` iteration on the dictionary; Aggregation.AddToRowsLookup, AddToRowsNames and AddToRowsSums state its effect |
| Aggregation.Aggregate | App.tsx:134-146 | reference definition of the tally and the read-out; Aggregation.AggregateLookup, AggregateConserves, AggregateDistinct and AggregateNames state its properties |
| Aggregation.DirectionModifier | App.tsx:149 | reference definition of `directionModifier`; Aggregation.CompareRowsDirection states its effect |
| Aggregation.CompareRows | App.tsx:148-155 | reference definition of the comparator; Aggregation.CompareRowsDirection and RowComparatorValid state its properties |
| Aggregation.RowComparator | App.tsx:148-155 | the comparator as a function value handed to the sort; Aggregation.RowComparatorValid states when it is consistent |
| Aggregation.SortRows | App.tsx:148-155 | reference definition of `aggregatedArray.sort(...)`; the SortRows lemmas state its properties |
| Aggregation.SortRowsByAmount | App.tsx:152-154 | by amount, totals are non-decreasing for ascending order and non-increasing for descending |
| Aggregation.SortRowsByName | App.tsx:150-151 | by name, every pair of rows respects `localeCompare`, with the sign negated for descending order |
| Aggregation.SortRowsStable | App.tsx:148-155 | rows that compare equal keep their dictionary order |
| Aggregation.ReportRows | App.tsx:131-158 | tally, read out and sort in place give exactly the sorted aggregate |
| LoanList.NewestFirstValid | components/LoanList.tsx:10 | the timestamp comparator is consistent |
| LoanList.NewestFirstProperties | components/LoanList.tsx:10 | the displayed list is a permutation of the loans, with non-increasing timestamps |
| LoanList.CompareNewestFirst | components/LoanList.tsx:10 | reference definition of `b.date.getTime() - a.date.getTime()`; LoanList.NewestFirstValid states that it is consistent |
| LoanList.NewestFirst | components/LoanList.tsx:10 | reference definition of the newest-first sort; LoanList.NewestFirstProperties and NewestFirstStable state its properties |
| LoanList.AtTimeIsEquivalent | components/LoanList.tsx:10 | the loans that compare equal are exactly those with the same timestamp |
| LoanList.NewestFirstStable | components/LoanList.tsx:10 | loans with equal timestamps keep their input order |
| LoanList.CopyThenSort | components/LoanList.tsx:10 | the result is a fresh array holding the sorted loans, and the input array is unchanged |
| LoanList.LoanListView | components/LoanList.tsx:10-20 | the placeholder is shown exactly when there are no loans; otherwise every loan is shown once, in the newest-first order of LoanList.NewestFirst |
| ReportView.Toggled | components/ReportView.tsx:19 | clicking the expanded borrower collapses it; clicking any other borrower expands that one |
| ReportView.ToggledTwice | components/ReportView.tsx:18-20 | two clicks on a collapsed row collapse it again; two clicks on the expanded row restore it |
| ReportView.RowExpansion.constructor | components/ReportView.tsx:16 | nothing is expanded at first |
| ReportView.RowExpansion.RowClick | components/ReportView.tsx:18-20 | the expanded borrower becomes the toggle of the previous one |
| ReportView.AtMostOneExpanded | components/ReportView.tsx:76 | in the rows the report renders, under any sort configuration, at most one row is expanded |
| ReportView.RowExpansion.IsExpanded | components/ReportView.tsx:76 | reference definition of `aria-expanded`; ReportView.AtMostOneExpanded states its property |
| ReportView.Footer | components/ReportView.tsx:46-47 | no rows give the totals 0 and 0 |
| ReportView.AllTimeFooter | components/ReportView.tsx:46-47 | in any sort order, the all-time footer is the sum of all amounts and the number of loans |
| ReportView.BorrowerHistoryProperties | components/ReportView.tsx:101-103 | the history holds exactly the borrower's loans, each as often as recorded, newest first |
| ReportView.BorrowerHistory | components/ReportView.tsx:101-103 | reference definition of the filtered, sorted history; ReportView.BorrowerHistoryProperties states its properties |
| ReportView.SortIconFor | components/ReportView.tsx:22-30 | neutral for an inactive header, up for ascending and down for descending; the same rule as MonthlyReport.tsx:25-33 |
| ReportView.AriaSort | components/ReportView.tsx:37 | `none` exactly for an inactive header, `ascending` exactly for an active ascending one, and `descending` exactly for an active descending one; the same rule as MonthlyReport.tsx:40 |
| ReportView.IconMatchesAria | components/ReportView.tsx:22-37 | the icon and the attribute always agree |
| ReportView.OneActiveHeader | components/ReportView.tsx:22-30 | exactly one of the two headers shows a direction |
| ReportView.ReportBody | components/ReportView.tsx:64-69 | the placeholder row is rendered exactly when there are no rows; otherwise the rows are rendered |
| MonthlyReport.FormatMonth | components/MonthlyReport.tsx:49-54 | the label is blank exactly for `''`; a date label needs a dash in the key |
| MonthlyReport.ParseIntOfDigits | components/MonthlyReport.tsx:52 | `parseInt` of a whole digit string is its value |
| MonthlyReport.FormatMonthKey | components/MonthlyReport.tsx:49-54 | the label of a key is the date of the key's year and zero-based month |
| MonthlyReport.FormatMonthInjective | components/MonthlyReport.tsx:72-74 | different keys in the selector hand different arguments to `new Date` |
| MonthlyReport.MonthSelector | components/MonthlyReport.tsx:63-75 | the selector appears exactly when there are months, with one option per month in order |
| MonthlyReport.MonthlyTableBody | components/MonthlyReport.tsx:91-94 | the rows are shown exactly when there are some; an empty table says "no loans yet" exactly when there are no months, otherwise it names the selected month |
| MonthlyReport.MonthlyFooter | components/MonthlyReport.tsx:107-119 | the footer is rendered exactly when there are rows, and it holds their totals |
| MonthlyReport.MonthlyFooterConserves | components/MonthlyReport.tsx:56-57 | for non-empty loans, the footer is shown and holds their amount sum and count |
| LoanForm.Message | components/LoanForm.tsx:57-63 | each refusal has a non-empty message |
| LoanForm.Validate | components/LoanForm.tsx:54-66 | missing fields exactly when the trimmed name or amount is empty; an invalid amount exactly when both are present and the parse is NaN or ≤ 0; otherwise the entry carries the parsed amount and the trimmed name and description |
| LoanForm.ValidEntry | components/LoanForm.tsx:66 | an accepted entry has a non-blank trimmed name, a positive amount and a trimmed description |
| LoanForm.ValidateIdempotent | components/LoanForm.tsx:66 | revalidating an accepted entry's fields accepts the same entry |
| LoanForm.Suggestions | components/LoanForm.tsx:38-40 | the suggestions are a subsequence of the saved list holding each entry that contains the query, ignoring case, exactly as often as the list does, and no other |
| LoanForm.Matches | components/LoanForm.tsx:39 | reference definition of the case-insensitive `includes` test; LoanForm.Suggestions and SuggestionsIgnoreCase state its use |
| LoanForm.SuggestionsDistinct | components/LoanForm.tsx:127-128 | distinct saved entries give distinct suggestions (the list keys) |
| LoanForm.ToLowerIdempotent | components/LoanForm.tsx:39 | lowering twice is lowering once |
| LoanForm.SuggestionsIgnoreCase | components/LoanForm.tsx:39 | the query's case does not change the suggestions |
| LoanForm.LoanForm.constructor | components/LoanForm.tsx:12-18 | every field is empty, there are no suggestions, and the dropdown is hidden |
| LoanForm.LoanForm.DropdownVisible | components/LoanForm.tsx:124 | reference definition of when the dropdown is on screen; LoanForm.LoanForm.DescriptionChange and SuggestionClick state when it holds |
| LoanForm.LoanForm.SetName | components/LoanForm.tsx:85 | only the name changes |
| LoanForm.LoanForm.SetAmount | components/LoanForm.tsx:98 | only the amount changes |
| LoanForm.LoanForm.DescriptionChange | components/LoanForm.tsx:33-47 | typing filters and shows the suggestions, and clearing empties and hides them; the dropdown is visible exactly when a saved entry matches a non-empty description |
| LoanForm.LoanForm.Focus | components/LoanForm.tsx:113-119 | suggestions are recomputed and shown only when the description and the saved list are both non-empty; otherwise nothing changes |
| LoanForm.LoanForm.SuggestionClick | components/LoanForm.tsx:49-52 | the description becomes the suggestion and the dropdown is hidden |
| LoanForm.LoanForm.MouseDown | components/LoanForm.tsx:21-31 | a press outside the description field hides the list, and a press inside keeps it |
| LoanForm.LoanForm.Submit | components/LoanForm.tsx:54-71 | a refusal shows its message, adds nothing and keeps the fields; an acceptance hands over the validated entry once and clears the fields and the error |
| LoanForm.LoanForm.Settle | components/LoanForm.tsx:57-70 | the state change for each outcome of the checks |
| App.AscendingOrder | App.tsx:71 | `.sort()` of distinct strings is strictly ascending and keeps the same strings |
| App.RememberProperties | App.tsx:69-72 | a description is added exactly when its trimmed form is non-empty and new; the list stays sorted, distinct and trimmed, and loses nothing |
| App.Remember | App.tsx:69-72 | reference definition of the description rule of `handleAddLoan`; App.RememberProperties states its properties |
| App.InsertNew | App.tsx:71 | sorting in a new, trimmed, non-empty string keeps the list's invariant |
| App.RememberSorted | App.tsx:69-72 | the fresh-array sort gives the specified list and keeps the invariant |
| App.SortedCopy | App.tsx:71 | `[...prev, d].sort()` equals the stable sort of the list |
| App.RemoveAll | App.tsx:76 | the result is a subsequence of the list holding no copy of the deleted entry and every other entry exactly as often as the list does |
| App.RemoveAllKeepsInvariant | App.tsx:75-77 | deleting keeps the list sorted, distinct and trimmed |
| App.RemoveAbsent | App.tsx:76 | deleting an absent entry changes nothing |
| App.RememberThenDelete | App.tsx:69-77 | remembering a new description and then deleting it restores the list |
| App.AscendingUnique | App.tsx:71 | two strictly ascending lists with the same members are equal |
| App.Below | App.tsx:71 | the tail of a strictly ascending list holds every member but the head |
| App.Opposite | App.tsx:83 | the toggle always changes the direction |
| App.NextSortConfig | App.tsx:79-90 | the clicked field becomes active; the direction flips if it was already active and is ascending otherwise |
| App.SortClickTwice | App.tsx:79-90 | two clicks on the active header restore the configuration |
| App.InScope | App.tsx:166-168 | the result is a subsequence of the loans; it holds each loan of the parsed month exactly as often as the loans do, and no other loan |
| App.ScopeOfKey | App.tsx:164-168 | the scope of a month key is exactly the loans made in that month |
| App.MonthlyConserves | App.tsx:161-196 | with no selected month the rows are `[]`; otherwise the footer is the amount sum and count of the loans in scope |
| App.MonthlyReportRows | App.tsx:161-196 | reference definition of `monthlyAggregatedLoans`; App.MonthlyConserves and ReconciledMonthHasRows state its properties |
| App.ReconciledMonthHasRows | App.tsx:123-129 | once the effect has run, a non-empty ledger's monthly report has rows |
| App.AddedLoanMonth | App.tsx:112-120 | a new loan's month is listed afterwards, and no month disappears |
| App.AddedLoanTotals | App.tsx:60-67 | adding a loan raises the all-time total by its amount and the count by one |
| App.ReconcileStep | App.tsx:123-129 | the effect's body computes the reconciled selection |
| App.Ledger.constructor | App.tsx:8-18 | no loans, no descriptions, no selected month, and both configurations start at name/ascending |
| App.Ledger.AddLoan | App.tsx:59-73 | the new loan is appended after the unchanged earlier loans, the description is remembered, the invariant holds, and nothing else changes |
| App.Ledger.DeleteDescription | App.tsx:75-77 | the remembered list loses exactly the deleted entry, keeps its invariant, and nothing else changes |
| App.Ledger.SortChange | App.tsx:79-90 | the all-time configuration follows the click rule, and the monthly one is untouched |
| App.Ledger.MonthlySortChange | App.tsx:93-104 | the monthly configuration follows the click rule, and the all-time one is untouched |
| App.Ledger.MonthChange | App.tsx:107-109 | only the selected month changes |
| App.Ledger.ReconcileMonth | App.tsx:123-129 | the selected month becomes the reconciled one, and nothing else changes |
| App.Ledger.Months | App.tsx:112-120 | the `availableMonths` memo is the month list of the loans |
| App.Ledger.AllTimeRows | App.tsx:131-158 | the `aggregatedLoans` memo is the sorted aggregate of all loans |
| App.Ledger.MonthlyRows | App.tsx:161-196 | the `monthlyAggregatedLoans` memo is the sorted aggregate of the loans in the selected month, or `[]` |

## Left out

- Persistence (App.tsx:20-57) is left out: the `localStorage` reads and writes, JSON and the rehydration of dates are I/O. The ledger lives in memory only.
- `Date.now()`, `Math.random()` and `new Date()` (App.tsx:64-65) become the `id` and `date` parameters of `App.Ledger.AddLoan`.
- The local-time-zone projection `getFullYear`/`getMonth` is taken as given, as fields of `LoanDate`.
- Years are natural numbers, so keys for negative years are not modelled.
- Amounts are `real`. JavaScript `number` sums are only approximately conserved, so the conservation lemmas hold for exact arithmetic.
- `parseFloat` is the parameter of `LoanForm.LoanForm.Submit`, with None standing for NaN.
- `localeCompare` is the real-valued parameter `lc`.
- Aggregation.SortRowsByName and Aggregation.SortRowsStable require `lc` to be a consistent comparator. Nothing is claimed about a `localeCompare` that is not.
- Text.StrLess compares characters as code points. JavaScript's default `sort()` compares UTF-16 code units, which differ only outside the Basic Multilingual Plane.
- Text.ToLower lowers ASCII letters only. Unicode case mapping is not modelled.
- Text.ToNumber models `Number` only for digit strings. Signs, whitespace, decimal fractions such as `1.5`, exponents, `Infinity` and radix prefixes give None in the model, where JavaScript reads a number; the month keys never contain them.
- Text.ParseIntPrefix models `parseInt` only for unsigned decimals. Leading whitespace and signs give None, where JavaScript reads a number. A `0x` or `0X` prefix gives `Some(0)`, where JavaScript reads hexadecimal, or NaN for a bare `0x`. Fractions and exponents stop the digit run as in JavaScript. The month keys contain none of these.
- MonthlyReport.FormatMonth stops at the year and zero-based month handed to `new Date(...)`. The `toLocaleString` text and the Date normalisation of out-of-range months are locale formatting and are not modelled. Neither is `new Date`'s mapping of years 0 to 99 to 1900 to 1999, so the keys `99-01` and `1999-01` hand different arguments to `new Date` but show the same label.
- `Intl.NumberFormat`, `toLocaleDateString` and `toLocaleTimeString` are display formatting and are not modelled.
- The dictionary is a `map` plus its keys in first-seen order. JavaScript's `Object.keys` puts integer-like names first. The truthiness test at App.tsx:135 misfires on inherited keys such as `constructor`. Neither quirk is modelled.
- React scheduling is not modelled. Each handler is one atomic transition, and the reconcile effect is a method called after a change. The setter nested inside a setter (App.tsx:80-89) is modelled by its net effect. Double-invoked updaters are not modelled.
- App.Ledger.AddLoan checks and updates the current list in one step. The source tests `savedDescriptions` from the render closure and updates through `prev`.
- The string `error` of the form is `Option<Problem>`, with None for `''` and `LoanForm.Message` giving each problem's text.
- The DOM containment test of the click-outside listener is the `inside` parameter of `LoanForm.LoanForm.MouseDown`.
- The suggestion list is not recomputed when a description is deleted from it (LoanForm.tsx:140-143). The source has the same behaviour.
- The all-time footer (ReportView.tsx:130-140) is always rendered, so it has no visibility rule of its own.
- JSX, icons, CSS and the component wiring of App.tsx:198-241 are rendering only.
- LoanList is modelled although App.tsx never mounts it.
