# Ledger summary engine

A Dafny model of the computational core of a personal points ledger: the
part of `app.js` that turns the transaction list, the selected category
filter, the monthly net-flow target and today's date into the figures the
dashboard shows and the order of the transaction list.

The model has five parts:

- `Ledger` (`ledger.dfy`): the entities. A `Transaction` has an id, a date
  `(year, month, day)`, a type string, a category id, an integer amount and
  a note. `InMonthOf` is `isCurrentMonth`: a transaction is in the
  reference month when its month and year both match.
- `IdSuffix` (`id_suffix.dfy`): `getIdNum`. `IdNum` gives the decimal
  value of the maximal trailing run of digits of an id, and 0 when the id
  does not end in a digit.
- `Ordering` (`ordering.dfy`): the comparator given to `.sort` in
  `renderTransactions`. The primary key is the id number, descending. The
  secondary key is the date, descending. `DisplayOrder` is a stable
  insertion sort under that comparator. `SortForDisplay` copies the list
  into a fresh array and insertion-sorts the copy in place, and is proved
  to return `DisplayOrder`. Because the list is copied, the caller's list
  is never changed.
- `Budget` (`budget.dfy`): the target comparison. `Percent` is
  `Math.round` of the exact ratio times 100. `ProgressWidth` is that ratio
  clamped at 0. Both are 0 for a zero target. `Classify` is the three-way
  `danger` / `warning` / `success` choice, written as the datatype
  `Status = OverBudget | BelowTarget | OnTarget`.
- `Aggregation` (`aggregation.dfy`): `updateSummary` with its DOM writes
  removed. `Summarize(transactions, filter, target, now)` returns a
  `Summary` record. The module-level state (`transactions`,
  `currentFilter`, `budget.amount`) and the clock (`new Date()`) become
  parameters. The balance, the month's income and expense and the ordered
  list are taken over the filtered view. The net flow that the target is
  measured against is taken over every category.

An id whose digits are followed by anything else carries no number: the
pattern `(\d+)$` is anchored at the end of the id, so `"txn-100b"` yields
0, not 100. `IdSuffix.IdNumExamples` states `IdNum("txn-100b") == 0`.

JavaScript's `Array.prototype.sort` is stable, but the engine's own
algorithm is not insertion sort. `Ordering.StableSortIsDisplayOrder`
shows that the choice of algorithm does not matter. Under this comparator,
every sorted arrangement that keeps equal-key transactions in input order
is the same list as `DisplayOrder`.

## Model

| member | source | states |
|---|---|---|
| IdSuffix.DecimalValue | app.js:160 | the exact value of a digit string is below 10 to the power of its length |
| IdSuffix.IdNumWithinExactRange | app.js:158-162 | a trailing run of at most 15 digits gives an id number below 2^53, where `Number` is exact |
| IdSuffix.RunStart | app.js:159 | the match of `(\d+)$` starts where every later character is a digit and the character before is not |
| IdSuffix.IdNum | app.js:158-161 | an id that is empty or whose last character is not a digit yields 0 |
| IdSuffix.IdNumIsTrailingRunValue | app.js:158-161 | the id number is the decimal value of the maximal trailing digit run |
| IdSuffix.IdNumMatchesPattern | app.js:159-160 | the id number is 0 when the pattern does not match, otherwise `Number` of the captured digits |
| IdSuffix.IdNumOfGeneratedId | app.js:158-161 | an id made of a prefix that does not end in a digit followed by the decimal form of `n` yields `n` back |
| IdSuffix.IdNumExamples | app.js:158-161 | "txn-42" gives 42, "txn-100b" gives 0, "txn-007" gives 7, "" gives 0 |
| Ordering.DateDiffSign | app.js:164 | the date difference is positive, negative or zero exactly when the first date is later, earlier or the same day |
| Ordering.Compare | app.js:157-165 | `a` sorts first iff its id number is higher, or the id numbers tie and its date is later; the comparator is zero iff both keys tie |
| Ordering.CompareIsConsistent | app.js:157-165 | the comparator is antisymmetric, total and transitive |
| Ordering.SortedMeans | app.js:162-164 | sorted means that along the list the id numbers never increase, and that dates never increase between neighbours with equal id numbers |
| Ordering.SortedPairwise | app.js:157-165 | a sorted list is in order between any two positions |
| Ordering.Insert | app.js:157 | inserting adds exactly the new element to the list's contents |
| Ordering.DisplayOrder | app.js:157-165 | the ordered list is a permutation of its input, of the same length |
| Ordering.DisplayOrderSorted | app.js:157-165 | the ordered list is sorted under the comparator |
| Ordering.DisplayOrderOfSorted | app.js:157-165 | an already sorted list is returned unchanged |
| Ordering.DisplayOrderIdempotent | app.js:157-165 | ordering twice gives the same list as ordering once |
| Ordering.DisplayOrderStable | app.js:157-165 | transactions with equal keys keep their input order |
| Ordering.StableSortUnique | app.js:157-165 | two sorted lists whose equal-key groups have the same order are equal |
| Ordering.StableSortIsDisplayOrder | app.js:157-165 | every stable sorted arrangement of the input is the display order |
| Ordering.DisplayOrderFacts | app.js:157-165 | the ordered list is a sorted permutation, and a sorted input is left as it is |
| Ordering.SiftLeft | app.js:157 | the inner loop of the in-place sort inserts the element at `i` into the sorted prefix |
| Ordering.SortStep | app.js:157 | one outer step extends the sorted prefix of the array copy by one element |
| Ordering.SortForDisplay | app.js:157-165 | sorting an array copy yields the display order, a sorted permutation of the input, and leaves a sorted input unchanged |
| Budget.Classify | app.js:321-327 | OverBudget iff the net flow is negative, BelowTarget iff it is in [0, target), OnTarget iff it is at least 0 and at least the target; with target 0 any non-negative net flow is OnTarget |
| Budget.Ratio | app.js:307 | the ratio is the real that multiplied by the target gives 100 times the net flow |
| Budget.RoundHalfUp | app.js:307 | `Math.round` returns the integer within half of `x`, with halves rounded up |
| Budget.Percent | app.js:306-307 | the percentage is 0 for a zero target, and otherwise the integer nearest to the ratio times 100 |
| Budget.PercentExact | app.js:306-307 | for a non-zero target the percentage equals floor((200 * netFlow + target) / (2 * target)) |
| Budget.ProgressWidth | app.js:315-316 | the bar width is never negative and is 0 for a zero target; otherwise it is the ratio times 100 or 0, whichever is larger |
| Budget.ProgressAgainstPositiveTarget | app.js:315-327 | with a positive target the bar is empty iff the net flow is at most 0, and reaches 100% iff the status is OnTarget |
| Aggregation.Summarize | app.js:201-331 | difference = target - netFlow, so difference <= 0 iff the target is met; the bar is never negative; percent and bar are 0 for a zero target; the status agrees with the sign and the difference |
| Ledger.InMonthOf | app.js:207-213 | for real calendar months, a transaction is in the reference month iff it has the same running month count (year * 12 + month - 1) |
| Aggregation.OfCategory | app.js:218 | the category filter keeps only transactions of the category, and never more than it was given |
| Aggregation.View | app.js:216-219 | under "all" the working set is the whole collection, otherwise only transactions of the selected category |
| Aggregation.ThisMonth | app.js:236 | the month filter keeps only transactions of the reference month, never more than it was given |
| Aggregation.OtherMonths | app.js:222-244 | the rest of the collection: none of it in the reference month, and together with this month's set as long as the collection |
| Aggregation.MonthsPartition | app.js:222-244 | this month's transactions and the other months' together are exactly the collection, as a multiset |
| Aggregation.KindTotal | app.js:222-228 | a list with no transaction of the type totals 0: amounts of other types are not counted |
| Aggregation.Net | app.js:222-230 | the running sum of signed amounts (income added, expense subtracted) equals the income total minus the expense total |
| Aggregation.OfCategoryConcat | app.js:216-219 | the category filter distributes over concatenation, so it keeps the original order |
| Aggregation.OfCategoryNone | app.js:216-219 | a category that no transaction carries selects nothing |
| Aggregation.OfCategoryCounts | app.js:216-219 | the category filter keeps every transaction of the category as often as it occurs and no other |
| Aggregation.ViewIsCategoryFilter | app.js:216-219 | with "all" the view is the whole collection; otherwise it holds exactly the category's transactions |
| Aggregation.ThisMonthCounts | app.js:207-213 | the month filter keeps exactly the transactions whose month and year match the reference date |
| Aggregation.ThisMonthFrom | app.js:236 | every transaction of this month's set comes from the collection and lies in the reference month |
| Aggregation.KindTotalSplitsByMonth | app.js:222-244 | the total of one type over a list is this month's total plus the other months' total |
| Aggregation.KindTotalNonNegative | app.js:238-244 | non-negative amounts give a non-negative total |
| Aggregation.BalanceDecomposes | app.js:222-244 | the all-time balance is this month's income minus expense plus the net of the other months |
| Aggregation.BalanceIgnoresNow | app.js:222-230 | the balance and the ordered list do not depend on the reference date |
| Aggregation.TargetIgnoresFilter | app.js:285-296 | net flow, difference, percent, bar width and status are the same for every filter, and the net flow is the month's net under "all" |
| Aggregation.MonthTotalsNonNegative | app.js:236-244 | with non-negative amounts the month's income and expense are non-negative under any filter |
| Aggregation.UnmatchedFilterIsEmpty | app.js:216-244 | a filter that matches nothing gives balance 0, month totals 0 and an empty list |
| Aggregation.OrderedIsSortedView | app.js:330 | the ordered list is a sorted permutation of the filtered view, and of the whole collection under "all" |
| Aggregation.JanuaryMeetsTarget | app.js:201-331 | income 100 and expense 40 in January against target 50 give balance 60, difference -10, 120%, OnTarget, txn-2 first |
| Aggregation.JanuaryOrdered | app.js:157-165 | the January ledger, txn-2 before txn-1, is already in display order |
| Aggregation.JanuaryZeroTarget | app.js:306-327 | the same ledger against target 0 gives 0%, an empty bar and OnTarget |
| Aggregation.LoneExpenseIsOverBudget | app.js:315-327 | a lone expense of 80 against target 50 gives net flow -80, OverBudget and an empty bar |

## Left out

- Network access, login, token handling, `localStorage` and the reload functions (app.js:37-131) are I/O and asynchronous; the snapshot is a parameter instead.
- The modal dialogs and the create, edit and delete calls (app.js:335-739) are UI and remote calls. The clock-based id `txn-${Date.now()}` (app.js:590) is represented only through `IdSuffix.IdNumOfGeneratedId`, with the number as a parameter.
- DOM output is left out: the `innerHTML` templates, `toLocaleString`, balance colouring, list and card titles, `renderCategoryFilter`, the event listeners and `init`. So are categories' names and colours, which only affect display.
- Line app.js:277 writes to the undefined name `titleIlel`. Under any filter other than "all" this throws before the target comparison is written (app.js:303-327) and before the filtered list is rendered (app.js:330), so the page keeps the previous list and budget figures. A filter whose category is no longer among the options fails earlier still: `selectedIndex` is then -1, and reading `options[-1].text` at app.js:256 throws before the balance is written. The model computes the intended summary instead, so `Aggregation.OrderedIsSortedView`, `Aggregation.TargetIgnoresFilter` and `Aggregation.UnmatchedFilterIsEmpty` describe what `updateSummary` is meant to show under a filter, which the page as written never shows.
- Dates are explicit `(year, month, day)` values. `new Date("YYYY-MM-DD")` parsing, local-time `getMonth`, time zones and invalid dates (a `NaN` difference in the comparator) are not modelled. `Ordering.DateDiffSign` compares dates lexicographically, which is chronological for valid dates.
- IdSuffix.IdNum is the exact value of the trailing digits, while `Number` at app.js:160 returns a double, exact only below 2^53. Runs of 16 or more digits can round, so two different ids can tie in the comparator and fall through to the date; runs of 309 or more digits read as `Infinity` and make the comparator return `NaN`. The model orders such ids by their exact numbers. Ids the app creates, `txn-${Date.now()}`, carry 13 digits, where `IdSuffix.IdNumWithinExactRange` shows the two agree.
- Amounts are integers. `Number(...)` coercion of string amounts, floating-point sums and the floating-point ratio are not modelled. `Percent` and `ProgressWidth` are computed exactly over the reals.
- `Summarize` takes the budget's amount directly; the singleton budget record is not modelled beyond that.
- `Ordering.SortForDisplay` is an insertion sort, not the engine's own sorting algorithm. `Ordering.StableSortIsDisplayOrder` proves that every stable sort gives the same result under this comparator.
