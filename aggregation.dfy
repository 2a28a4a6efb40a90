/** The summary engine: from the transactions, the category filter, the
    budget target and the reference date it derives the all-time balance,
    this month's totals, the target comparison and the ordered list. */
module Aggregation {
  import opened Ledger
  import opened Ordering
  import opened Budget

  /** The transactions of category `c`, in their original order. */
  function OfCategory(ts: seq<Transaction>, c: string): (r: seq<Transaction>)
    ensures |r| <= |ts|
    ensures forall k :: 0 <= k < |r| ==> r[k].categoryId == c
    decreases |ts|
  {
    if |ts| == 0 then []
    else
      var last := ts[|ts| - 1];
      OfCategory(ts[..|ts| - 1], c) + (if last.categoryId == c then [last] else [])
  }

  /** The working set of the summary: the whole collection under "all",
      and otherwise only the transactions of the selected category. */
  function View(ts: seq<Transaction>, filter: string): (r: seq<Transaction>)
    ensures filter == AllCategories ==> r == ts
    ensures filter != AllCategories ==> forall k :: 0 <= k < |r| ==> r[k].categoryId == filter
    ensures |r| <= |ts|
  {
    if filter != AllCategories then OfCategory(ts, filter) else ts
  }

  /** The transactions dated in the reference month, in their original order. */
  function ThisMonth(ts: seq<Transaction>, now: Date): (r: seq<Transaction>)
    ensures |r| <= |ts|
    ensures forall k :: 0 <= k < |r| ==> InMonthOf(r[k], now)
    decreases |ts|
  {
    if |ts| == 0 then []
    else
      var last := ts[|ts| - 1];
      ThisMonth(ts[..|ts| - 1], now) + (if InMonthOf(last, now) then [last] else [])
  }

  /** The transactions dated in any other month: what `ThisMonth` leaves out. */
  function OtherMonths(ts: seq<Transaction>, now: Date): (r: seq<Transaction>)
    ensures |r| + |ThisMonth(ts, now)| == |ts|
    ensures forall k :: 0 <= k < |r| ==> !InMonthOf(r[k], now)
    decreases |ts|
  {
    if |ts| == 0 then []
    else
      var last := ts[|ts| - 1];
      OtherMonths(ts[..|ts| - 1], now) + (if InMonthOf(last, now) then [] else [last])
  }

  /** The sum of the amounts of the transactions of one kind ("income" or
      "expense"); amounts of every other kind are not counted. */
  function KindTotal(ts: seq<Transaction>, kind: string): (r: int)
    ensures (forall k :: 0 <= k < |ts| ==> ts[k].kind != kind) ==> r == 0
    decreases |ts|
  {
    if |ts| == 0 then 0
    else
      var last := ts[|ts| - 1];
      KindTotal(ts[..|ts| - 1], kind) + (if last.kind == kind then last.amount else 0)
  }

  /** What one transaction adds to a balance: its amount for income, the
      negated amount for expense, nothing for any other type. */
  function Signed(t: Transaction): int {
    if t.kind == Income then t.amount else if t.kind == Expense then -t.amount else 0
  }

  /** The running balance of a list: the sum of its signed amounts, which
      is the income total minus the expense total. */
  function Net(ts: seq<Transaction>): (r: int)
    ensures r == KindTotal(ts, Income) - KindTotal(ts, Expense)
    decreases |ts|
  {
    if |ts| == 0 then 0
    else
      assert Income != Expense by {
        assert Income[0] != Expense[0];
      }
      Net(ts[..|ts| - 1]) + Signed(ts[|ts| - 1])
  }

  /** Every figure the summary shows. */
  datatype Summary = Summary(
    balance: int,
    currentMonthIncome: int,
    currentMonthExpense: int,
    netFlow: int,
    difference: int,
    percent: int,
    progressWidth: real,
    status: Status,
    ordered: seq<Transaction>)

  /** `updateSummary`, with the module state (`transactions`,
      `currentFilter`, `budget.amount`) and the clock passed in. The
      balance and the month's totals are taken over the filtered view;
      the net flow that the target is measured against is taken over
      every category. */
  function Summarize(transactions: seq<Transaction>, filter: string, target: int, now: Date): (s: Summary)
    ensures s.difference <= 0 <==> s.netFlow >= target
    ensures s.difference + s.netFlow == target
    ensures s.progressWidth >= 0.0
    ensures target == 0 ==> s.percent == 0 && s.progressWidth == 0.0
    ensures s.status == OverBudget <==> s.netFlow < 0
    ensures s.status == OnTarget <==> s.netFlow >= 0 && s.difference <= 0
  {
    var view := View(transactions, filter);
    var monthView := ThisMonth(view, now);
    var netFlow := Net(ThisMonth(transactions, now));
    Summary(
      balance := Net(view),
      currentMonthIncome := KindTotal(monthView, Income),
      currentMonthExpense := KindTotal(monthView, Expense),
      netFlow := netFlow,
      difference := target - netFlow,
      percent := Percent(netFlow, target),
      progressWidth := ProgressWidth(netFlow, target),
      status := Classify(netFlow, target),
      ordered := DisplayOrder(view))
  }

  /** Filtering keeps the original order: filtering a concatenation is
      concatenating the filtered parts. */
  lemma {:induction false} OfCategoryConcat(a: seq<Transaction>, b: seq<Transaction>, c: string)
    ensures OfCategory(a + b, c) == OfCategory(a, c) + OfCategory(b, c)
    decreases |b|
  {
    if |b| > 0 {
      var init, last := b[..|b| - 1], b[|b| - 1];
      assert (a + b)[..|a + b| - 1] == a + init && (a + b)[|a + b| - 1] == last;
      OfCategoryConcat(a, init, c);
      var tail := if last.categoryId == c then [last] else [];
      calc {
        OfCategory(a + b, c);
        OfCategory(a + init, c) + tail;
        OfCategory(a, c) + OfCategory(init, c) + tail;
        OfCategory(a, c) + (OfCategory(init, c) + tail);
        OfCategory(a, c) + OfCategory(b, c);
      }
    } else {
      assert a + b == a;
    }
  }

  /** A category that no transaction carries selects nothing. */
  lemma {:induction false} OfCategoryNone(ts: seq<Transaction>, c: string)
    requires forall t :: t in ts ==> t.categoryId != c
    ensures OfCategory(ts, c) == []
    decreases |ts|
  {
    if |ts| > 0 {
      OfCategoryNone(ts[..|ts| - 1], c);
    }
  }

  /** The category filter keeps each transaction of category `c` as
      often as it occurs and no other transaction. */
  lemma {:induction false} OfCategoryCounts(ts: seq<Transaction>, c: string, t: Transaction)
    ensures multiset(OfCategory(ts, c))[t] == if t.categoryId == c then multiset(ts)[t] else 0
    decreases |ts|
  {
    if |ts| > 0 {
      var init, last := ts[..|ts| - 1], ts[|ts| - 1];
      OfCategoryCounts(init, c, t);
      MultisetOfSnoc(ts);
      assert OfCategory(ts, c) == OfCategory(init, c) + (if last.categoryId == c then [last] else []);
    }
  }

  /** The month filter keeps each transaction of the reference month as
      often as it occurs and no other transaction. */
  lemma {:induction false} ThisMonthCounts(ts: seq<Transaction>, now: Date, t: Transaction)
    ensures multiset(ThisMonth(ts, now))[t] == if InMonthOf(t, now) then multiset(ts)[t] else 0
    decreases |ts|
  {
    if |ts| > 0 {
      var init, last := ts[..|ts| - 1], ts[|ts| - 1];
      ThisMonthCounts(init, now, t);
      MultisetOfSnoc(ts);
      assert ThisMonth(ts, now) == ThisMonth(init, now) + (if InMonthOf(last, now) then [last] else []);
    }
  }

  /** A transaction's amount counts towards the totals it is filtered into;
      splitting by month and adding the parts back gives the whole. */
  lemma {:induction false} KindTotalSplitsByMonth(ts: seq<Transaction>, now: Date, kind: string)
    ensures KindTotal(ts, kind) == KindTotal(ThisMonth(ts, now), kind) + KindTotal(OtherMonths(ts, now), kind)
    decreases |ts|
  {
    if |ts| > 0 {
      var init, last := ts[..|ts| - 1], ts[|ts| - 1];
      KindTotalSplitsByMonth(init, now, kind);
      if InMonthOf(last, now) {
        assert OtherMonths(ts, now) == OtherMonths(init, now);
        KindTotalAppend(ThisMonth(init, now), last, kind);
      } else {
        assert ThisMonth(ts, now) == ThisMonth(init, now);
        KindTotalAppend(OtherMonths(init, now), last, kind);
      }
    }
  }

  /** Non-negative amounts give a non-negative total. */
  lemma {:induction false} KindTotalNonNegative(ts: seq<Transaction>, kind: string)
    requires forall t :: t in ts ==> t.amount >= 0
    ensures KindTotal(ts, kind) >= 0
    decreases |ts|
  {
    if |ts| > 0 {
      var init := ts[..|ts| - 1];
      assert ts[|ts| - 1] in ts;
      assert forall t :: t in init ==> t in ts;
      KindTotalNonNegative(init, kind);
    }
  }

  lemma KindTotalAppend(ts: seq<Transaction>, x: Transaction, kind: string)
    ensures KindTotal(ts + [x], kind) == KindTotal(ts, kind) + (if x.kind == kind then x.amount else 0)
  {
    assert (ts + [x])[..|ts|] == ts;
  }

  /** The month split loses nothing and adds nothing: this month's
      transactions and the other months' together are the collection. */
  lemma {:induction false} MonthsPartition(ts: seq<Transaction>, now: Date)
    ensures multiset(ThisMonth(ts, now)) + multiset(OtherMonths(ts, now)) == multiset(ts)
    decreases |ts|
  {
    if |ts| > 0 {
      var init, last := ts[..|ts| - 1], ts[|ts| - 1];
      MonthsPartition(init, now);
      MultisetOfSnoc(ts);
      if InMonthOf(last, now) {
        assert ThisMonth(ts, now) == ThisMonth(init, now) + [last];
        assert OtherMonths(ts, now) == OtherMonths(init, now);
      } else {
        assert ThisMonth(ts, now) == ThisMonth(init, now);
        assert OtherMonths(ts, now) == OtherMonths(init, now) + [last];
      }
    }
  }

  /** Elements of this month's set are this month's transactions of the
      collection. */
  lemma ThisMonthFrom(ts: seq<Transaction>, now: Date)
    ensures forall t :: t in ThisMonth(ts, now) ==> t in ts && InMonthOf(t, now)
  {
    forall t | t in ThisMonth(ts, now) ensures t in ts && InMonthOf(t, now) {
      ThisMonthCounts(ts, now, t);
    }
  }

  /** With "all" the view is the whole collection; with a category it
      holds exactly that category's transactions, each as often as in the
      collection; in both cases in their original order. */
  lemma ViewIsCategoryFilter(ts: seq<Transaction>, filter: string)
    ensures filter == AllCategories ==> View(ts, filter) == ts
    ensures filter != AllCategories ==> forall t ::
      multiset(View(ts, filter))[t] == if t.categoryId == filter then multiset(ts)[t] else 0
    ensures forall t :: t in View(ts, filter) ==> t in ts
  {
    forall t ensures multiset(View(ts, filter))[t] == if filter == AllCategories || t.categoryId == filter then multiset(ts)[t] else 0 {
      if filter != AllCategories {
        OfCategoryCounts(ts, filter, t);
      }
    }
    forall t | t in View(ts, filter) ensures t in ts {
      assert multiset(View(ts, filter))[t] > 0;
    }
  }

  /** The all-time balance is the net of the filtered view regardless of
      date: this month's net plus the net of every other month. */
  lemma BalanceDecomposes(ts: seq<Transaction>, filter: string, target: int, now: Date)
    ensures var s := Summarize(ts, filter, target, now);
      s.balance == (s.currentMonthIncome - s.currentMonthExpense) + Net(OtherMonths(View(ts, filter), now))
  {
    var view := View(ts, filter);
    KindTotalSplitsByMonth(view, now, Income);
    KindTotalSplitsByMonth(view, now, Expense);
  }

  /** The reference date only decides which month the totals cover; the
      balance and the ordered list do not depend on it. */
  lemma BalanceIgnoresNow(ts: seq<Transaction>, filter: string, target: int, now: Date, later: Date)
    ensures Summarize(ts, filter, target, now).balance == Summarize(ts, filter, target, later).balance
    ensures Summarize(ts, filter, target, now).ordered == Summarize(ts, filter, target, later).ordered
  {
  }

  /** The net flow is this month's net over every category, so the target
      comparison (difference, percent, bar and status) is the same for
      every filter value, and equals the month's totals under "all". */
  lemma TargetIgnoresFilter(ts: seq<Transaction>, f: string, g: string, target: int, now: Date)
    ensures var a, b := Summarize(ts, f, target, now), Summarize(ts, g, target, now);
      a.netFlow == b.netFlow && a.difference == b.difference && a.percent == b.percent &&
      a.progressWidth == b.progressWidth && a.status == b.status
    ensures var a, all := Summarize(ts, f, target, now), Summarize(ts, AllCategories, target, now);
      a.netFlow == all.currentMonthIncome - all.currentMonthExpense
  {
  }

  /** With non-negative amounts, this month's income and expense are
      non-negative, whatever the filter. */
  lemma MonthTotalsNonNegative(ts: seq<Transaction>, filter: string, target: int, now: Date)
    requires forall t :: t in ts ==> t.amount >= 0
    ensures Summarize(ts, filter, target, now).currentMonthIncome >= 0
    ensures Summarize(ts, filter, target, now).currentMonthExpense >= 0
  {
    ViewIsCategoryFilter(ts, filter);
    ThisMonthFrom(View(ts, filter), now);
    KindTotalNonNegative(ThisMonth(View(ts, filter), now), Income);
    KindTotalNonNegative(ThisMonth(View(ts, filter), now), Expense);
  }

  /** A filter that matches no transaction (a deleted category, say)
      gives an empty view: zero balance, zero month totals, no list. */
  lemma UnmatchedFilterIsEmpty(ts: seq<Transaction>, filter: string, target: int, now: Date)
    requires filter != AllCategories
    requires forall t :: t in ts ==> t.categoryId != filter
    ensures var s := Summarize(ts, filter, target, now);
      s.balance == 0 && s.currentMonthIncome == 0 && s.currentMonthExpense == 0 && s.ordered == []
  {
    OfCategoryNone(ts, filter);
  }

  /** The ordered list is the view, sorted and permuted, nothing added or
      dropped; under "all" it is the whole collection. */
  lemma OrderedIsSortedView(ts: seq<Transaction>, filter: string, target: int, now: Date)
    ensures var s := Summarize(ts, filter, target, now);
      Sorted(s.ordered) && multiset(s.ordered) == multiset(View(ts, filter))
    ensures filter == AllCategories ==> multiset(Summarize(ts, filter, target, now).ordered) == multiset(ts)
  {
    DisplayOrderFacts(View(ts, filter));
  }

  const Jan15: Date := Date(2024, 1, 15)

  /** Two January transactions: income 100 on txn-2, expense 40 on txn-1. */
  function JanuaryLedger(): seq<Transaction> {
    [Transaction("txn-2", Date(2024, 1, 5), Income, "1", 100, ""),
     Transaction("txn-1", Date(2024, 1, 3), Expense, "1", 40, "")]
  }

  /** Target 50 on 15 January: net 60, target exceeded by 10, 120%,
      and txn-2 listed first for its higher id number. */
  lemma JanuaryMeetsTarget()
    ensures var s := Summarize(JanuaryLedger(), AllCategories, 50, Jan15);
      s.balance == 60 && s.currentMonthIncome == 100 && s.currentMonthExpense == 40 &&
      s.netFlow == 60 && s.difference == -10 && s.percent == 120 && s.status == OnTarget &&
      s.ordered == JanuaryLedger()
  {
    JanuaryTotals();
    JanuaryOrdered();
    assert Percent(60, 50) == 120 by {
      assert Ratio(60, 50) == 120.0;
    }
  }

  /** txn-2 carries the higher id number, so the January ledger is
      already in display order. */
  lemma JanuaryOrdered()
    ensures DisplayOrder(JanuaryLedger()) == JanuaryLedger()
  {
    var ts := JanuaryLedger();
    assert "txn-2"[..4] == "txn-" && "txn-1"[..4] == "txn-";
    assert IdSuffix.IdNum("txn-2") == 2 && IdSuffix.IdNum("txn-1") == 1;
    assert InOrder(ts[0], ts[1]);
    DisplayOrderOfSorted(ts);
  }

  /** Both January transactions fall in the reference month: income 100,
      expense 40. */
  lemma JanuaryTotals()
    ensures ThisMonth(JanuaryLedger(), Jan15) == JanuaryLedger()
    ensures KindTotal(JanuaryLedger(), Income) == 100 && KindTotal(JanuaryLedger(), Expense) == 40
  {
    var ts := JanuaryLedger();
    var t0, t1 := ts[0], ts[1];
    assert ts == [t0] + [t1];
    assert Income != Expense by {
      assert Income[0] != Expense[0];
    }
    assert InMonthOf(t0, Jan15) && InMonthOf(t1, Jan15);
    KindTotalAppend([], t0, Income);
    KindTotalAppend([], t0, Expense);
    KindTotalAppend([t0], t1, Income);
    KindTotalAppend([t0], t1, Expense);
    ThisMonthAppend([], t0, Jan15);
    ThisMonthAppend([t0], t1, Jan15);
  }

  lemma ThisMonthAppend(ts: seq<Transaction>, x: Transaction, now: Date)
    ensures ThisMonth(ts + [x], now) == ThisMonth(ts, now) + (if InMonthOf(x, now) then [x] else [])
  {
    assert (ts + [x])[..|ts|] == ts;
  }

  /** The same ledger against a zero target: 0%, an empty bar, and the
      target counts as met because the month did not lose. */
  lemma JanuaryZeroTarget()
    ensures var s := Summarize(JanuaryLedger(), AllCategories, 0, Jan15);
      s.percent == 0 && s.progressWidth == 0.0 && s.status == OnTarget
  {
    JanuaryTotals();
  }

  /** A lone expense of 80 this month against a target of 50: a deficit
      month, and the bar stays at zero rather than going negative. */
  lemma LoneExpenseIsOverBudget()
    ensures var s := Summarize([Transaction("txn-9", Jan15, Expense, "1", 80, "")], AllCategories, 50, Jan15);
      s.netFlow == -80 && s.status == OverBudget && s.progressWidth == 0.0
  {
    var ts := [Transaction("txn-9", Jan15, Expense, "1", 80, "")];
    assert ts[..0] == [];
    assert ThisMonth(ts, Jan15) == ts;
    assert KindTotal(ts, Income) == 0 && KindTotal(ts, Expense) == 80;
    ProgressAgainstPositiveTarget(-80, 50);
  }
}
