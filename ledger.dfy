/** The ledger's entities, as the summary and the transaction list read them. */
module Ledger {

  /** A calendar date as a transaction stores it ("YYYY-MM-DD"). */
  datatype Date = Date(year: int, month: int, day: int)

  /** One ledger entry. `kind` is the entry's type string; only "income"
      and "expense" take part in any total. The amount is a point count
      and carries no sign: the kind says which way it goes. */
  datatype Transaction = Transaction(
    id: string,
    date: Date,
    kind: string,
    categoryId: string,
    amount: int,
    note: string)

  const Income: string := "income"
  const Expense: string := "expense"

  /** The filter value that selects every category. */
  const AllCategories: string := "all"

  /** `a` is a strictly later calendar day than `b`. */
  predicate Later(a: Date, b: Date) {
    a.year > b.year ||
    (a.year == b.year && (a.month > b.month || (a.month == b.month && a.day > b.day)))
  }

  /** A month number from 1 to 12. */
  predicate ValidMonth(d: Date) {
    1 <= d.month <= 12
  }

  /** The number of whole months from the start of year 0 to the start of
      the month of `d`: one count that orders every calendar month. */
  function MonthIndex(d: Date): int {
    d.year * 12 + (d.month - 1)
  }

  /** `isCurrentMonth`: the transaction falls in the calendar month and
      year of the reference date `now`. For real calendar months, that is
      the same month on the single running count of months, so a
      transaction from the same month of another year is not in it. */
  predicate InMonthOf(t: Transaction, now: Date)
    ensures ValidMonth(t.date) && ValidMonth(now) ==>
      (InMonthOf(t, now) <==> MonthIndex(t.date) == MonthIndex(now))
  {
    t.date.month == now.month && t.date.year == now.year
  }
}
