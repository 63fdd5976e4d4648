/** The transaction table every dashboard computation reads: one row per card payment,
    carrying the green / not-green classification that the merchant-category join gives it. */
module Ledger {

  import opened Frames

  /** A table cell whose type the data does not fix: text, a boolean, a whole number, or
      missing (NaN). The classification column of the merchant-category table and the
      status column of a merged table hold these. */
  datatype Cell = Text(text: string) | Flag(flag: bool) | Num(num: int) | Missing

  const GREEN: string := "green"
  const NOT_GREEN: string := "not green"

  /** One transaction. `date` is a day number (days since 1970-01-01), `mcc` the merchant
      category code, `status` the classification (`Missing` where none is known). */
  datatype Tx = Tx(user: int, amount: real, category: string, mcc: int, date: int, status: Cell)

  /** `status == 'green'`: only the exact text counts, whatever else the column holds. */
  predicate IsGreen(t: Tx) { t.status == Text(GREEN) }

  /** `status == 'not green'`. */
  predicate IsNotGreen(t: Tx) { t.status == Text(NOT_GREEN) }

  /** The status is not NaN (the rows `dropna(subset=['status'])` and a group-by on the
      status column keep). */
  predicate HasStatus(t: Tx) { t.status != Missing }

  function UserOf(t: Tx): int { t.user }
  function CategoryOf(t: Tx): string { t.category }
  function AmountOf(t: Tx): real { t.amount }

  /** `df[df['user_id'] == u]`. */
  function ClientRows(rows: seq<Tx>, u: int): (r: seq<Tx>)
    ensures forall t :: t in r <==> t in rows && t.user == u
  {
    WithKey(rows, UserOf, u)
  }

  /** `amount.sum()`. */
  function TotalAmount(rows: seq<Tx>): real
  {
    SumOf(rows, AmountOf)
  }

  /** `(status == 'green').sum() / len(rows) * 100`: the share of rows that are green, in
      percent, with rows of any other status (missing included) in the denominator; 0 for
      no rows. */
  function GreenPercent(rows: seq<Tx>): (pct: real)
    ensures 0.0 <= pct <= 100.0
  {
    Percent(|Filter(rows, IsGreen)|, |rows|)
  }

  /** The share is 0 exactly when no row is green, and 100 exactly when there are rows and
      all of them are green. */
  lemma GreenPercentExtremes(rows: seq<Tx>)
    ensures GreenPercent(rows) == 0.0 <==> forall t :: t in rows ==> !IsGreen(t)
    ensures GreenPercent(rows) == 100.0 <==> rows != [] && forall t :: t in rows ==> IsGreen(t)
  {
    var green := Filter(rows, IsGreen);
    FilterKeepsAllExactly(rows, IsGreen);
    if green != [] {
      assert green[0] in green;
    }
  }

  /** Over non-empty rows the percentage is the green count over the row count, times
      100. */
  lemma GreenPercentRatio(rows: seq<Tx>)
    requires rows != []
    ensures GreenPercent(rows) == |Filter(rows, IsGreen)| as real / |rows| as real * 100.0
  {
  }

  /** `groupby('category')['amount'].sum()`: each category that occurs, in ascending
      order, with the summed amount of its rows. */
  function CategoryTotals(rows: seq<Tx>): (totals: seq<(string, real)>)
    ensures Keys(totals) == UniqueKeys(rows, CategoryOf, StrLess)
    ensures forall i :: 0 <= i < |totals| ==> totals[i].1 == TotalAmount(WithKey(rows, CategoryOf, totals[i].0))
  {
    Aggregate(rows, CategoryOf, StrLess, TotalAmount)
  }

  /** `groupby('category')['amount'].sum()`, then `sort_values(ascending=False).head(k)`
      or `nlargest(k)`. */
  function TopCategories(rows: seq<Tx>, k: nat): (top: seq<(string, real)>)
    ensures |top| == Min(k, |CategoryTotals(rows)|)
    ensures forall i :: 0 <= i < |top| ==> top[i] in CategoryTotals(rows)
    ensures forall i, j :: 0 <= i < j < |top| ==> top[i].1 >= top[j].1
  {
    TopEntries(CategoryTotals(rows), k)
  }

  /** The top `k` categories: as many as `k` allows of the categories that occur, each with
      its exact amount sum, ordered by sum descending and, for equal sums, by name
      ascending; a category left out sums to no more than any category listed. */
  lemma TopCategoriesSpec(rows: seq<Tx>, k: nat)
    ensures |TopCategories(rows, k)| == Min(k, |CategoryTotals(rows)|)
    ensures forall c :: (exists t :: t in rows && t.category == c) <==> c in Keys(CategoryTotals(rows))
    ensures forall i :: 0 <= i < |TopCategories(rows, k)| ==>
      (exists t :: t in rows && t.category == TopCategories(rows, k)[i].0) &&
      TopCategories(rows, k)[i].1 == TotalAmount(WithKey(rows, CategoryOf, TopCategories(rows, k)[i].0))
    ensures forall i, j :: 0 <= i < j < |TopCategories(rows, k)| ==>
      TopCategories(rows, k)[i].1 > TopCategories(rows, k)[j].1 ||
      (TopCategories(rows, k)[i].1 == TopCategories(rows, k)[j].1 &&
       StrLess(TopCategories(rows, k)[i].0, TopCategories(rows, k)[j].0))
    ensures forall t :: t in rows && t.category !in Keys(TopCategories(rows, k)) ==>
      forall i :: 0 <= i < |TopCategories(rows, k)| ==>
        TopCategories(rows, k)[i].1 >= TotalAmount(WithKey(rows, CategoryOf, t.category))
  {
    StrLessIsStrictOrder();
    TopOfAggregate(rows, CategoryOf, StrLess, TotalAmount, k);
  }
}
