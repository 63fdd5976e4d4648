/** The aggregation half of the dashboard's charts: the day, week and month buckets, the
    per-period green shares of the fleet and of one client, the rolling mean that smooths a
    client's trend, and the top-five selections of users and categories. Building the
    figures themselves is not modelled. */
module Plotting {

  import opened Frames
  import opened Calendar
  import opened Ledger
  import opened Analysis

  // ---------------------------------------------------------------------------
  // Time buckets
  // ---------------------------------------------------------------------------

  datatype Granularity = Days | Weeks | Months

  /** The period selector: "Дни" buckets by day, "Недели" by week, and every other label,
      "Месяцы" included, by month. */
  function GranularityOf(name: string): (g: Granularity)
    ensures g == Days <==> name == "Дни"
    ensures g == Weeks <==> name == "Недели"
    ensures g == Months <==> name != "Дни" && name != "Недели"
  {
    if name == "Дни" then Days
    else if name == "Недели" then Weeks
    else Months
  }

  /** The first day of the bucket holding day `d`: the day itself (`dt.date`), the Monday of
      its Monday-to-Sunday week (`to_period('W')`), or the first of its month
      (`to_period('M')`); the chart plots each bucket at this day (`start_time`). */
  function PeriodStart(g: Granularity, d: int): (s: int)
    ensures s <= d
    ensures g == Days ==> s == d
    ensures g == Weeks ==> Weekday(s) == 0 && DayOfWeek(ToDate(s)) == 0 && d < s + 7
    ensures g == Months ==> ToDate(s) == Date(ToDate(d).year, ToDate(d).month, 1)
  {
    match g
    case Days => d
    case Weeks => WeekStart(d)
    case Months => MonthStart(d)
  }

  /** Two days land in the same bucket of the granularity. */
  predicate SameBucket(g: Granularity, d: int, e: int)
  {
    match g
    case Days => d == e
    case Weeks => WeekStart(d) <= e < WeekStart(d) + 7
    case Months => ToDate(e).year == ToDate(d).year && ToDate(e).month == ToDate(d).month
  }

  /** Every day falls in exactly one bucket: two days get the same period key exactly when
      they share the day, the Monday-to-Sunday week, or the calendar month; and the start
      of a bucket lies in that bucket. */
  lemma PeriodBuckets(g: Granularity, d: int, e: int)
    ensures PeriodStart(g, e) == PeriodStart(g, d) <==> SameBucket(g, d, e)
    ensures PeriodStart(g, PeriodStart(g, d)) == PeriodStart(g, d)
  {
    match g
    case Days =>
    case Weeks =>
      SameWeek(d, e);
      SameWeek(d, WeekStart(d));
    case Months =>
      SameMonth(d, e);
      var s := MonthStart(d);
      SameMonth(d, s);
  }

  /** The period key of a transaction. */
  function PeriodOf(g: Granularity): Tx -> int
  {
    (t: Tx) => PeriodStart(g, t.date)
  }

  // ---------------------------------------------------------------------------
  // Fleet trend
  // ---------------------------------------------------------------------------

  /** `create_line_chart_green_trend`: grouping by period and status drops the rows without
      a status; each period then gets green rows over the rows with a status, times 100. */
  function FleetTrend(rows: seq<Tx>, g: Granularity): (trend: seq<(int, real)>)
    ensures Keys(trend) == UniqueKeys(Filter(rows, HasStatus), PeriodOf(g), IntLess)
    ensures forall i :: 0 <= i < |trend| ==>
      trend[i].1 == GreenPercent(WithKey(Filter(rows, HasStatus), PeriodOf(g), trend[i].0))
  {
    Aggregate(Filter(rows, HasStatus), PeriodOf(g), IntLess, GreenPercent)
  }

  /** The fleet trend lists the periods holding a row with a status, in ascending order;
      each period's value is the green share of those rows, whose count is never 0. */
  lemma FleetTrendSpec(rows: seq<Tx>, g: Granularity)
    ensures forall i, j :: 0 <= i < j < |FleetTrend(rows, g)| ==>
      FleetTrend(rows, g)[i].0 < FleetTrend(rows, g)[j].0
    ensures forall p :: p in Keys(FleetTrend(rows, g)) <==>
      exists t :: t in rows && HasStatus(t) && PeriodStart(g, t.date) == p
    ensures forall i :: 0 <= i < |FleetTrend(rows, g)| ==>
      var members := WithKey(Filter(rows, HasStatus), PeriodOf(g), FleetTrend(rows, g)[i].0);
      members != [] &&
      (forall t :: t in members <==> t in rows && HasStatus(t) && PeriodStart(g, t.date) == FleetTrend(rows, g)[i].0) &&
      FleetTrend(rows, g)[i].1 == |Filter(members, IsGreen)| as real / |members| as real * 100.0
  {
    var kept := Filter(rows, HasStatus);
    var trend := FleetTrend(rows, g);
    IntLessIsStrictOrder();
    UniqueKeysIncreasing(kept, PeriodOf(g), IntLess);
    forall i | 0 <= i < |trend|
      ensures var members := WithKey(kept, PeriodOf(g), trend[i].0);
        members != [] && trend[i].1 == |Filter(members, IsGreen)| as real / |members| as real * 100.0
    {
      assert Keys(trend)[i] == trend[i].0;
      GroupsNonEmpty(kept, PeriodOf(g), IntLess, trend[i].0);
      GreenPercentRatio(WithKey(kept, PeriodOf(g), trend[i].0));
    }
  }

  // ---------------------------------------------------------------------------
  // One client's trend
  // ---------------------------------------------------------------------------

  /** One point of a client's trend: the period key, the green share of the client's rows
      in the period, the period's amount sum, and the rolling mean of the shares. */
  datatype TrendPoint = TrendPoint(period: int, green: real, amount: real, rolling: real)

  /** `max(0, i - 6)`: where the 7-entry window ending at entry `i` starts, so that the
      window holds `min(i + 1, 7)` entries. */
  function WindowStart(i: nat): (w: nat)
    ensures w <= i && i + 1 - w == Min(i + 1, 7)
  {
    if i < 6 then 0 else i - 6
  }

  /** `rolling(window=7, min_periods=1).mean()`: entry `i` is the mean of the entries from
      `max(0, i - 6)` to `i`, so the window counts entries, not calendar days. */
  function RollingMean(vals: seq<real>): (r: seq<real>)
    ensures |r| == |vals|
  {
    seq(|vals|, i requires 0 <= i < |vals| => Mean(vals[WindowStart(i)..i + 1]))
  }

  /** The first rolling value is the first value itself; the next five are the means of
      all values so far, and each later one is the mean of the last seven values. */
  lemma RollingMeanWindow(vals: seq<real>)
    ensures vals != [] ==> RollingMean(vals)[0] == vals[0]
    ensures forall i :: 0 <= i < |vals| && i < 6 ==>
      RollingMean(vals)[i] == Sum(vals[..i + 1]) / (i + 1) as real
    ensures forall i :: 6 <= i < |vals| ==>
      RollingMean(vals)[i] == Sum(vals[i - 6..i + 1]) / 7.0
  {
    var r := RollingMean(vals);
    forall i | 0 <= i < |vals| && i < 6
      ensures r[i] == Sum(vals[..i + 1]) / (i + 1) as real
    {
      assert vals[WindowStart(i)..i + 1] == vals[..i + 1];
    }
    forall i | 6 <= i < |vals|
      ensures r[i] == Sum(vals[i - 6..i + 1]) / 7.0
    {
      assert WindowStart(i) == i - 6;
    }
    if vals != [] {
      var first := vals[0..1];
      SumUnfold(first);
      assert first[1..] == [];
    }
  }

  /** Bounds that hold for every value hold for every rolling mean. */
  lemma RollingMeanBounds(vals: seq<real>, lo: real, hi: real)
    requires forall i :: 0 <= i < |vals| ==> lo <= vals[i] <= hi
    ensures forall i :: 0 <= i < |vals| ==> lo <= RollingMean(vals)[i] <= hi
  {
    forall i | 0 <= i < |vals|
      ensures lo <= RollingMean(vals)[i] <= hi
    {
      var window := vals[WindowStart(i)..i + 1];
      assert forall j :: 0 <= j < |window| ==> window[j] == vals[WindowStart(i) + j];
      MeanBounds(window, lo, hi);
    }
  }

  /** The rolling mean looks only backwards: later periods never change an earlier value. */
  lemma RollingMeanCausal(vals: seq<real>, k: nat)
    requires k <= |vals|
    ensures RollingMean(vals[..k]) == RollingMean(vals)[..k]
  {
    forall i | 0 <= i < k
      ensures RollingMean(vals[..k])[i] == RollingMean(vals)[i]
    {
      assert vals[..k][WindowStart(i)..i + 1] == vals[WindowStart(i)..i + 1];
    }
  }

  /** `create_user_green_score_trend`: the client's rows grouped by period, each with its
      green share (rows without a status count in the denominator), its amount sum and the
      rolling mean of the shares. */
  function UserTrend(rows: seq<Tx>, u: int, g: Granularity): (points: seq<TrendPoint>)
    ensures Periods(points) == UniqueKeys(ClientRows(rows, u), PeriodOf(g), IntLess)
    ensures forall i :: 0 <= i < |points| ==>
      var members := WithKey(ClientRows(rows, u), PeriodOf(g), points[i].period);
      points[i].green == GreenPercent(members) && points[i].amount == TotalAmount(members)
    ensures forall i :: 0 <= i < |points| ==> points[i].rolling == RollingMean(Greens(points))[i]
  {
    var own := ClientRows(rows, u);
    var shares := Aggregate(own, PeriodOf(g), IntLess, GreenPercent);
    var amounts := Aggregate(own, PeriodOf(g), IntLess, TotalAmount);
    var greens := Values(shares);
    var rolling := RollingMean(greens);
    assert |Keys(shares)| == |Keys(amounts)|;
    assert forall i :: 0 <= i < |shares| ==> Keys(shares)[i] == shares[i].0 == amounts[i].0 == Keys(amounts)[i];
    var points := Zip(shares, amounts, rolling);
    assert Periods(points) == Keys(shares);
    assert Greens(points) == greens;
    points
  }

  /** The rows of a table built column by column. */
  function Zip(shares: seq<(int, real)>, amounts: seq<(int, real)>, rolling: seq<real>): (points: seq<TrendPoint>)
    requires |shares| == |amounts| == |rolling|
    ensures |points| == |shares|
    ensures forall i :: 0 <= i < |points| ==>
      points[i] == TrendPoint(shares[i].0, shares[i].1, amounts[i].1, rolling[i])
  {
    seq(|shares|, i requires 0 <= i < |shares| => TrendPoint(shares[i].0, shares[i].1, amounts[i].1, rolling[i]))
  }

  function Periods(points: seq<TrendPoint>): (ps: seq<int>)
    ensures |ps| == |points| && forall i :: 0 <= i < |points| ==> ps[i] == points[i].period
  {
    seq(|points|, i requires 0 <= i < |points| => points[i].period)
  }

  function Greens(points: seq<TrendPoint>): (vs: seq<real>)
    ensures |vs| == |points| && forall i :: 0 <= i < |points| ==> vs[i] == points[i].green
  {
    seq(|points|, i requires 0 <= i < |points| => points[i].green)
  }

  function PointAmount(p: TrendPoint): real { p.amount }

  /** The client's trend: ascending periods, exactly those of the client's transactions;
      per period the green share of the client's rows there, which are never none, in
      [0, 100]. */
  lemma UserTrendSpec(rows: seq<Tx>, u: int, g: Granularity)
    ensures forall i, j :: 0 <= i < j < |UserTrend(rows, u, g)| ==>
      UserTrend(rows, u, g)[i].period < UserTrend(rows, u, g)[j].period
    ensures forall p :: p in Periods(UserTrend(rows, u, g)) <==>
      exists t :: t in rows && t.user == u && PeriodStart(g, t.date) == p
    ensures forall i :: 0 <= i < |UserTrend(rows, u, g)| ==>
      var members := WithKey(ClientRows(rows, u), PeriodOf(g), UserTrend(rows, u, g)[i].period);
      members != [] &&
      UserTrend(rows, u, g)[i].green == |Filter(members, IsGreen)| as real / |members| as real * 100.0 &&
      0.0 <= UserTrend(rows, u, g)[i].green <= 100.0
  {
    var own := ClientRows(rows, u);
    var points := UserTrend(rows, u, g);
    var ks := UniqueKeys(own, PeriodOf(g), IntLess);
    IntLessIsStrictOrder();
    UniqueKeysIncreasing(own, PeriodOf(g), IntLess);
    assert forall i :: 0 <= i < |points| ==> points[i].period == ks[i];
    forall p | exists t :: t in rows && t.user == u && PeriodStart(g, t.date) == p
      ensures p in ks
    {
      var t :| t in rows && t.user == u && PeriodStart(g, t.date) == p;
      assert t in own && PeriodOf(g)(t) == p;
    }
    forall i | 0 <= i < |points|
      ensures var members := WithKey(own, PeriodOf(g), points[i].period);
        members != [] && points[i].green == |Filter(members, IsGreen)| as real / |members| as real * 100.0
    {
      GroupsNonEmpty(own, PeriodOf(g), IntLess, ks[i]);
      GreenPercentRatio(WithKey(own, PeriodOf(g), ks[i]));
    }
  }

  /** The period amounts add up to the client's total amount: every one of the client's
      rows is counted in exactly one period. */
  lemma UserTrendAmounts(rows: seq<Tx>, u: int, g: Granularity)
    ensures SumOf(UserTrend(rows, u, g), PointAmount) == TotalAmount(ClientRows(rows, u))
  {
    var own := ClientRows(rows, u);
    var points := UserTrend(rows, u, g);
    var key := PeriodOf(g);
    var ks := UniqueKeys(own, key, IntLess);
    var total := GroupTotal(own, key, AmountOf);
    forall i | 0 <= i < |points|
      ensures PointAmount(points[i]) == total(ks[i])
    {
      assert points[i].period == Periods(points)[i] == ks[i];
    }
    SumOfPointwise(points, PointAmount, ks, total);
    PartitionSum(own, key, ks, AmountOf);
  }

  /** The smoothed trend stays within [0, 100]. */
  lemma UserTrendRollingBounds(rows: seq<Tx>, u: int, g: Granularity)
    ensures forall i :: 0 <= i < |UserTrend(rows, u, g)| ==> 0.0 <= UserTrend(rows, u, g)[i].rolling <= 100.0
  {
    UserTrendSpec(rows, u, g);
    var points := UserTrend(rows, u, g);
    var greens := Greens(points);
    assert forall i :: 0 <= i < |greens| ==> 0.0 <= greens[i] <= 100.0;
    RollingMeanBounds(greens, 0.0, 100.0);
  }

  // ---------------------------------------------------------------------------
  // Top fives
  // ---------------------------------------------------------------------------

  /** Per user, the green share of their rows that have a status (`dropna` first). */
  function GreenShares(rows: seq<Tx>): (shares: seq<(int, real)>)
    ensures Keys(shares) == UniqueKeys(Filter(rows, HasStatus), UserOf, IntLess)
    ensures forall i :: 0 <= i < |shares| ==>
      shares[i].1 == GreenPercent(WithKey(Filter(rows, HasStatus), UserOf, shares[i].0))
  {
    Aggregate(Filter(rows, HasStatus), UserOf, IntLess, GreenPercent)
  }

  /** `create_bar_chart_top_green_users`: the five users with the largest green share. */
  function TopGreenUsers(rows: seq<Tx>): (top: seq<(int, real)>)
    ensures |top| == Min(5, |GreenShares(rows)|)
    ensures forall i :: 0 <= i < |top| ==> top[i] in GreenShares(rows)
    ensures forall i, j :: 0 <= i < j < |top| ==> top[i].1 >= top[j].1
  {
    TopEntries(GreenShares(rows), 5)
  }

  /** Each of the five users has at least one row with a status, and their share is the
      green share of those rows (so within [0, 100], as every green share is). */
  lemma TopGreenUsersEntries(rows: seq<Tx>)
    ensures forall i :: 0 <= i < |TopGreenUsers(rows)| ==>
      (exists t :: t in rows && HasStatus(t) && t.user == TopGreenUsers(rows)[i].0) &&
      TopGreenUsers(rows)[i].1 == GreenPercent(WithKey(Filter(rows, HasStatus), UserOf, TopGreenUsers(rows)[i].0))
  {
    var kept := Filter(rows, HasStatus);
    var top := TopGreenUsers(rows);
    TopOfAggregateEntries(kept, UserOf, IntLess, GreenPercent, 5);
    forall i | 0 <= i < |top|
      ensures exists t :: t in rows && HasStatus(t) && t.user == top[i].0
    {
      var w :| w in kept && UserOf(w) == top[i].0;
      assert w in rows && HasStatus(w);
    }
  }

  /** As many users as five allows, sorted by share descending and, for equal shares, by user
      id ascending; a user left out has no larger share than any user listed. */
  lemma TopGreenUsersOrder(rows: seq<Tx>)
    ensures |TopGreenUsers(rows)| == Min(5, |GreenShares(rows)|)
    ensures forall i, j :: 0 <= i < j < |TopGreenUsers(rows)| ==>
      TopGreenUsers(rows)[i].1 > TopGreenUsers(rows)[j].1 ||
      (TopGreenUsers(rows)[i].1 == TopGreenUsers(rows)[j].1 && TopGreenUsers(rows)[i].0 < TopGreenUsers(rows)[j].0)
    ensures forall t :: t in rows && HasStatus(t) && t.user !in Keys(TopGreenUsers(rows)) ==>
      forall i :: 0 <= i < |TopGreenUsers(rows)| ==>
        TopGreenUsers(rows)[i].1 >= GreenPercent(WithKey(Filter(rows, HasStatus), UserOf, t.user))
  {
    IntLessIsStrictOrder();
    TopOfAggregate(Filter(rows, HasStatus), UserOf, IntLess, GreenPercent, 5);
  }

  /** When no row lacks a status, the chart's share of each user is that client's
      GreenScore. */
  lemma GreenSharesWithoutMissing(rows: seq<Tx>)
    requires forall t :: t in rows ==> HasStatus(t)
    ensures forall e :: e in GreenShares(rows) ==> e.1 == ClientGreenScore(rows, e.0)
  {
    FilterKeepsAll(rows, HasStatus);
    AggregateEntries(rows, UserOf, IntLess, GreenPercent);
  }

  /** `create_bar_chart_top_green_categories`: the five categories with the largest green
      amount sum. */
  function TopGreenCategories(rows: seq<Tx>): (top: seq<(string, real)>)
    ensures |top| == Min(5, |CategoryTotals(Filter(rows, IsGreen))|)
    ensures forall i :: 0 <= i < |top| ==> top[i] in CategoryTotals(Filter(rows, IsGreen))
  {
    TopCategories(Filter(rows, IsGreen), 5)
  }

  /** `create_user_top_green_categories`: the same over one client's green rows. */
  function UserTopGreenCategories(rows: seq<Tx>, u: int): (top: seq<(string, real)>)
    ensures |top| == Min(5, |CategoryTotals(Filter(ClientRows(rows, u), IsGreen))|)
    ensures forall i :: 0 <= i < |top| ==> top[i] in CategoryTotals(Filter(ClientRows(rows, u), IsGreen))
  {
    TopCategories(Filter(ClientRows(rows, u), IsGreen), 5)
  }

  /** `create_user_top_non_green_categories`: the same over one client's not-green rows. */
  function UserTopNotGreenCategories(rows: seq<Tx>, u: int): (top: seq<(string, real)>)
    ensures |top| == Min(5, |CategoryTotals(Filter(ClientRows(rows, u), IsNotGreen))|)
    ensures forall i :: 0 <= i < |top| ==> top[i] in CategoryTotals(Filter(ClientRows(rows, u), IsNotGreen))
  {
    TopCategories(Filter(ClientRows(rows, u), IsNotGreen), 5)
  }

  /** The top green categories: at most five, each a category of a green row with the sum
      of the green amounts in it, non-increasing by sum. */
  lemma TopGreenCategoriesSpec(rows: seq<Tx>)
    ensures |TopGreenCategories(rows)| <= 5
    ensures forall i :: 0 <= i < |TopGreenCategories(rows)| ==>
      (exists t :: t in rows && IsGreen(t) && t.category == TopGreenCategories(rows)[i].0) &&
      TopGreenCategories(rows)[i].1 == TotalAmount(WithKey(Filter(rows, IsGreen), CategoryOf, TopGreenCategories(rows)[i].0))
    ensures forall i, j :: 0 <= i < j < |TopGreenCategories(rows)| ==>
      TopGreenCategories(rows)[i].1 >= TopGreenCategories(rows)[j].1
  {
    TopCategoriesSpec(Filter(rows, IsGreen), 5);
  }

  /** A client's top green categories: at most five, each a category of one of the
      client's green rows with the sum of those rows' amounts in it, non-increasing by sum. */
  lemma UserTopGreenCategoriesSpec(rows: seq<Tx>, u: int)
    ensures |UserTopGreenCategories(rows, u)| <= 5
    ensures forall i :: 0 <= i < |UserTopGreenCategories(rows, u)| ==>
      (exists t :: t in rows && t.user == u && IsGreen(t) && t.category == UserTopGreenCategories(rows, u)[i].0) &&
      UserTopGreenCategories(rows, u)[i].1 ==
        TotalAmount(WithKey(Filter(ClientRows(rows, u), IsGreen), CategoryOf, UserTopGreenCategories(rows, u)[i].0))
    ensures forall i, j :: 0 <= i < j < |UserTopGreenCategories(rows, u)| ==>
      UserTopGreenCategories(rows, u)[i].1 >= UserTopGreenCategories(rows, u)[j].1
  {
    TopCategoriesSpec(Filter(ClientRows(rows, u), IsGreen), 5);
  }

  /** A client's top not-green categories: at most five, each a category of one of the
      client's not-green rows with the sum of those rows' amounts in it, non-increasing by
      sum. */
  lemma UserTopNotGreenCategoriesSpec(rows: seq<Tx>, u: int)
    ensures |UserTopNotGreenCategories(rows, u)| <= 5
    ensures forall i :: 0 <= i < |UserTopNotGreenCategories(rows, u)| ==>
      (exists t :: t in rows && t.user == u && IsNotGreen(t) && t.category == UserTopNotGreenCategories(rows, u)[i].0) &&
      UserTopNotGreenCategories(rows, u)[i].1 ==
        TotalAmount(WithKey(Filter(ClientRows(rows, u), IsNotGreen), CategoryOf, UserTopNotGreenCategories(rows, u)[i].0))
    ensures forall i, j :: 0 <= i < j < |UserTopNotGreenCategories(rows, u)| ==>
      UserTopNotGreenCategories(rows, u)[i].1 >= UserTopNotGreenCategories(rows, u)[j].1
  {
    TopCategoriesSpec(Filter(ClientRows(rows, u), IsNotGreen), 5);
  }

  /** The three categories the recommendations scan are the first three bars of the
      client's not-green chart. */
  lemma RecommendationCategoriesAreChartPrefix(rows: seq<Tx>, u: int)
    ensures TopCategories(Filter(ClientRows(rows, u), IsNotGreen), 3) ==
      UserTopNotGreenCategories(rows, u)[..Min(3, |UserTopNotGreenCategories(rows, u)|)]
  {
    var totals := CategoryTotals(Filter(ClientRows(rows, u), IsNotGreen));
    TopEntriesPrefix(totals, 3, 5);
  }
}
