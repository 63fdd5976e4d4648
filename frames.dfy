/** The table operations the dashboard relies on, stated over sequences of rows:
    boolean-mask selection, column sums and means, the ascending key order of a
    group-by, and the stable descending sort behind `sort_values(ascending=False)`
    and `nlargest` (equal values keep their earlier position). */
module Frames {

  import opened Wrappers

  function Min(a: int, b: int): int { if a <= b then a else b }

  // ---------------------------------------------------------------------------
  // Selection
  // ---------------------------------------------------------------------------

  /** The rows of `s` for which the mask `p` holds, in their original order. */
  function Filter<T(!new)>(s: seq<T>, p: T -> bool): (r: seq<T>)
    ensures |r| <= |s|
    ensures forall x :: x in r <==> x in s && p(x)
  {
    if s == [] then [] else (if p(s[0]) then [s[0]] else []) + Filter(s[1..], p)
  }

  /** Masking a concatenation masks each part: the kept rows stay in input order. */
  lemma {:induction false} FilterConcat<T(!new)>(a: seq<T>, b: seq<T>, p: T -> bool)
    ensures Filter(a + b, p) == Filter(a, p) + Filter(b, p)
  {
    if a == [] {
      assert a + b == b;
    } else {
      assert (a + b)[0] == a[0] && (a + b)[1..] == a[1..] + b;
      FilterConcat(a[1..], b, p);
    }
  }

  /** Two masks that agree on every row select the same rows. */
  lemma {:induction false} FilterAgree<T(!new)>(s: seq<T>, p: T -> bool, q: T -> bool)
    requires forall x :: x in s ==> p(x) == q(x)
    ensures Filter(s, p) == Filter(s, q)
  {
    if s != [] {
      FilterAgree(s[1..], p, q);
    }
  }

  /** A mask that holds of every row keeps the whole sequence. */
  lemma {:induction false} FilterKeepsAll<T(!new)>(s: seq<T>, p: T -> bool)
    requires forall x :: x in s ==> p(x)
    ensures Filter(s, p) == s
  {
    if s != [] {
      FilterKeepsAll(s[1..], p);
    }
  }

  /** The rows whose `key` column equals `k`, in their original order. */
  function WithKey<R(!new), K(==,!new)>(rows: seq<R>, key: R -> K, k: K): (r: seq<R>)
    ensures forall x :: x in r <==> x in rows && key(x) == k
  {
    Filter(rows, KeyIs(key, k))
  }

  /** The mask `key == k`. */
  function KeyIs<R, K(==)>(key: R -> K, k: K): R -> bool
  {
    x => key(x) == k
  }

  /** Applying two masks one after the other is applying their conjunction. */
  lemma {:induction false} FilterFilter<T(!new)>(s: seq<T>, p: T -> bool, q: T -> bool, both: T -> bool)
    requires forall x :: both(x) == (p(x) && q(x))
    ensures Filter(Filter(s, p), q) == Filter(s, both)
  {
    if s != [] {
      FilterFilter(s[1..], p, q, both);
      var kept := Filter(s, p);
      if p(s[0]) {
        assert kept == [s[0]] + Filter(s[1..], p);
        assert kept[0] == s[0] && kept[1..] == Filter(s[1..], p);
      } else {
        assert kept == [] + Filter(s[1..], p) == Filter(s[1..], p);
      }
    }
  }

  /** Masks that agree position by position keep equally many rows. */
  lemma {:induction false} FilterCountPointwise<A(!new), B(!new)>(a: seq<A>, p: A -> bool, b: seq<B>, q: B -> bool)
    requires |a| == |b|
    requires forall i :: 0 <= i < |a| ==> p(a[i]) == q(b[i])
    ensures |Filter(a, p)| == |Filter(b, q)|
  {
    if a != [] {
      FilterCountPointwise(a[1..], p, b[1..], q);
    }
  }

  /** `part / whole * 100` for a count out of a total, and 0 for an empty total. */
  function Percent(part: nat, whole: nat): (pct: real)
    requires part <= whole
    ensures 0.0 <= pct <= 100.0
    ensures pct == 0.0 <==> part == 0 || whole == 0
    ensures pct == 100.0 <==> 0 < whole && part == whole
  {
    if whole == 0 then 0.0
    else
      PercentBounds(part as real, whole as real);
      (part as real) / (whole as real) * 100.0
  }

  lemma PercentBounds(part: real, whole: real)
    requires 0.0 <= part <= whole && 0.0 < whole
    ensures 0.0 <= part / whole * 100.0 <= 100.0
    ensures part / whole * 100.0 == 0.0 <==> part == 0.0
    ensures part / whole * 100.0 == 100.0 <==> part == whole
  {
    var q := part / whole;
    assert part == q * whole;
  }

  // ---------------------------------------------------------------------------
  // Sums and means
  // ---------------------------------------------------------------------------

  /** The sum of the derived column `f` (0 for no rows, as a column sum is). */
  function SumOf<T(!new)>(s: seq<T>, f: T -> real): real
  {
    if s == [] then 0.0 else f(s[0]) + SumOf(s[1..], f)
  }

  /** A sum of non-negative terms is non-negative. */
  lemma {:induction false} SumOfNonNegative<T(!new)>(s: seq<T>, f: T -> real)
    ensures (forall x :: x in s ==> 0.0 <= f(x)) ==> 0.0 <= SumOf(s, f)
  {
    if s != [] {
      SumOfNonNegative(s[1..], f);
    }
  }

  lemma {:induction false} SumOfConcat<T(!new)>(a: seq<T>, b: seq<T>, f: T -> real)
    ensures SumOf(a + b, f) == SumOf(a, f) + SumOf(b, f)
  {
    if a == [] {
      assert a + b == b;
    } else {
      assert (a + b)[0] == a[0] && (a + b)[1..] == a[1..] + b;
      SumOfConcat(a[1..], b, f);
    }
  }

  /** Summing over a mask is summing the column with the rows outside the mask set to 0. */
  lemma {:induction false} SumOfFilter<T(!new)>(s: seq<T>, p: T -> bool, f: T -> real, g: T -> real)
    requires forall x :: x in s ==> g(x) == if p(x) then f(x) else 0.0
    ensures SumOf(Filter(s, p), f) == SumOf(s, g)
  {
    if s != [] {
      SumOfFilter(s[1..], p, f, g);
      SumOfConcat(if p(s[0]) then [s[0]] else [], Filter(s[1..], p), f);
    }
  }

  /** Sums taken element by element over two sequences agree when their terms do. */
  lemma {:induction false} SumOfPointwise<A(!new), B(!new)>(a: seq<A>, f: A -> real, b: seq<B>, g: B -> real)
    requires |a| == |b|
    requires forall i :: 0 <= i < |a| ==> f(a[i]) == g(b[i])
    ensures SumOf(a, f) == SumOf(b, g)
  {
    if a != [] {
      SumOfPointwise(a[1..], f, b[1..], g);
    }
  }

  function Identity(x: real): real { x }

  /** The sum of a column of numbers. */
  function Sum(s: seq<real>): real
  {
    SumOf(s, Identity)
  }

  lemma SumUnfold(s: seq<real>)
    requires s != []
    ensures Sum(s) == s[0] + Sum(s[1..])
  {
  }

  /** `n` copies of `x` added up. */
  function Times(x: real, n: nat): real
  {
    if n == 0 then 0.0 else x + Times(x, n - 1)
  }

  lemma {:induction false} TimesIsProduct(x: real, n: nat)
    ensures Times(x, n) == x * n as real
  {
    if n > 0 {
      TimesIsProduct(x, n - 1);
    }
  }

  /** Bounds on every term bound the sum. */
  lemma {:induction false} SumBounds(s: seq<real>, lo: real, hi: real)
    requires forall i :: 0 <= i < |s| ==> lo <= s[i] <= hi
    ensures lo * |s| as real <= Sum(s) <= hi * |s| as real
  {
    TermBounds(s, lo, hi);
    TimesIsProduct(lo, |s|);
    TimesIsProduct(hi, |s|);
  }

  lemma {:induction false} TermBounds(s: seq<real>, lo: real, hi: real)
    requires forall i :: 0 <= i < |s| ==> lo <= s[i] <= hi
    ensures Times(lo, |s|) <= Sum(s) <= Times(hi, |s|)
  {
    if s != [] {
      TermBounds(s[1..], lo, hi);
      SumUnfold(s);
    }
  }

  /** The arithmetic mean of a non-empty column. */
  function Mean(s: seq<real>): real
    requires |s| > 0
  {
    Sum(s) / |s| as real
  }

  lemma Quotient(x: real, n: real, lo: real, hi: real)
    requires n > 0.0 && lo * n <= x <= hi * n
    ensures lo <= x / n <= hi
  {
  }

  /** The mean of a non-empty column stays within any bounds on its entries. */
  lemma MeanBounds(s: seq<real>, lo: real, hi: real)
    requires |s| > 0
    requires forall i :: 0 <= i < |s| ==> lo <= s[i] <= hi
    ensures lo <= Mean(s) <= hi
  {
    SumBounds(s, lo, hi);
    Quotient(Sum(s), |s| as real, lo, hi);
  }

  // ---------------------------------------------------------------------------
  // Orders and the sorted distinct keys of a group-by
  // ---------------------------------------------------------------------------

  ghost predicate IsStrictOrder<K(!new)>(lt: (K, K) -> bool)
  {
    && (forall a :: !lt(a, a))
    && (forall a, b, c :: lt(a, b) && lt(b, c) ==> lt(a, c))
    && (forall a, b :: a != b ==> lt(a, b) || lt(b, a))
  }

  ghost predicate Increasing<K>(s: seq<K>, lt: (K, K) -> bool)
  {
    forall i, j :: 0 <= i < j < |s| ==> lt(s[i], s[j])
  }

  ghost predicate Distinct<K>(s: seq<K>)
  {
    forall i, j :: 0 <= i < j < |s| ==> s[i] != s[j]
  }

  function IntLess(a: int, b: int): bool { a < b }

  lemma IntLessIsStrictOrder()
    ensures IsStrictOrder(IntLess)
  {
  }

  /** Code-point lexicographic order of strings; a proper prefix comes first. */
  function StrLess(a: string, b: string): bool
  {
    if a == [] then b != []
    else if b == [] then false
    else if a[0] != b[0] then a[0] < b[0]
    else StrLess(a[1..], b[1..])
  }

  lemma {:induction false} StrLessIrreflexive(a: string)
    ensures !StrLess(a, a)
  {
    if a != [] {
      StrLessIrreflexive(a[1..]);
    }
  }

  lemma {:induction false} StrLessTransitive(a: string, b: string, c: string)
    requires StrLess(a, b) && StrLess(b, c)
    ensures StrLess(a, c)
  {
    if a != [] && b != [] && c != [] && a[0] == b[0] && b[0] == c[0] {
      StrLessTransitive(a[1..], b[1..], c[1..]);
    }
  }

  lemma {:induction false} StrLessTotal(a: string, b: string)
    requires a != b
    ensures StrLess(a, b) || StrLess(b, a)
  {
    if a != [] && b != [] && a[0] == b[0] {
      assert a == [a[0]] + a[1..] && b == [b[0]] + b[1..];
      StrLessTotal(a[1..], b[1..]);
    }
  }

  lemma StrLessIsStrictOrder()
    ensures IsStrictOrder(StrLess)
  {
    forall a ensures !StrLess(a, a) {
      StrLessIrreflexive(a);
    }
    forall a, b, c | StrLess(a, b) && StrLess(b, c) ensures StrLess(a, c) {
      StrLessTransitive(a, b, c);
    }
    forall a, b | a != b ensures StrLess(a, b) || StrLess(b, a) {
      StrLessTotal(a, b);
    }
  }

  /** Puts `x` in front of the first element it is below. */
  function Place<K(==,!new)>(x: K, s: seq<K>, lt: (K, K) -> bool): (r: seq<K>)
    ensures |r| == |s| + 1
    ensures forall y :: y in r <==> y == x || y in s
    ensures x !in s && Distinct(s) ==> Distinct(r)
  {
    if s == [] || lt(x, s[0]) then [x] + s
    else
      var rest := Place(x, s[1..], lt);
      assert Distinct(s) ==> Distinct(s[1..]) && s[0] !in s[1..];
      [s[0]] + rest
  }

  lemma {:induction false} PlaceIncreasing<K(!new)>(x: K, s: seq<K>, lt: (K, K) -> bool)
    requires IsStrictOrder(lt) && Increasing(s, lt) && x !in s
    ensures Increasing(Place(x, s, lt), lt)
  {
    if s != [] && !lt(x, s[0]) {
      PlaceIncreasing(x, s[1..], lt);
      var r := Place(x, s, lt);
      forall j | 0 < j < |r| ensures lt(s[0], r[j]) {
        assert r[j] in Place(x, s[1..], lt);
        if r[j] != x {
          var k :| 0 <= k < |s[1..]| && s[1..][k] == r[j];
          assert s[k + 1] == r[j];
        }
      }
    }
  }

  /** The distinct values of the `key` column (pandas `unique`), kept sorted by `lt`. */
  function UniqueKeys<R(!new), K(==,!new)>(rows: seq<R>, key: R -> K, lt: (K, K) -> bool): (ks: seq<K>)
    ensures Distinct(ks)
    ensures forall k :: k in ks <==> exists x :: x in rows && key(x) == k
  {
    if rows == [] then []
    else
      var rest := UniqueKeys(rows[1..], key, lt);
      assert forall x :: x in rows <==> x == rows[0] || x in rows[1..];
      if key(rows[0]) in rest then rest else Place(key(rows[0]), rest, lt)
  }

  lemma {:induction false} UniqueKeysIncreasing<R(!new), K(!new)>(rows: seq<R>, key: R -> K, lt: (K, K) -> bool)
    requires IsStrictOrder(lt)
    ensures Increasing(UniqueKeys(rows, key, lt), lt)
  {
    if rows != [] {
      UniqueKeysIncreasing(rows[1..], key, lt);
      var rest := UniqueKeys(rows[1..], key, lt);
      if key(rows[0]) !in rest {
        PlaceIncreasing(key(rows[0]), rest, lt);
      }
    }
  }

  /** Under a strict total order there is only one increasing arrangement of a set:
      `UniqueKeys` is `sorted(unique(...))`, whatever order the rows come in. */
  lemma {:induction false} IncreasingUnique<K(!new)>(s: seq<K>, t: seq<K>, lt: (K, K) -> bool)
    requires IsStrictOrder(lt) && Increasing(s, lt) && Increasing(t, lt)
    requires forall x :: x in s <==> x in t
    ensures s == t
  {
    if s != [] {
      assert s[0] in t;
    }
    if t != [] {
      assert t[0] in s;
    }
    if s != [] && t != [] {
      var s0, t0 := s[0], t[0];
      var i :| 0 <= i < |s| && s[i] == t0;
      var j :| 0 <= j < |t| && t[j] == s0;
      assert i != 0 ==> lt(s0, t0);
      assert j != 0 ==> lt(t0, s0);
      assert i == 0 || j == 0;
      assert s[0] == t[0];
      forall x ensures x in s[1..] <==> x in t[1..] {
        if x in s[1..] {
          var i :| 1 <= i < |s| && s[i] == x;
          assert lt(s[0], x);
          assert x in t && x != t[0];
          var j :| 0 <= j < |t| && t[j] == x;
          assert j != 0;
          assert t[1..][j - 1] == x;
        }
        if x in t[1..] {
          var j :| 1 <= j < |t| && t[j] == x;
          assert lt(t[0], x);
          assert x in s && x != s[0];
          var i :| 0 <= i < |s| && s[i] == x;
          assert i != 0;
          assert s[1..][i - 1] == x;
        }
      }
      IncreasingUnique(s[1..], t[1..], lt);
      assert s == [s[0]] + s[1..] && t == [t[0]] + t[1..];
    }
  }

  // ---------------------------------------------------------------------------
  // Group-by
  // ---------------------------------------------------------------------------

  datatype Group<K, R> = Group(key: K, rows: seq<R>)

  /** `groupby(key)`: one group per distinct key, keys in ascending `lt` order, each
      group holding the rows with that key in their original order. */
  function GroupBy<R(!new), K(==,!new)>(rows: seq<R>, key: R -> K, lt: (K, K) -> bool): (gs: seq<Group<K, R>>)
    ensures |gs| == |UniqueKeys(rows, key, lt)|
    ensures forall i :: 0 <= i < |gs| ==> gs[i].key == UniqueKeys(rows, key, lt)[i]
    ensures forall i :: 0 <= i < |gs| ==> gs[i].rows == WithKey(rows, key, gs[i].key)
  {
    var ks := UniqueKeys(rows, key, lt);
    seq(|ks|, i requires 0 <= i < |ks| => Group(ks[i], WithKey(rows, key, ks[i])))
  }

  /** Every group of a group-by holds at least one row. */
  lemma GroupsNonEmpty<R(!new), K(!new)>(rows: seq<R>, key: R -> K, lt: (K, K) -> bool, k: K)
    requires k in UniqueKeys(rows, key, lt)
    ensures WithKey(rows, key, k) != []
  {
    var x :| x in rows && key(x) == k;
    assert x in WithKey(rows, key, k);
  }

  /** `groupby(key).apply(f)`: one entry per distinct key, keys in ascending `lt` order,
      each holding `f` of the rows with that key. */
  function Aggregate<R(!new), K(==,!new)>(rows: seq<R>, key: R -> K, lt: (K, K) -> bool, f: seq<R> -> real): (entries: seq<(K, real)>)
    ensures Keys(entries) == UniqueKeys(rows, key, lt)
    ensures forall i :: 0 <= i < |entries| ==> entries[i].1 == f(WithKey(rows, key, entries[i].0))
  {
    var gs := GroupBy(rows, key, lt);
    seq(|gs|, i requires 0 <= i < |gs| => (gs[i].key, f(gs[i].rows)))
  }

  /** An aggregate entry exists for exactly the keys that occur, holding `f` of their group. */
  lemma AggregateEntries<R(!new), K(!new)>(rows: seq<R>, key: R -> K, lt: (K, K) -> bool, f: seq<R> -> real)
    ensures forall k, v :: (k, v) in Aggregate(rows, key, lt, f) <==>
      (exists x :: x in rows && key(x) == k) && v == f(WithKey(rows, key, k))
  {
    var entries := Aggregate(rows, key, lt, f);
    var ks := UniqueKeys(rows, key, lt);
    forall k, v | (exists x :: x in rows && key(x) == k) && v == f(WithKey(rows, key, k))
      ensures (k, v) in entries
    {
      assert k in ks;
      var i :| 0 <= i < |ks| && ks[i] == k;
      assert Keys(entries)[i] == k;
      assert entries[i] == (k, v);
    }
    forall k, v | (k, v) in entries
      ensures exists x :: x in rows && key(x) == k
    {
      var i :| 0 <= i < |entries| && entries[i] == (k, v);
      assert Keys(entries)[i] == k;
      assert k in ks;
    }
  }

  /** `k -> sum of f over the group with key k`. */
  function GroupTotal<R(!new), K(==,!new)>(rows: seq<R>, key: R -> K, f: R -> real): K -> real
  {
    k => SumOf(WithKey(rows, key, k), f)
  }

  /** Indicator of one row's key, summed over a key list that holds it exactly once. */
  lemma {:induction false} SumOfIndicator<R(!new), K(!new)>(ks: seq<K>, x: R, key: R -> K, f: R -> real, g: K -> real)
    requires Distinct(ks)
    requires forall k :: g(k) == if key(x) == k then f(x) else 0.0
    ensures SumOf(ks, g) == if key(x) in ks then f(x) else 0.0
  {
    if ks != [] {
      SumOfIndicator(ks[1..], x, key, f, g);
      assert ks[0] == key(x) ==> key(x) !in ks[1..];
    }
  }

  /** The groups partition the rows: summing a column group by group over all keys
      gives the column's total. */
  lemma {:induction false} PartitionSum<R(!new), K(!new)>(rows: seq<R>, key: R -> K, ks: seq<K>, f: R -> real)
    requires Distinct(ks)
    requires forall x :: x in rows ==> key(x) in ks
    ensures SumOf(ks, GroupTotal(rows, key, f)) == SumOf(rows, f)
  {
    if rows == [] {
      ZeroTerms(ks, GroupTotal(rows, key, f));
    } else {
      var x, rest := rows[0], rows[1..];
      var all, own, others := GroupTotal(rows, key, f), Indicator(key, x, f), GroupTotal(rest, key, f);
      assert SumOf(ks, others) == SumOf(rest, f) by {
        PartitionSum(rest, key, ks, f);
      }
      assert SumOf(ks, own) == f(x) by {
        SumOfIndicator(ks, x, key, f, own);
      }
      assert SumOf(ks, all) == SumOf(ks, own) + SumOf(ks, others) by {
        assert rows == [x] + rest;
        forall k ensures all(k) == own(k) + others(k) {
          GroupTotalStep(x, rest, key, f, k);
        }
        SumOfAdd(ks, all, own, others);
      }
    }
  }

  /** `k -> f(x)` for the key of row `x`, and 0 for every other key. */
  function Indicator<R, K(==)>(key: R -> K, x: R, f: R -> real): K -> real
  {
    k => if key(x) == k then f(x) else 0.0
  }

  /** A group's total over one more row gains that row's value when the key matches. */
  lemma GroupTotalStep<R(!new), K(!new)>(x: R, rest: seq<R>, key: R -> K, f: R -> real, k: K)
    ensures GroupTotal([x] + rest, key, f)(k) == (if key(x) == k then f(x) else 0.0) + GroupTotal(rest, key, f)(k)
  {
    FilterConcat([x], rest, KeyIs(key, k));
    SumOfConcat(Filter([x], KeyIs(key, k)), Filter(rest, KeyIs(key, k)), f);
  }

  lemma {:induction false} ZeroTerms<K(!new)>(ks: seq<K>, g: K -> real)
    requires forall k :: g(k) == 0.0
    ensures SumOf(ks, g) == 0.0
  {
    if ks != [] {
      ZeroTerms(ks[1..], g);
    }
  }

  lemma {:induction false} SumOfAdd<K(!new)>(ks: seq<K>, h: K -> real, f: K -> real, g: K -> real)
    requires forall k :: h(k) == f(k) + g(k)
    ensures SumOf(ks, h) == SumOf(ks, f) + SumOf(ks, g)
  {
    if ks != [] {
      SumOfAdd(ks[1..], h, f, g);
    }
  }

  // ---------------------------------------------------------------------------
  // Stable descending sort (sort_values(ascending=False), nlargest(keep='first'))
  // ---------------------------------------------------------------------------

  /** Entry `i` goes before entry `j`: a larger value, or an equal value seen earlier. */
  predicate Precedes(vals: seq<real>, i: int, j: int)
  {
    0 <= i < |vals| && 0 <= j < |vals| &&
    (vals[i] > vals[j] || (vals[i] == vals[j] && i < j))
  }

  ghost predicate SortedDesc(vals: seq<real>, order: seq<int>)
  {
    forall a, b :: 0 <= a < b < |order| ==> Precedes(vals, order[a], order[b])
  }

  function PlaceIndex(vals: seq<real>, i: int, order: seq<int>): (r: seq<int>)
    ensures |r| == |order| + 1
    ensures forall k :: k in r <==> k == i || k in order
  {
    if order == [] || Precedes(vals, i, order[0]) then [i] + order
    else [order[0]] + PlaceIndex(vals, i, order[1..])
  }

  lemma {:induction false} PlaceIndexSorted(vals: seq<real>, i: int, order: seq<int>)
    requires 0 <= i < |vals| && i !in order
    requires forall k :: k in order ==> 0 <= k < |vals|
    requires SortedDesc(vals, order)
    ensures SortedDesc(vals, PlaceIndex(vals, i, order))
  {
    if order != [] && !Precedes(vals, i, order[0]) {
      PlaceIndexSorted(vals, i, order[1..]);
      var r := PlaceIndex(vals, i, order);
      forall b | 0 < b < |r| ensures Precedes(vals, order[0], r[b]) {
        assert r[b] in PlaceIndex(vals, i, order[1..]);
        assert order[0] in order;
        if r[b] != i {
          var k :| 0 <= k < |order[1..]| && order[1..][k] == r[b];
          assert order[k + 1] == r[b];
        }
      }
    }
  }

  /** The positions 0..n-1 of `vals`, arranged by a stable descending sort. */
  function SortIndices(vals: seq<real>, n: nat): (order: seq<int>)
    requires n <= |vals|
    ensures |order| == n
    ensures forall k :: k in order <==> 0 <= k < n
  {
    if n == 0 then [] else PlaceIndex(vals, n - 1, SortIndices(vals, n - 1))
  }

  lemma {:induction false} SortIndicesSorted(vals: seq<real>, n: nat)
    requires n <= |vals|
    ensures SortedDesc(vals, SortIndices(vals, n))
  {
    if n > 0 {
      SortIndicesSorted(vals, n - 1);
      PlaceIndexSorted(vals, n - 1, SortIndices(vals, n - 1));
    }
  }

  /** The row order after a stable descending sort on `vals`: a permutation of the
      positions in which a larger value comes first and equal values keep their order. */
  function DescendingOrder(vals: seq<real>): (order: seq<int>)
    ensures |order| == |vals|
    ensures forall k :: k in order <==> 0 <= k < |vals|
    ensures forall a, b :: 0 <= a < b < |order| ==> Precedes(vals, order[a], order[b])
  {
    SortIndicesSorted(vals, |vals|);
    SortIndices(vals, |vals|)
  }

  /** Where `x` first occurs in `s`, if it does. */
  function IndexOf<T(==)>(s: seq<T>, x: T): (r: Option<nat>)
    ensures r.None? <==> x !in s
    ensures r.Some? ==> r.value < |s| && s[r.value] == x && x !in s[..r.value]
  {
    if s == [] then None
    else if s[0] == x then Some(0)
    else match IndexOf(s[1..], x)
      case None => None
      case Some(k) =>
        assert s[..k + 1] == [s[0]] + s[1..][..k];
        Some(k + 1)
  }

  /** A mask keeps every row exactly when it holds of every row. */
  lemma {:induction false} FilterKeepsAllExactly<T(!new)>(s: seq<T>, p: T -> bool)
    ensures |Filter(s, p)| == |s| <==> forall x :: x in s ==> p(x)
  {
    if s != [] {
      FilterKeepsAllExactly(s[1..], p);
      assert forall x :: x in s <==> x == s[0] || x in s[1..];
    }
  }

  // ---------------------------------------------------------------------------
  // Keyed columns: the largest entries first
  // ---------------------------------------------------------------------------

  function Keys<K, V>(entries: seq<(K, V)>): (ks: seq<K>)
    ensures |ks| == |entries|
    ensures forall i :: 0 <= i < |entries| ==> ks[i] == entries[i].0
  {
    seq(|entries|, i requires 0 <= i < |entries| => entries[i].0)
  }

  /** The key of every entry is among the keys. */
  lemma KeysHold<K, V>(entries: seq<(K, V)>)
    ensures forall e :: e in entries ==> e.0 in Keys(entries)
  {
    forall e | e in entries
      ensures e.0 in Keys(entries)
    {
      var i :| 0 <= i < |entries| && entries[i] == e;
      assert Keys(entries)[i] == e.0;
    }
  }

  function Values<K>(entries: seq<(K, real)>): (vs: seq<real>)
    ensures |vs| == |entries|
    ensures forall i :: 0 <= i < |entries| ==> vs[i] == entries[i].1
  {
    seq(|entries|, i requires 0 <= i < |entries| => entries[i].1)
  }

  /** `sort_values(ascending=False).head(k)` and `nlargest(k)` on a keyed column: at most
      `k` entries, the largest values first, equal values in their original order. */
  function TopEntries<K>(entries: seq<(K, real)>, k: nat): (top: seq<(K, real)>)
    ensures |top| == Min(k, |entries|)
    ensures forall i :: 0 <= i < |top| ==> top[i] in entries
    ensures forall i, j :: 0 <= i < j < |top| ==> top[i].1 >= top[j].1
  {
    var order := DescendingOrder(Values(entries));
    var n := Min(k, |entries|);
    assert forall i :: 0 <= i < n ==> order[i] in order;
    seq(n, i requires 0 <= i < n => entries[order[i]])
  }

  /** A shorter selection is the head of a longer one. */
  lemma TopEntriesPrefix<K>(entries: seq<(K, real)>, k: nat, m: nat)
    requires k <= m
    ensures TopEntries(entries, k) == TopEntries(entries, m)[..Min(k, |entries|)]
  {
    var order := DescendingOrder(Values(entries));
    var short := TopEntries(entries, k);
    var long := TopEntries(entries, m);
    forall i | 0 <= i < |short|
      ensures short[i] == long[i]
    {
      assert order[i] in order;
    }
  }

  /** Every entry left out of the top `k` is at most as large as every entry kept, and
      with `k` at least the number of entries nothing is left out. */
  lemma TopEntriesSelectsLargest<K>(entries: seq<(K, real)>, k: nat)
    ensures forall j :: 0 <= j < |entries| && entries[j] !in TopEntries(entries, k) ==>
      forall i :: 0 <= i < |TopEntries(entries, k)| ==> TopEntries(entries, k)[i].1 >= entries[j].1
    ensures k >= |entries| ==> forall e :: e in entries ==> e in TopEntries(entries, k)
  {
    var vals := Values(entries);
    var order := DescendingOrder(vals);
    var top := TopEntries(entries, k);
    var n := Min(k, |entries|);
    forall j | 0 <= j < |entries|
      ensures entries[j] in top || forall i :: 0 <= i < |top| ==> top[i].1 >= entries[j].1
    {
      assert j in order;
      var p :| 0 <= p < |order| && order[p] == j;
      if p < n {
        assert top[p] == entries[j];
      } else {
        forall i | 0 <= i < |top| ensures top[i].1 >= entries[j].1 {
          assert Precedes(vals, order[i], order[p]);
        }
      }
    }
    if k >= |entries| {
      forall e | e in entries ensures e in top {
        var j :| 0 <= j < |entries| && entries[j] == e;
        assert j in order;
        var p :| 0 <= p < |order| && order[p] == j;
        assert top[p] == e;
      }
    }
  }

  /** With keys increasing in `lt`, entries of equal value come out in increasing key
      order: the top entries are strictly ordered by (value descending, key ascending). */
  lemma TopEntriesTies<K(!new)>(entries: seq<(K, real)>, k: nat, lt: (K, K) -> bool)
    requires Increasing(Keys(entries), lt)
    ensures forall i, j :: 0 <= i < j < |TopEntries(entries, k)| ==>
      TopEntries(entries, k)[i].1 > TopEntries(entries, k)[j].1 ||
      (TopEntries(entries, k)[i].1 == TopEntries(entries, k)[j].1 &&
       lt(TopEntries(entries, k)[i].0, TopEntries(entries, k)[j].0))
  {
    var vals := Values(entries);
    var order := DescendingOrder(vals);
    var top := TopEntries(entries, k);
    var ks := Keys(entries);
    forall i, j | 0 <= i < j < |top|
      ensures top[i].1 > top[j].1 || (top[i].1 == top[j].1 && lt(top[i].0, top[j].0))
    {
      assert Precedes(vals, order[i], order[j]);
      assert top[i] == entries[order[i]] && top[j] == entries[order[j]];
      if vals[order[i]] == vals[order[j]] {
        assert lt(ks[order[i]], ks[order[j]]);
      }
    }
  }

  /** The top `k` groups of a `groupby(key).apply(f)`: as many as `k` allows of the keys
      that occur, each with `f` of its own group; ordered by value descending and, for equal
      values, by key ascending; a key left out has no larger value than any key listed, and
      with `k` at least the number of keys none is left out. */
  lemma TopOfAggregate<R(!new), K(!new)>(rows: seq<R>, key: R -> K, lt: (K, K) -> bool, f: seq<R> -> real, k: nat)
    requires IsStrictOrder(lt)
    ensures |TopEntries(Aggregate(rows, key, lt, f), k)| == Min(k, |UniqueKeys(rows, key, lt)|)
    ensures forall i :: 0 <= i < |TopEntries(Aggregate(rows, key, lt, f), k)| ==>
      (exists x :: x in rows && key(x) == TopEntries(Aggregate(rows, key, lt, f), k)[i].0) &&
      TopEntries(Aggregate(rows, key, lt, f), k)[i].1 ==
        f(WithKey(rows, key, TopEntries(Aggregate(rows, key, lt, f), k)[i].0))
    ensures forall i, j :: 0 <= i < j < |TopEntries(Aggregate(rows, key, lt, f), k)| ==>
      TopEntries(Aggregate(rows, key, lt, f), k)[i].1 > TopEntries(Aggregate(rows, key, lt, f), k)[j].1 ||
      (TopEntries(Aggregate(rows, key, lt, f), k)[i].1 == TopEntries(Aggregate(rows, key, lt, f), k)[j].1 &&
       lt(TopEntries(Aggregate(rows, key, lt, f), k)[i].0, TopEntries(Aggregate(rows, key, lt, f), k)[j].0))
    ensures forall x :: x in rows && key(x) !in Keys(TopEntries(Aggregate(rows, key, lt, f), k)) ==>
      forall i :: 0 <= i < |TopEntries(Aggregate(rows, key, lt, f), k)| ==>
        TopEntries(Aggregate(rows, key, lt, f), k)[i].1 >= f(WithKey(rows, key, key(x)))
    ensures k >= |UniqueKeys(rows, key, lt)| ==>
      forall x :: x in rows ==> key(x) in Keys(TopEntries(Aggregate(rows, key, lt, f), k))
  {
    TopOfAggregateEntries(rows, key, lt, f, k);
    UniqueKeysIncreasing(rows, key, lt);
    TopEntriesTies(Aggregate(rows, key, lt, f), k, lt);
    TopOfAggregateOmitted(rows, key, lt, f, k);
  }

  lemma TopOfAggregateEntries<R(!new), K(!new)>(rows: seq<R>, key: R -> K, lt: (K, K) -> bool, f: seq<R> -> real, k: nat)
    ensures forall i :: 0 <= i < |TopEntries(Aggregate(rows, key, lt, f), k)| ==>
      (exists x :: x in rows && key(x) == TopEntries(Aggregate(rows, key, lt, f), k)[i].0) &&
      TopEntries(Aggregate(rows, key, lt, f), k)[i].1 ==
        f(WithKey(rows, key, TopEntries(Aggregate(rows, key, lt, f), k)[i].0))
  {
    var entries := Aggregate(rows, key, lt, f);
    var top := TopEntries(entries, k);
    var ks := Keys(entries);
    forall i | 0 <= i < |top|
      ensures (exists x :: x in rows && key(x) == top[i].0) && top[i].1 == f(WithKey(rows, key, top[i].0))
    {
      var j :| 0 <= j < |entries| && entries[j] == top[i];
      assert ks[j] == top[i].0 && ks[j] in ks;
    }
  }

  /** Each key that occurs has the aggregate entry of its group. */
  lemma AggregateEntryOf<R(!new), K(!new)>(rows: seq<R>, key: R -> K, lt: (K, K) -> bool, f: seq<R> -> real, x: R)
    requires x in rows
    ensures (key(x), f(WithKey(rows, key, key(x)))) in Aggregate(rows, key, lt, f)
  {
    var entries := Aggregate(rows, key, lt, f);
    var ks := Keys(entries);
    assert key(x) in ks;
    var j :| 0 <= j < |ks| && ks[j] == key(x);
    assert entries[j] == (key(x), f(WithKey(rows, key, key(x))));
  }

  lemma TopOfAggregateOmitted<R(!new), K(!new)>(rows: seq<R>, key: R -> K, lt: (K, K) -> bool, f: seq<R> -> real, k: nat)
    ensures forall x :: x in rows && key(x) !in Keys(TopEntries(Aggregate(rows, key, lt, f), k)) ==>
      forall i :: 0 <= i < |TopEntries(Aggregate(rows, key, lt, f), k)| ==>
        TopEntries(Aggregate(rows, key, lt, f), k)[i].1 >= f(WithKey(rows, key, key(x)))
    ensures k >= |UniqueKeys(rows, key, lt)| ==>
      forall x :: x in rows ==> key(x) in Keys(TopEntries(Aggregate(rows, key, lt, f), k))
  {
    var entries := Aggregate(rows, key, lt, f);
    var top := TopEntries(entries, k);
    TopEntriesSelectsLargest(entries, k);
    KeysHold(top);
    forall x | x in rows
      ensures key(x) !in Keys(top) ==> forall i :: 0 <= i < |top| ==> top[i].1 >= f(WithKey(rows, key, key(x)))
      ensures k >= |entries| ==> key(x) in Keys(top)
    {
      AggregateEntryOf(rows, key, lt, f, x);
      var e := (key(x), f(WithKey(rows, key, key(x))));
      var j :| 0 <= j < |entries| && entries[j] == e;
    }
  }
}
