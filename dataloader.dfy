/** Giving transactions their green / not-green classification by joining them to the
    merchant-category reference table, and narrowing a table to a date range. Both build
    new tables; the caller's tables are never changed. */
module DataLoader {

  import opened Wrappers
  import opened Frames
  import opened Ledger

  /** A transaction table. `hasStatus` and `hasDate` say whether the `status` and `date`
      columns exist; where a column is absent the rows' field for it means nothing. */
  datatype Table = Table(hasStatus: bool, hasDate: bool, rows: seq<Tx>)

  /** The merchant-category reference table: named columns, every one `height` long. */
  datatype Reference = Reference(columns: map<string, seq<Cell>>, height: nat)

  predicate WellFormed(ref: Reference)
  {
    forall name :: name in ref.columns ==> |ref.columns[name]| == ref.height
  }

  /** Column names that may hold the classification, in the order they are tried. */
  const STATUS_ALIASES: seq<string> := ["status", "green_status", "is_green", "color"]

  /** Column names that may hold the merchant category code, in the order they are tried. */
  const CODE_ALIASES: seq<string> := ["mcc_code", "mcc", "mcc_cd"]

  const MISSING_CODE_MESSAGE: string := "MCC data must contain an 'mcc_code' column"

  // ---------------------------------------------------------------------------
  // Column alias resolution
  // ---------------------------------------------------------------------------

  /** Position of the first of `names` that is a column, if any is. */
  function FirstPresent(names: seq<string>, columns: set<string>): (r: Option<nat>)
    ensures r.None? <==> forall j :: 0 <= j < |names| ==> names[j] !in columns
    ensures r.Some? ==> r.value < |names| && names[r.value] in columns
    ensures r.Some? ==> forall j :: 0 <= j < r.value ==> names[j] !in columns
  {
    if names == [] then None
    else if names[0] in columns then Some(0)
    else
      match FirstPresent(names[1..], columns)
      case None => None
      case Some(i) => Some(i + 1)
  }

  /** `map({True: 'green', False: 'not green'})`. The dictionary becomes a lookup keyed by
      a boolean index, which finds only boolean cells: True and False map to the two status
      texts, and every other value, integers 1 and 0 included, becomes NaN. */
  function FlagToStatus(c: Cell): (s: Cell)
    ensures s == Text(GREEN) <==> c == Flag(true)
    ensures s == Text(NOT_GREEN) <==> c == Flag(false)
    ensures s == Missing <==> !c.Flag?
  {
    match c
    case Flag(b) => if b then Text(GREEN) else Text(NOT_GREEN)
    case _ => Missing
  }

  /** The reference table's classification column: the first alias present taken as it is,
      except that a boolean `is_green` column is mapped to the two status texts; with no
      alias present, every reference row is 'not green'. */
  function ResolveStatus(ref: Reference): (status: seq<Cell>)
    requires WellFormed(ref)
    ensures |status| == ref.height
    ensures FirstPresent(STATUS_ALIASES, ref.columns.Keys).None? ==>
      forall i :: 0 <= i < ref.height ==> status[i] == Text(NOT_GREEN)
    ensures FirstPresent(STATUS_ALIASES, ref.columns.Keys).Some? ==>
      var name := STATUS_ALIASES[FirstPresent(STATUS_ALIASES, ref.columns.Keys).value];
      forall i :: 0 <= i < ref.height ==>
        status[i] == if name == "is_green" then FlagToStatus(ref.columns[name][i]) else ref.columns[name][i]
  {
    match FirstPresent(STATUS_ALIASES, ref.columns.Keys)
    case None => seq(ref.height, _ => Text(NOT_GREEN))
    case Some(a) =>
      var column := ref.columns[STATUS_ALIASES[a]];
      if STATUS_ALIASES[a] == "is_green" then
        seq(ref.height, i requires 0 <= i < ref.height => FlagToStatus(column[i]))
      else column
  }

  /** The reference table's code column: the first alias present, or the error raised when
      there is none. */
  function ResolveCodes(ref: Reference): (codes: Result<seq<Cell>>)
    requires WellFormed(ref)
    ensures codes.Err? <==> forall a :: a in CODE_ALIASES ==> a !in ref.columns
    ensures codes.Err? ==> codes.message == MISSING_CODE_MESSAGE
    ensures codes.Ok? ==> exists a :: a in CODE_ALIASES && a in ref.columns && codes.value == ref.columns[a]
    ensures codes.Ok? ==> |codes.value| == ref.height
    ensures "mcc_code" in ref.columns ==> codes == Ok(ref.columns["mcc_code"])
    ensures "mcc_code" !in ref.columns && "mcc" in ref.columns ==> codes == Ok(ref.columns["mcc"])
  {
    match FirstPresent(CODE_ALIASES, ref.columns.Keys)
    case None => Err(MISSING_CODE_MESSAGE)
    case Some(a) =>
      assert CODE_ALIASES[0] == "mcc_code" && CODE_ALIASES[1] == "mcc";
      Ok(ref.columns[CODE_ALIASES[a]])
  }

  // ---------------------------------------------------------------------------
  // Left join on the merchant category code, then fill
  // ---------------------------------------------------------------------------

  /** `fillna('not green')`. */
  function Fill(c: Cell): (r: Cell)
    ensures r != Missing
    ensures c != Missing ==> r == c
  {
    if c == Missing then Text(NOT_GREEN) else c
  }

  /** The positions of the reference rows whose code is `mcc`, in ascending order. */
  function Positions(codes: seq<Cell>, mcc: int): (pos: seq<nat>)
    ensures forall k :: 0 <= k < |pos| ==> pos[k] < |codes| && codes[pos[k]] == Num(mcc)
    ensures forall i :: 0 <= i < |codes| && codes[i] == Num(mcc) ==> i in pos
    ensures forall k, l :: 0 <= k < l < |pos| ==> pos[k] < pos[l]
  {
    if codes == [] then []
    else
      var n := |codes| - 1;
      var rest := Positions(codes[..n], mcc);
      var pos := rest + (if codes[n] == Num(mcc) then [n] else []);
      PositionsStep(codes, mcc, rest, pos);
      pos
  }

  /** The positions of a longer code column: those of all but its last row, then the last
      position when it matches. */
  lemma PositionsStep(codes: seq<Cell>, mcc: int, rest: seq<nat>, pos: seq<nat>)
    requires codes != []
    requires forall k :: 0 <= k < |rest| ==> rest[k] < |codes| - 1 && codes[..|codes| - 1][rest[k]] == Num(mcc)
    requires forall i :: 0 <= i < |codes| - 1 && codes[..|codes| - 1][i] == Num(mcc) ==> i in rest
    requires forall k, l :: 0 <= k < l < |rest| ==> rest[k] < rest[l]
    requires pos == rest + (if codes[|codes| - 1] == Num(mcc) then [|codes| - 1] else [])
    ensures forall k :: 0 <= k < |pos| ==> pos[k] < |codes| && codes[pos[k]] == Num(mcc)
    ensures forall i :: 0 <= i < |codes| && codes[i] == Num(mcc) ==> i in pos
    ensures forall k, l :: 0 <= k < l < |pos| ==> pos[k] < pos[l]
  {
    forall i | 0 <= i < |codes| - 1 && codes[i] == Num(mcc)
      ensures i in pos
    {
      assert codes[..|codes| - 1][i] == codes[i];
    }
  }

  /** The classifications of the reference rows whose code is `mcc`, in reference order. */
  function Matches(codes: seq<Cell>, statuses: seq<Cell>, mcc: int): (found: seq<Cell>)
    requires |codes| == |statuses|
    ensures |found| <= |codes|
  {
    if codes == [] then []
    else
      var n := |codes| - 1;
      Matches(codes[..n], statuses[..n], mcc) + (if codes[n] == Num(mcc) then [statuses[n]] else [])
  }

  /** The matches are exactly the classifications at the matching positions: one per
      reference row whose code is `mcc`, in reference order. */
  lemma {:induction false} MatchesAtPositions(codes: seq<Cell>, statuses: seq<Cell>, mcc: int)
    requires |codes| == |statuses|
    ensures |Matches(codes, statuses, mcc)| == |Positions(codes, mcc)|
    ensures forall k :: 0 <= k < |Positions(codes, mcc)| ==>
      Matches(codes, statuses, mcc)[k] == statuses[Positions(codes, mcc)[k]]
  {
    if codes != [] {
      var n := |codes| - 1;
      MatchesAtPositions(codes[..n], statuses[..n], mcc);
      assert Positions(codes, mcc) ==
        Positions(codes[..n], mcc) + (if codes[n] == Num(mcc) then [n] else []);
    }
  }

  /** The output rows of the left join for one transaction: one per matching reference row,
      in reference order, carrying that row's filled classification; or a single 'not green'
      row when nothing matches. */
  function JoinRow(t: Tx, codes: seq<Cell>, statuses: seq<Cell>): (out: seq<Tx>)
    requires |codes| == |statuses|
    ensures out != []
    ensures forall x :: x in out ==> x == t.(status := x.status) && x.status != Missing
  {
    var found := Matches(codes, statuses, t.mcc);
    if found == [] then [t.(status := Fill(Missing))]
    else seq(|found|, i requires 0 <= i < |found| => t.(status := Fill(found[i])))
  }

  /** The rows of one transaction's join, row by row: a single 'not green' copy when no
      reference row has its code, otherwise one copy per match carrying that match's filled
      classification. */
  lemma JoinRowMatches(t: Tx, codes: seq<Cell>, statuses: seq<Cell>)
    requires |codes| == |statuses|
    ensures var found := Matches(codes, statuses, t.mcc);
      found == [] ==> JoinRow(t, codes, statuses) == [t.(status := Text(NOT_GREEN))]
    ensures var found := Matches(codes, statuses, t.mcc);
      found != [] ==> |JoinRow(t, codes, statuses)| == |found|
    ensures var found := Matches(codes, statuses, t.mcc);
      forall k :: 0 <= k < |found| ==> JoinRow(t, codes, statuses)[k] == t.(status := Fill(found[k]))
  {
  }

  /** `merge(..., how='left')` followed by the fill: each transaction's output rows, in
      transaction order. */
  function Join(rows: seq<Tx>, codes: seq<Cell>, statuses: seq<Cell>): (out: seq<Tx>)
    requires |codes| == |statuses|
    ensures |rows| <= |out|
    ensures forall x :: x in out ==> x.status != Missing
  {
    if rows == [] then []
    else JoinRow(rows[0], codes, statuses) + Join(rows[1..], codes, statuses)
  }

  /** `merge_transaction_with_mcc`. */
  function Merge(t: Table, ref: Reference): (r: Result<Table>)
    requires WellFormed(ref)
    ensures t.hasStatus ==> r == Ok(t)
    ensures !t.hasStatus ==> (r.Err? <==> forall a :: a in CODE_ALIASES ==> a !in ref.columns)
    ensures r.Err? ==> r.message == MISSING_CODE_MESSAGE
    ensures r.Ok? ==> r.value.hasStatus && r.value.hasDate == t.hasDate && |t.rows| <= |r.value.rows|
    ensures r.Ok? && !t.hasStatus ==> forall x :: x in r.value.rows ==> HasStatus(x)
    ensures r.Ok? && !t.hasStatus ==>
      r.value.rows == Join(t.rows, ResolveCodes(ref).value, ResolveStatus(ref))
  {
    if t.hasStatus then Ok(t)
    else
      var statuses := ResolveStatus(ref);
      match ResolveCodes(ref)
      case Err(message) => Err(message)
      case Ok(codes) => Ok(Table(true, t.hasDate, Join(t.rows, codes, statuses)))
  }

  /** A successful merge loses no transaction and invents none: every input row has a copy
      in the output, and every output row is a copy of an input row with at most its status
      changed. */
  lemma MergeKeepsTransactions(t: Table, ref: Reference)
    requires WellFormed(ref) && Merge(t, ref).Ok?
    ensures forall x :: x in t.rows ==> exists y :: y in Merge(t, ref).value.rows && CopyOf(y, x)
    ensures forall y :: y in Merge(t, ref).value.rows ==> exists x :: x in t.rows && CopyOf(y, x)
  {
    if t.hasStatus {
      assert forall x :: x in t.rows ==> CopyOf(x, x);
    } else {
      var codes := ResolveCodes(ref).value;
      var statuses := ResolveStatus(ref);
      JoinDropsNone(t.rows, codes, statuses);
      JoinInventsNone(t.rows, codes, statuses);
    }
  }

  /** Merging a merged table again changes nothing. */
  lemma MergeIdempotent(t: Table, ref: Reference)
    requires WellFormed(ref) && Merge(t, ref).Ok?
    ensures Merge(Merge(t, ref).value, ref) == Merge(t, ref)
  {
  }

  /** The join keeps input order: joining two blocks of rows is joining each in turn. */
  lemma {:induction false} JoinConcat(a: seq<Tx>, b: seq<Tx>, codes: seq<Cell>, statuses: seq<Cell>)
    requires |codes| == |statuses|
    ensures Join(a + b, codes, statuses) == Join(a, codes, statuses) + Join(b, codes, statuses)
  {
    if a == [] {
      assert a + b == b;
    } else {
      var first := JoinRow(a[0], codes, statuses);
      assert (a + b)[0] == a[0] && (a + b)[1..] == a[1..] + b;
      JoinConcat(a[1..], b, codes, statuses);
      calc {
        Join(a + b, codes, statuses);
        first + Join(a[1..] + b, codes, statuses);
        first + (Join(a[1..], codes, statuses) + Join(b, codes, statuses));
        (first + Join(a[1..], codes, statuses)) + Join(b, codes, statuses);
      }
    }
  }

  /** `x` is `t` with, at most, a different status. */
  predicate CopyOf(x: Tx, t: Tx)
  {
    x == t.(status := x.status)
  }

  /** No transaction is dropped: every input row appears in the output with all its fields
      but the status unchanged. */
  lemma {:induction false} JoinDropsNone(rows: seq<Tx>, codes: seq<Cell>, statuses: seq<Cell>)
    requires |codes| == |statuses|
    ensures forall t :: t in rows ==> exists x :: x in Join(rows, codes, statuses) && CopyOf(x, t)
  {
    if rows != [] {
      JoinDropsNone(rows[1..], codes, statuses);
      var first := JoinRow(rows[0], codes, statuses);
      var rest := Join(rows[1..], codes, statuses);
      assert Join(rows, codes, statuses) == first + rest;
      assert CopyOf(first[0], rows[0]);
      forall t | t in rows[1..]
        ensures exists x :: x in first + rest && CopyOf(x, t)
      {
        var x :| x in rest && CopyOf(x, t);
        assert x in first + rest;
      }
      assert forall t :: t in rows ==> t == rows[0] || t in rows[1..];
    }
  }

  /** No transaction is invented: every output row is a copy of an input row with, at most,
      a different status. */
  lemma {:induction false} JoinInventsNone(rows: seq<Tx>, codes: seq<Cell>, statuses: seq<Cell>)
    requires |codes| == |statuses|
    ensures forall x :: x in Join(rows, codes, statuses) ==> exists t :: t in rows && CopyOf(x, t)
  {
    if rows != [] {
      JoinInventsNone(rows[1..], codes, statuses);
      var first := JoinRow(rows[0], codes, statuses);
      var rest := Join(rows[1..], codes, statuses);
      assert Join(rows, codes, statuses) == first + rest;
      forall x | x in first + rest
        ensures exists t :: t in rows && CopyOf(x, t)
      {
        if x in first {
          assert rows[0] in rows && CopyOf(x, rows[0]);
        } else {
          var t :| t in rows[1..] && CopyOf(x, t);
          assert t in rows;
        }
      }
    }
  }

  /** The status a dictionary lookup of the code gives: the first matching reference row's
      classification, filled, or 'not green' when no reference row has the code. */
  function Lookup(codes: seq<Cell>, statuses: seq<Cell>, mcc: int): (s: Cell)
    requires |codes| == |statuses|
    ensures s != Missing
    ensures (forall i :: 0 <= i < |codes| ==> codes[i] != Num(mcc)) ==> s == Text(NOT_GREEN)
    ensures forall i :: 0 <= i < |codes| && codes[i] == Num(mcc) && Num(mcc) !in codes[..i] ==>
      s == Fill(statuses[i])
  {
    if codes == [] then Text(NOT_GREEN)
    else if codes[0] == Num(mcc) then Fill(statuses[0])
    else Lookup(codes[1..], statuses[1..], mcc)
  }

  /** With no code twice in the reference table, the join yields exactly one row per
      transaction, in order, with the status a dictionary lookup of its code gives. */
  lemma {:induction false} JoinUniqueCodes(rows: seq<Tx>, codes: seq<Cell>, statuses: seq<Cell>)
    requires |codes| == |statuses| && Distinct(codes)
    ensures |Join(rows, codes, statuses)| == |rows|
    ensures forall i :: 0 <= i < |rows| ==>
      Join(rows, codes, statuses)[i] == rows[i].(status := Lookup(codes, statuses, rows[i].mcc))
  {
    if rows != [] {
      JoinUniqueCodes(rows[1..], codes, statuses);
      JoinRowUnique(rows[0], codes, statuses);
      var out := Join(rows, codes, statuses);
      assert out == JoinRow(rows[0], codes, statuses) + Join(rows[1..], codes, statuses);
      forall i | 0 <= i < |rows|
        ensures out[i] == rows[i].(status := Lookup(codes, statuses, rows[i].mcc))
      {
        if i > 0 {
          assert out[i] == Join(rows[1..], codes, statuses)[i - 1];
          assert rows[1..][i - 1] == rows[i];
        }
      }
    }
  }

  /** With distinct codes one transaction joins to exactly one row, carrying its lookup. */
  lemma JoinRowUnique(t: Tx, codes: seq<Cell>, statuses: seq<Cell>)
    requires |codes| == |statuses| && Distinct(codes)
    ensures JoinRow(t, codes, statuses) == [t.(status := Lookup(codes, statuses, t.mcc))]
  {
    MatchesUnique(codes, statuses, t.mcc);
    JoinRowMatches(t, codes, statuses);
  }

  /** With distinct codes at most one reference row matches, and the lookup is its filled
      classification. */
  lemma MatchesUnique(codes: seq<Cell>, statuses: seq<Cell>, mcc: int)
    requires |codes| == |statuses| && Distinct(codes)
    ensures Matches(codes, statuses, mcc) == [] ==> Lookup(codes, statuses, mcc) == Text(NOT_GREEN)
    ensures Matches(codes, statuses, mcc) != [] ==>
      |Matches(codes, statuses, mcc)| == 1 && Lookup(codes, statuses, mcc) == Fill(Matches(codes, statuses, mcc)[0])
  {
    MatchesAtPositions(codes, statuses, mcc);
    var pos := Positions(codes, mcc);
    if pos != [] {
      var p := pos[0];
      forall j | 0 <= j < p
        ensures codes[..p][j] != Num(mcc)
      {
      }
    }
  }

  /** A code absent from the reference table matches no row. */
  lemma NoMatches(codes: seq<Cell>, statuses: seq<Cell>, mcc: int)
    requires |codes| == |statuses| && Num(mcc) !in codes
    ensures Matches(codes, statuses, mcc) == []
  {
    MatchesAtPositions(codes, statuses, mcc);
  }

  /** With no code twice in the reference table, merging a table without a status column
      keeps every transaction exactly once, in order, classified by a lookup of its code. */
  lemma MergeUniqueCodes(t: Table, ref: Reference)
    requires WellFormed(ref) && !t.hasStatus && ResolveCodes(ref).Ok?
    requires Distinct(ResolveCodes(ref).value)
    ensures Merge(t, ref).Ok?
    ensures |Merge(t, ref).value.rows| == |t.rows|
    ensures forall i :: 0 <= i < |t.rows| ==>
      Merge(t, ref).value.rows[i] ==
        t.rows[i].(status := Lookup(ResolveCodes(ref).value, ResolveStatus(ref), t.rows[i].mcc))
  {
    JoinUniqueCodes(t.rows, ResolveCodes(ref).value, ResolveStatus(ref));
  }

  // ---------------------------------------------------------------------------
  // Date range
  // ---------------------------------------------------------------------------

  /** The mask `start <= date <= end`. */
  function InRange(start: int, end: int): Tx -> bool
  {
    (t: Tx) => start <= t.date <= end
  }

  /** `filter_data_by_date`: the rows dated within both bounds inclusive, in their original
      order; a table without a date column is returned as it is. */
  function FilterByDate(t: Table, start: int, end: int): (r: Table)
    ensures !t.hasDate ==> r == t
    ensures r.hasStatus == t.hasStatus && r.hasDate == t.hasDate
    ensures t.hasDate ==> forall x :: x in r.rows <==> x in t.rows && start <= x.date <= end
  {
    if t.hasDate then t.(rows := Filter(t.rows, InRange(start, end))) else t
  }

  /** Filtering keeps the order of the rows: filtering two blocks is filtering each. */
  lemma FilterByDateConcat(t: Table, more: seq<Tx>, start: int, end: int)
    ensures FilterByDate(t.(rows := t.rows + more), start, end).rows ==
      FilterByDate(t, start, end).rows + FilterByDate(t.(rows := more), start, end).rows
  {
    if t.hasDate {
      FilterConcat(t.rows, more, InRange(start, end));
    }
  }

  /** Narrowing twice is narrowing once to the intersection of the ranges; in particular
      filtering again with the same range changes nothing. */
  lemma FilterByDateTwice(t: Table, a: int, b: int, c: int, d: int)
    ensures FilterByDate(FilterByDate(t, a, b), c, d) ==
      FilterByDate(t, if a < c then c else a, if b < d then b else d)
  {
    if t.hasDate {
      FilterFilter(t.rows, InRange(a, b), InRange(c, d),
        InRange(if a < c then c else a, if b < d then b else d));
    }
  }
}
