/** The GreenScore figures the dashboard shows: per-client green percentages and their
    fleet-wide mean, the share of active clients, eco points, progress toward the target
    score, a client's rank, activity window and tier, and the rule-based recommendations. */
module Analysis {

  import opened Wrappers
  import opened Frames
  import opened Ledger

  /** A client counts as active from this green percentage on. */
  const ACTIVE_THRESHOLD: real := 20.0

  /** The strategic target GreenScore used when none is given. */
  const DEFAULT_TARGET: real := 20.0

  /** Below this GreenScore the recommendations add the low-score advice. */
  const LOW_SCORE_THRESHOLD: real := 10.0

  // ---------------------------------------------------------------------------
  // Clients
  // ---------------------------------------------------------------------------

  /** `get_unique_users`: the distinct user ids, ascending. */
  function UniqueUsers(rows: seq<Tx>): (users: seq<int>)
    ensures forall u :: u in users <==> exists t :: t in rows && t.user == u
    ensures forall i, j :: 0 <= i < j < |users| ==> users[i] < users[j]
  {
    IntLessIsStrictOrder();
    UniqueKeysIncreasing(rows, UserOf, IntLess);
    UniqueKeys(rows, UserOf, IntLess)
  }

  /** The user list is the only strictly ascending list of exactly the users that occur. */
  lemma UniqueUsersCanonical(rows: seq<Tx>, users: seq<int>)
    requires forall u :: u in users <==> exists t :: t in rows && t.user == u
    requires forall i, j :: 0 <= i < j < |users| ==> users[i] < users[j]
    ensures users == UniqueUsers(rows)
  {
    IntLessIsStrictOrder();
    assert Increasing(users, IntLess);
    assert Increasing(UniqueUsers(rows), IntLess);
    IncreasingUnique(users, UniqueUsers(rows), IntLess);
  }

  /** The user ids 3, 1, 4, 1, 5, 9, 2, 6, 5, 3, 5 give the list 1, 2, 3, 4, 5, 6, 9. */
  lemma UniqueUsersExample(rows: seq<Tx>)
    requires |rows| == 11
    requires forall i :: 0 <= i < 11 ==> rows[i].user == [3, 1, 4, 1, 5, 9, 2, 6, 5, 3, 5][i]
    ensures UniqueUsers(rows) == [1, 2, 3, 4, 5, 6, 9]
  {
    var ids := [3, 1, 4, 1, 5, 9, 2, 6, 5, 3, 5];
    forall u | u in [1, 2, 3, 4, 5, 6, 9]
      ensures exists t :: t in rows && t.user == u
    {
      var i := if u == 1 then 1 else if u == 2 then 6 else if u == 3 then 0 else if u == 4 then 2
        else if u == 5 then 4 else if u == 6 then 7 else 5;
      assert rows[i].user == u;
      assert rows[i] in rows;
    }
    forall u | exists t :: t in rows && t.user == u
      ensures u in [1, 2, 3, 4, 5, 6, 9]
    {
      var t :| t in rows && t.user == u;
      var i :| 0 <= i < 11 && rows[i] == t;
    }
    UniqueUsersCanonical(rows, [1, 2, 3, 4, 5, 6, 9]);
  }

  /** `get_client_greenscore`: the share of the client's rows that are green, in percent;
      rows with a missing status count only in the denominator; 0 for an unknown client. */
  function ClientGreenScore(rows: seq<Tx>, u: int): (score: real)
    ensures 0.0 <= score <= 100.0
  {
    GreenPercent(ClientRows(rows, u))
  }

  /** The score is 0 exactly when none of the client's rows is green (an unknown client
      included), and 100 exactly when the client has rows and all of them are green. */
  lemma ClientGreenScoreExtremes(rows: seq<Tx>, u: int)
    ensures ClientGreenScore(rows, u) == 0.0 <==> forall t :: t in rows && t.user == u ==> !IsGreen(t)
    ensures ClientGreenScore(rows, u) == 100.0 <==>
      (exists t :: t in rows && t.user == u) && forall t :: t in rows && t.user == u ==> IsGreen(t)
  {
    var own := ClientRows(rows, u);
    GreenPercentExtremes(own);
    if own != [] {
      assert own[0] in own;
    }
  }

  function ScoreOf(rows: seq<Tx>): int -> real
  {
    u => ClientGreenScore(rows, u)
  }

  /** `groupby('user_id')['status'].apply(green share * 100)`: each user, ascending, with
      the green percentage of their rows. */
  function UserScores(rows: seq<Tx>): (scores: seq<(int, real)>)
    ensures Keys(scores) == UniqueKeys(rows, UserOf, IntLess)
    ensures forall i :: 0 <= i < |scores| ==> scores[i].1 == GreenPercent(WithKey(rows, UserOf, scores[i].0))
  {
    Aggregate(rows, UserOf, IntLess, GreenPercent)
  }

  /** The grouped percentages are the per-client scores, in the order of the user list. */
  lemma UserScoresAreClientScores(rows: seq<Tx>)
    ensures Keys(UserScores(rows)) == UniqueUsers(rows)
    ensures forall i :: 0 <= i < |UserScores(rows)| ==>
      UserScores(rows)[i].1 == ClientGreenScore(rows, UserScores(rows)[i].0)
  {
  }

  // ---------------------------------------------------------------------------
  // Fleet-wide figures
  // ---------------------------------------------------------------------------

  /** `calculate_average_greenscore`: the unweighted mean of the per-user percentages;
      none (NaN) when there are no rows. */
  function AverageGreenScore(rows: seq<Tx>): (avg: Option<real>)
    ensures avg.None? <==> rows == []
    ensures avg.Some? ==> 0.0 <= avg.value <= 100.0
  {
    var scores := Values(UserScores(rows));
    if scores == [] then
      assert rows != [] ==> rows[0].user in UniqueUsers(rows);
      None
    else
      MeanBounds(scores, 0.0, 100.0);
      Some(Mean(scores))
  }

  /** Each client counts once, whatever their number of rows: the average is the sum of the
      client scores over the user list divided by the number of users. */
  lemma AverageIsMeanOfClients(rows: seq<Tx>)
    requires rows != []
    ensures AverageGreenScore(rows) ==
      Some(SumOf(UniqueUsers(rows), ScoreOf(rows)) / |UniqueUsers(rows)| as real)
  {
    var scores := Values(UserScores(rows));
    var users := UniqueUsers(rows);
    UserScoresAreClientScores(rows);
    SumOfPointwise(scores, Identity, users, ScoreOf(rows));
  }

  /** The five-row table of user ids 1, 1, 2, 2, 3 with statuses green, not green, green,
      green, not green: client 1 is at 50%, client 2 at 100% and client 3 at 0%, so the
      average is 50%. */
  lemma AverageExample(rows: seq<Tx>)
    requires |rows| == 5
    requires rows[0].user == 1 && rows[1].user == 1 && rows[2].user == 2 && rows[3].user == 2
    requires rows[4].user == 3
    requires rows[0].status == Text(GREEN) && rows[1].status == Text(NOT_GREEN)
    requires rows[2].status == Text(GREEN) && rows[3].status == Text(GREEN)
    requires rows[4].status == Text(NOT_GREEN)
    ensures AverageGreenScore(rows) == Some(50.0)
  {
    ExampleUsers(rows);
    ExampleScores(rows);
    assert rows[0] in rows;
    AverageIsMeanOfClients(rows);
    var f := ScoreOf(rows);
    assert f(1) == 50.0 && f(2) == 100.0 && f(3) == 0.0;
    MeanOfThree(f, 3.0);
  }

  lemma MeanOfThree(f: int -> real, n: real)
    requires f(1) == 50.0 && f(2) == 100.0 && f(3) == 0.0 && n == 3.0
    ensures SumOf([1, 2, 3], f) / n == 50.0
  {
    assert [1, 2, 3][1..] == [2, 3] && [2, 3][1..] == [3] && [3][1..] == [];
  }

  /** The example table's user list. */
  lemma ExampleUsers(rows: seq<Tx>)
    requires |rows| == 5
    requires rows[0].user == 1 && rows[1].user == 1 && rows[2].user == 2 && rows[3].user == 2
    requires rows[4].user == 3
    ensures UniqueUsers(rows) == [1, 2, 3]
  {
    forall u | u in [1, 2, 3]
      ensures exists t :: t in rows && t.user == u
    {
      var i := if u == 1 then 0 else if u == 2 then 2 else 4;
      assert rows[i].user == u;
      assert rows[i] in rows;
    }
    forall u | exists t :: t in rows && t.user == u
      ensures u in [1, 2, 3]
    {
      var t :| t in rows && t.user == u;
      var i :| 0 <= i < 5 && rows[i] == t;
      assert i == 0 || i == 1 || i == 2 || i == 3 || i == 4;
    }
    UniqueUsersCanonical(rows, [1, 2, 3]);
  }

  /** The three client scores of the example table. */
  lemma ExampleScores(rows: seq<Tx>)
    requires |rows| == 5
    requires rows[0].user == 1 && rows[1].user == 1 && rows[2].user == 2 && rows[3].user == 2
    requires rows[4].user == 3
    requires rows[0].status == Text(GREEN) && rows[1].status == Text(NOT_GREEN)
    requires rows[2].status == Text(GREEN) && rows[3].status == Text(GREEN)
    requires rows[4].status == Text(NOT_GREEN)
    ensures ClientGreenScore(rows, 1) == 50.0
    ensures ClientGreenScore(rows, 2) == 100.0
    ensures ClientGreenScore(rows, 3) == 0.0
  {
    ExampleClientRows(rows);
    assert ClientGreenScore(rows, 1) == 50.0 by {
      var first := [rows[0], rows[1]];
      assert first[1..] == [rows[1]] && [rows[1]][1..] == [];
      assert Filter(first, IsGreen) == [rows[0]];
    }
    assert ClientGreenScore(rows, 2) == 100.0 by {
      var second := [rows[2], rows[3]];
      assert second[1..] == [rows[3]] && [rows[3]][1..] == [];
      assert Filter(second, IsGreen) == second;
    }
    assert ClientGreenScore(rows, 3) == 0.0 by {
      assert [rows[4]][1..] == [];
      assert Filter([rows[4]], IsGreen) == [];
    }
  }

  /** Splits the example table into the rows of each client. */
  lemma ExampleClientRows(rows: seq<Tx>)
    requires |rows| == 5
    requires rows[0].user == 1 && rows[1].user == 1 && rows[2].user == 2 && rows[3].user == 2
    requires rows[4].user == 3
    ensures ClientRows(rows, 1) == [rows[0], rows[1]]
    ensures ClientRows(rows, 2) == [rows[2], rows[3]]
    ensures ClientRows(rows, 3) == [rows[4]]
  {
    ExampleFirstClient(rows);
    ExampleSecondClient(rows);
    ExampleThirdClient(rows);
  }

  lemma ExampleFirstClient(rows: seq<Tx>)
    requires |rows| == 5
    requires rows[0].user == 1 && rows[1].user == 1 && rows[2].user == 2 && rows[3].user == 2
    requires rows[4].user == 3
    ensures ClientRows(rows, 1) == [rows[0], rows[1]]
  {
    var p := KeyIs(UserOf, 1);
    FilterOfFive(rows, p);
    assert Kept(rows[0], p) == [rows[0]] && Kept(rows[1], p) == [rows[1]] && Kept(rows[2], p) == [] && Kept(rows[3], p) == [] && Kept(rows[4], p) == [];
  }

  lemma ExampleSecondClient(rows: seq<Tx>)
    requires |rows| == 5
    requires rows[0].user == 1 && rows[1].user == 1 && rows[2].user == 2 && rows[3].user == 2
    requires rows[4].user == 3
    ensures ClientRows(rows, 2) == [rows[2], rows[3]]
  {
    var p := KeyIs(UserOf, 2);
    FilterOfFive(rows, p);
    assert Kept(rows[0], p) == [] && Kept(rows[1], p) == [] && Kept(rows[2], p) == [rows[2]] && Kept(rows[3], p) == [rows[3]] && Kept(rows[4], p) == [];
  }

  lemma ExampleThirdClient(rows: seq<Tx>)
    requires |rows| == 5
    requires rows[0].user == 1 && rows[1].user == 1 && rows[2].user == 2 && rows[3].user == 2
    requires rows[4].user == 3
    ensures ClientRows(rows, 3) == [rows[4]]
  {
    var p := KeyIs(UserOf, 3);
    FilterOfFive(rows, p);
    assert Kept(rows[0], p) == [] && Kept(rows[1], p) == [] && Kept(rows[2], p) == [] && Kept(rows[3], p) == [] && Kept(rows[4], p) == [rows[4]];
  }

  /** The row `x` if the mask holds of it, else nothing. */
  function Kept<T>(x: T, p: T -> bool): seq<T>
  {
    if p(x) then [x] else []
  }

  /** A mask over five rows, written out row by row. */
  lemma FilterOfFive<T(!new)>(s: seq<T>, p: T -> bool)
    requires |s| == 5
    ensures Filter(s, p) == Kept(s[0], p) + (Kept(s[1], p) + (Kept(s[2], p) + (Kept(s[3], p) + Kept(s[4], p))))
  {
    assert s[5..] == [] && s[0..] == s;
    FilterStep(s, 4, p);
    assert Filter(s[4..], p) == Kept(s[4], p);
    FilterStep(s, 3, p);
    FilterStep(s, 2, p);
    FilterStep(s, 1, p);
    FilterStep(s, 0, p);
  }

  /** One step of a mask over a suffix of the table. */
  lemma FilterStep<T(!new)>(s: seq<T>, i: int, p: T -> bool)
    requires 0 <= i < |s|
    ensures Filter(s[i..], p) == (if p(s[i]) then [s[i]] else []) + Filter(s[i + 1..], p)
  {
    assert s[i..][0] == s[i] && s[i..][1..] == s[i + 1..];
  }

  function IsActive(score: real): bool { score >= ACTIVE_THRESHOLD }

  function IsActiveIn(rows: seq<Tx>): int -> bool
  {
    u => IsActive(ClientGreenScore(rows, u))
  }

  /** `calculate_active_clients_ratio`: the share of users whose green percentage is at
      least 20, in percent; 0 when there are no users. */
  function ActiveClientsRatio(rows: seq<Tx>): (ratio: real)
    ensures 0.0 <= ratio <= 100.0
    ensures rows == [] ==> ratio == 0.0
  {
    var scores := Values(UserScores(rows));
    Percent(|Filter(scores, IsActive)|, |scores|)
  }

  /** The ratio counts users, not rows: it is the number of users with a score of at least
      20 (inclusive) out of the number of users. */
  lemma ActiveRatioCountsUsers(rows: seq<Tx>)
    ensures |Filter(UniqueUsers(rows), IsActiveIn(rows))| <= |UniqueUsers(rows)|
    ensures ActiveClientsRatio(rows) ==
      Percent(|Filter(UniqueUsers(rows), IsActiveIn(rows))|, |UniqueUsers(rows)|)
  {
    var scores := Values(UserScores(rows));
    UserScoresAreClientScores(rows);
    FilterCountPointwise(scores, IsActive, UniqueUsers(rows), IsActiveIn(rows));
  }

  /** The amount a row contributes to eco points: its amount if green, else nothing. */
  function GreenAmount(t: Tx): real
  {
    if IsGreen(t) then t.amount else 0.0
  }

  /** `calculate_total_eco_points`: the summed amount of the green rows (one point per
      rouble); 0 for no rows. */
  function TotalEcoPoints(rows: seq<Tx>): (points: real)
    ensures rows == [] ==> points == 0.0
    ensures (forall t :: t in rows ==> 0.0 <= t.amount) ==> 0.0 <= points
  {
    var green := Filter(rows, IsGreen);
    SumOfNonNegative(green, AmountOf);
    SumOf(green, AmountOf)
  }

  /** Only green rows earn points: the total is the sum over all rows of each row's green
      amount. */
  lemma EcoPointsCountGreenOnly(rows: seq<Tx>)
    ensures TotalEcoPoints(rows) == SumOf(rows, GreenAmount)
  {
    SumOfFilter(rows, IsGreen, AmountOf, GreenAmount);
  }

  /** The mask `user_id == u and status == 'green'`. */
  function GreenOfUser(u: int): Tx -> bool
  {
    (t: Tx) => t.user == u && IsGreen(t)
  }

  /** `get_client_eco_points`: the summed amount of the client's green rows; 0 for an
      unknown client. */
  function ClientEcoPoints(rows: seq<Tx>, u: int): (points: real)
    ensures (forall t :: t in rows ==> t.user != u) ==> points == 0.0
  {
    var mine := Filter(rows, GreenOfUser(u));
    assert mine != [] ==> mine[0] in mine;
    SumOf(mine, AmountOf)
  }

  /** A client's points are the fleet total taken over that client's rows alone. */
  lemma ClientEcoPointsOwnRows(rows: seq<Tx>, u: int)
    ensures ClientEcoPoints(rows, u) == TotalEcoPoints(ClientRows(rows, u))
  {
    forall x: Tx
      ensures GreenOfUser(u)(x) == (KeyIs(UserOf, u)(x) && IsGreen(x))
    {
      assert GreenOfUser(u)(x) == (x.user == u && IsGreen(x));
      assert KeyIs(UserOf, u)(x) == (UserOf(x) == u);
    }
    FilterFilter(rows, KeyIs(UserOf, u), IsGreen, GreenOfUser(u));
  }

  function EcoPointsOf(rows: seq<Tx>): int -> real
  {
    u => ClientEcoPoints(rows, u)
  }

  /** The fleet total is the sum of the clients' eco points over the user list. */
  lemma TotalEcoPointsByClient(rows: seq<Tx>)
    ensures TotalEcoPoints(rows) == SumOf(UniqueUsers(rows), EcoPointsOf(rows))
  {
    var green := Filter(rows, IsGreen);
    var users := UniqueUsers(rows);
    PartitionSum(green, UserOf, users, AmountOf);
    forall u ensures GroupTotal(green, UserOf, AmountOf)(u) == EcoPointsOf(rows)(u) {
      FilterFilter(rows, IsGreen, KeyIs(UserOf, u), GreenOfUser(u));
    }
    SumOfPointwise(users, GroupTotal(green, UserOf, AmountOf), users, EcoPointsOf(rows));
  }

  /** `calculate_target_progress`: the current score as a percentage of the target, capped
      at 100. A zero target raises a division error; a NaN current score (none) gives NaN. */
  function TargetProgress(current: Option<real>, target: real): (r: Result<Option<real>>)
    ensures r.Err? <==> target == 0.0
    ensures current.None? && target != 0.0 ==> r == Ok(None)
    ensures r.Ok? && r.value.Some? ==> r.value.value <= 100.0
    ensures current.Some? && 0.0 < target <= current.value ==> r == Ok(Some(100.0))
    ensures current.Some? && 0.0 <= current.value < target ==>
      r.Ok? && r.value.Some? && 0.0 <= r.value.value < 100.0 &&
      r.value.value * target == current.value * 100.0
  {
    if target == 0.0 then Err("float division by zero")
    else
      match current
      case None => Ok(None)
      case Some(c) =>
        var ratio := c / target * 100.0;
        Ok(Some(if ratio <= 100.0 then ratio else 100.0))
  }

  /** The documented cases: 10, 20, 25 and 0 against the default target, and 15 against 30. */
  lemma TargetProgressExamples()
    ensures TargetProgress(Some(10.0), DEFAULT_TARGET) == Ok(Some(50.0))
    ensures TargetProgress(Some(20.0), DEFAULT_TARGET) == Ok(Some(100.0))
    ensures TargetProgress(Some(25.0), DEFAULT_TARGET) == Ok(Some(100.0))
    ensures TargetProgress(Some(0.0), DEFAULT_TARGET) == Ok(Some(0.0))
    ensures TargetProgress(Some(15.0), 30.0) == Ok(Some(50.0))
  {
  }

  // ---------------------------------------------------------------------------
  // Ranking
  // ---------------------------------------------------------------------------

  /** The users with their scores, highest score first, ties in ascending user id. */
  function RankedUsers(rows: seq<Tx>): (ranked: seq<(int, real)>)
    ensures |ranked| == |UserScores(rows)|
    ensures forall i :: 0 <= i < |ranked| ==> ranked[i] in UserScores(rows)
    ensures forall i, j :: 0 <= i < j < |ranked| ==> ranked[i].1 >= ranked[j].1
  {
    TopEntries(UserScores(rows), |UserScores(rows)|)
  }

  /** Every ranked entry is a user with their own score. */
  lemma RankedUsersScores(rows: seq<Tx>)
    ensures forall i :: 0 <= i < |RankedUsers(rows)| ==>
      RankedUsers(rows)[i].0 in UniqueUsers(rows) &&
      RankedUsers(rows)[i].1 == ClientGreenScore(rows, RankedUsers(rows)[i].0)
  {
    TopOfAggregateEntries(rows, UserOf, IntLess, GreenPercent, |UserScores(rows)|);
  }

  /** Every user has a ranked entry. */
  lemma RankedUsersComplete(rows: seq<Tx>)
    ensures |RankedUsers(rows)| == |UniqueUsers(rows)|
    ensures forall u :: u in UniqueUsers(rows) ==> u in Keys(RankedUsers(rows))
  {
    var ranked := RankedUsers(rows);
    TopOfAggregateOmitted(rows, UserOf, IntLess, GreenPercent, |UserScores(rows)|);
    forall u | u in UniqueUsers(rows)
      ensures u in Keys(ranked)
    {
      var t :| t in rows && t.user == u;
      assert UserOf(t) == u;
    }
  }

  /** The ranked entries are ordered by score descending, then by user id ascending. */
  lemma RankedUsersOrder(rows: seq<Tx>)
    ensures forall i, j :: 0 <= i < j < |RankedUsers(rows)| ==>
      RankedUsers(rows)[i].1 > RankedUsers(rows)[j].1 ||
      (RankedUsers(rows)[i].1 == RankedUsers(rows)[j].1 && RankedUsers(rows)[i].0 < RankedUsers(rows)[j].0)
  {
    var scores := UserScores(rows);
    IntLessIsStrictOrder();
    UniqueKeysIncreasing(rows, UserOf, IntLess);
    TopEntriesTies(scores, |scores|, IntLess);
  }

  /** The ranked list holds every user exactly once, each with their own score, ordered by
      score descending and then by user id ascending. */
  lemma RankedUsersSpec(rows: seq<Tx>)
    ensures forall u :: u in Keys(RankedUsers(rows)) <==> u in UniqueUsers(rows)
    ensures |RankedUsers(rows)| == |UniqueUsers(rows)|
    ensures Distinct(Keys(RankedUsers(rows)))
    ensures forall i :: 0 <= i < |RankedUsers(rows)| ==>
      RankedUsers(rows)[i].1 == ClientGreenScore(rows, RankedUsers(rows)[i].0)
    ensures forall i, j :: 0 <= i < j < |RankedUsers(rows)| ==>
      RankedUsers(rows)[i].1 > RankedUsers(rows)[j].1 ||
      (RankedUsers(rows)[i].1 == RankedUsers(rows)[j].1 && RankedUsers(rows)[i].0 < RankedUsers(rows)[j].0)
  {
    var ranked := RankedUsers(rows);
    var ks := Keys(ranked);
    RankedUsersScores(rows);
    RankedUsersComplete(rows);
    RankedUsersOrder(rows);
    forall u | u in ks ensures u in UniqueUsers(rows) {
      var i :| 0 <= i < |ks| && ks[i] == u;
    }
  }

  /** `get_client_ranking`: the 1-based position of the client in the ranked list, or one
      past the number of users for a client with no rows. */
  function ClientRanking(rows: seq<Tx>, u: int): (rank: int)
    ensures u !in UniqueUsers(rows) <==> rank == |UniqueUsers(rows)| + 1
    ensures u in UniqueUsers(rows) ==> 1 <= rank <= |UniqueUsers(rows)|
  {
    RankedUsersSpec(rows);
    var ranked := RankedUsers(rows);
    match IndexOf(Keys(ranked), u)
    case Some(i) => i + 1
    case None => |ranked| + 1
  }

  /** Two different clients never share a rank, and one ranks before the other exactly when
      its score is higher, or equal with a smaller user id. */
  lemma RankingOrder(rows: seq<Tx>, u: int, v: int)
    requires u in UniqueUsers(rows) && v in UniqueUsers(rows) && u != v
    ensures ClientRanking(rows, u) != ClientRanking(rows, v)
    ensures ClientRanking(rows, u) < ClientRanking(rows, v) <==>
      ClientGreenScore(rows, u) > ClientGreenScore(rows, v) ||
      (ClientGreenScore(rows, u) == ClientGreenScore(rows, v) && u < v)
  {
    RankedUsersSpec(rows);
    var ranked := RankedUsers(rows);
    var ks := Keys(ranked);
    var pu := IndexOf(ks, u).value;
    var pv := IndexOf(ks, v).value;
    assert ClientRanking(rows, u) == pu + 1 && ClientRanking(rows, v) == pv + 1;
    assert ranked[pu].0 == u && ranked[pv].0 == v;
  }

  /** The ranks of the users are exactly 1 to the number of users. */
  lemma RanksArePermutation(rows: seq<Tx>, r: int)
    requires 1 <= r <= |UniqueUsers(rows)|
    ensures exists u :: u in UniqueUsers(rows) && ClientRanking(rows, u) == r
  {
    RankedUsersSpec(rows);
    var ranked := RankedUsers(rows);
    var ks := Keys(ranked);
    var u := ks[r - 1];
    assert u in ks;
    assert IndexOf(ks, u).value == r - 1;
    assert ClientRanking(rows, u) == r;
  }

  // ---------------------------------------------------------------------------
  // A client's activity window and tier
  // ---------------------------------------------------------------------------

  /** The first and last transaction dates, or `("N/A", "N/A")` when there are none. */
  datatype Activity = NotAvailable | Span(first: int, last: int)

  function EarliestDate(rows: seq<Tx>): (d: int)
    requires rows != []
    ensures exists t :: t in rows && t.date == d
    ensures forall t :: t in rows ==> d <= t.date
  {
    if |rows| == 1 then rows[0].date
    else
      var rest := EarliestDate(rows[1..]);
      assert forall t :: t in rows[1..] ==> t in rows;
      if rows[0].date <= rest then rows[0].date else rest
  }

  function LatestDate(rows: seq<Tx>): (d: int)
    requires rows != []
    ensures exists t :: t in rows && t.date == d
    ensures forall t :: t in rows ==> t.date <= d
  {
    if |rows| == 1 then rows[0].date
    else
      var rest := LatestDate(rows[1..]);
      assert forall t :: t in rows[1..] ==> t in rows;
      if rows[0].date >= rest then rows[0].date else rest
  }

  /** `get_client_activity_period`: the earliest and latest dates of the client's rows;
      not available exactly when the client has none. */
  function ClientActivityPeriod(rows: seq<Tx>, u: int): (a: Activity)
    ensures a.NotAvailable? <==> forall t :: t in rows ==> t.user != u
    ensures a.Span? ==> a.first <= a.last
    ensures a.Span? ==> (exists t :: t in rows && t.user == u && t.date == a.first) &&
                        (exists t :: t in rows && t.user == u && t.date == a.last)
    ensures a.Span? ==> forall t :: t in rows && t.user == u ==> a.first <= t.date <= a.last
  {
    var own := ClientRows(rows, u);
    if own == [] then NotAvailable
    else
      assert own[0] in own;
      Span(EarliestDate(own), LatestDate(own))
  }

  /** The four GreenScore tiers, from the top. */
  datatype Tier = EcoLeader | ActiveParticipant | LearningHabits | Newcomer

  function Label(tier: Tier): string
  {
    match tier
    case EcoLeader => "Эко-лидер"
    case ActiveParticipant => "Активный участник green-программы"
    case LearningHabits => "Осваивает зелёные привычки"
    case Newcomer => "Новичок в устойчивости"
  }

  /** Every tier has its own label: no two labels are even of the same length. */
  lemma LabelInjective(a: Tier, b: Tier)
    ensures Label(a) == Label(b) <==> a == b
  {
    assert |Label(EcoLeader)| == 9 && |Label(ActiveParticipant)| == 33;
    assert |Label(LearningHabits)| == 26 && |Label(Newcomer)| == 22;
  }

  /** 3 for the top tier down to 0 for newcomers. */
  function Level(tier: Tier): nat
  {
    match tier
    case EcoLeader => 3
    case ActiveParticipant => 2
    case LearningHabits => 1
    case Newcomer => 0
  }

  /** `get_client_status`: the tier of a score, thresholds 25, 15 and 5 inclusive. */
  function ClientStatus(score: real): (tier: Tier)
    ensures tier == EcoLeader <==> 25.0 <= score
    ensures tier == ActiveParticipant <==> 15.0 <= score < 25.0
    ensures tier == LearningHabits <==> 5.0 <= score < 15.0
    ensures tier == Newcomer <==> score < 5.0
  {
    if score >= 25.0 then EcoLeader
    else if score >= 15.0 then ActiveParticipant
    else if score >= 5.0 then LearningHabits
    else Newcomer
  }

  /** A higher score never gives a lower tier. */
  lemma ClientStatusMonotone(a: real, b: real)
    requires a <= b
    ensures Level(ClientStatus(a)) <= Level(ClientStatus(b))
  {
  }

  // ---------------------------------------------------------------------------
  // Recommendations
  // ---------------------------------------------------------------------------

  /** The messages a recommendation list is made of. */
  datatype Advice = NoData | Cafe | Fuel | General | LowScore

  const NO_DATA_TEXT: string := "Нет данных для формирования рекомендаций"
  const CAFE_TEXT: string :=
    "Вы часто покупаете кофе в одноразовых стаканчиках. " +
    "Попробуйте кафе с системами многоразовой посуды — это добавляет +10 баллов!"
  const FUEL_TEXT: string :=
    "Вы часто тратитесь на бензин. Рассмотрите возможность использования общественного " +
    "транспорта или каршеринга — это может добавить до +15 баллов!"
  const GENERAL_TEXT: string :=
    "Продолжайте использовать зелёные сервисы! " +
    "Каждая ваша транзакция в экологичных категориях помогает окружающей среде."
  const LOW_SCORE_TEXT: string :=
    "Вы можете увеличить свой GreenScore, выбирая больше экологичных товаров и услуг. " +
    "Начните с малого — например, используйте многоразовые сумки при покупках."

  function Message(advice: Advice): string
  {
    match advice
    case NoData => NO_DATA_TEXT
    case Cafe => CAFE_TEXT
    case Fuel => FUEL_TEXT
    case General => GENERAL_TEXT
    case LowScore => LOW_SCORE_TEXT
  }

  /** Every advice has its own text: no two texts are even of the same length. */
  lemma MessageInjective(a: Advice, b: Advice)
    ensures Message(a) == Message(b) <==> a == b
  {
    assert |NO_DATA_TEXT| == 40 && |CAFE_TEXT| == 126 && |FUEL_TEXT| == 143;
    assert |GENERAL_TEXT| == 116 && |LOW_SCORE_TEXT| == 154;
  }

  /** The texts of a recommendation list, one per advice and in the same order; two entries
      carry the same text exactly when they are the same advice. */
  function Messages(advice: seq<Advice>): (texts: seq<string>)
    ensures |texts| == |advice| && forall i :: 0 <= i < |advice| ==> texts[i] == Message(advice[i])
    ensures forall i, j :: 0 <= i < |advice| && 0 <= j < |advice| ==>
      (texts[i] == texts[j] <==> advice[i] == advice[j])
  {
    var texts := seq(|advice|, i requires 0 <= i < |advice| => Message(advice[i]));
    assert forall i, j :: 0 <= i < |advice| && 0 <= j < |advice| ==>
      (texts[i] == texts[j] <==> advice[i] == advice[j]) by {
      forall i, j | 0 <= i < |advice| && 0 <= j < |advice|
        ensures texts[i] == texts[j] <==> advice[i] == advice[j]
      {
        MessageInjective(advice[i], advice[j]);
      }
    }
    texts
  }

  /** Category keywords of the café advice and of the fuel advice. */
  const CAFE_WORDS: seq<string> := ["кафе", "ресторан", "кофе"]
  const FUEL_WORDS: seq<string> := ["авто", "бензин", "автозаправка"]

  /** The capitals `str.lower()` changes here: Latin A-Z, Cyrillic А-Я and Ё. */
  predicate IsUpper(c: char)
  {
    'A' <= c <= 'Z' || 'А' <= c <= 'Я' || c == 'Ё'
  }

  /** Lower case of one character: Latin A-Z, Cyrillic А-Я and Ё; anything else unchanged. */
  function LowerChar(c: char): char
  {
    if 'A' <= c <= 'Z' then (c as int + 32) as char
    else if 'А' <= c <= 'Я' then (c as int + 32) as char
    else if c == 'Ё' then 'ё'
    else c
  }

  /** `str.lower()`, character by character: no capital is left, every other character is
      kept, and each capital becomes its small letter (32 code points further on, 80 for Ё). */
  function Lower(s: string): (r: string)
    ensures |r| == |s|
    ensures forall i :: 0 <= i < |r| ==> !IsUpper(r[i])
    ensures forall i :: 0 <= i < |s| && !IsUpper(s[i]) ==> r[i] == s[i]
    ensures forall i :: 0 <= i < |s| && IsUpper(s[i]) ==>
      r[i] as int == s[i] as int + (if s[i] == 'Ё' then 80 else 32)
  {
    seq(|s|, i requires 0 <= i < |s| => LowerChar(s[i]))
  }

  /** `word in text`: the word occurs in the text as a contiguous piece. */
  predicate Contains(text: string, word: string)
  {
    word <= text || (text != [] && Contains(text[1..], word))
  }

  /** The word starts at position `i` of the text. */
  predicate OccursAt(text: string, word: string, i: int)
  {
    0 <= i && i + |word| <= |text| && text[i..i + |word|] == word
  }

  /** The recursive test is exactly the search for a position where the word starts. */
  lemma {:induction false} ContainsAt(text: string, word: string)
    ensures Contains(text, word) <==> exists i :: OccursAt(text, word, i)
  {
    if text == [] {
      if word == [] {
        assert OccursAt(text, word, 0);
      }
    } else {
      var rest := text[1..];
      ContainsAt(rest, word);
      if word <= text {
        assert OccursAt(text, word, 0);
      }
      if Contains(rest, word) {
        var i :| OccursAt(rest, word, i);
        assert text[i + 1..i + 1 + |word|] == rest[i..i + |word|];
        assert OccursAt(text, word, i + 1);
      }
      if exists i :: OccursAt(text, word, i) {
        var i :| OccursAt(text, word, i);
        if i == 0 {
          assert word <= text;
        } else {
          assert rest[i - 1..i - 1 + |word|] == text[i..i + |word|];
          assert OccursAt(rest, word, i - 1);
        }
      }
    }
  }

  /** The lower-cased category contains one of the words. */
  predicate Mentions(category: string, words: seq<string>)
  {
    exists i :: 0 <= i < |words| && Contains(Lower(category), words[i])
  }

  /** The advice one category earns: café words are checked before fuel words. */
  function CategoryAdvice(category: string): (advice: Option<Advice>)
    ensures advice == Some(Cafe) <==> Mentions(category, CAFE_WORDS)
    ensures advice == Some(Fuel) <==> !Mentions(category, CAFE_WORDS) && Mentions(category, FUEL_WORDS)
    ensures advice.None? <==> !Mentions(category, CAFE_WORDS) && !Mentions(category, FUEL_WORDS)
  {
    if Mentions(category, CAFE_WORDS) then Some(Cafe)
    else if Mentions(category, FUEL_WORDS) then Some(Fuel)
    else None
  }

  /** The keyword test ignores case and finds words inside longer category names. */
  lemma CategoryAdviceExamples()
    ensures CategoryAdvice("КАФЕ") == Some(Cafe)
    ensures CategoryAdvice("Кофейня") == Some(Cafe)
  {
    assert Lower("КАФЕ") == "кафе";
    assert OccursAt(Lower("КАФЕ"), CAFE_WORDS[0], 0);
    ContainsAt(Lower("КАФЕ"), CAFE_WORDS[0]);
    assert Lower("Кофейня") == "кофейня";
    assert OccursAt(Lower("Кофейня"), CAFE_WORDS[2], 0);
    ContainsAt(Lower("Кофейня"), CAFE_WORDS[2]);
  }

  /** A word is absent when no place it could start holds its first letter. */
  lemma Absent(text: string, word: string)
    requires word != []
    requires forall i :: 0 <= i && i + |word| <= |text| ==> text[i] != word[0]
    ensures !Contains(text, word)
  {
    ContainsAt(text, word);
  }

  /** A fuel word earns the fuel advice only when no café word is present. */
  lemma FuelAdviceExample()
    ensures CategoryAdvice("Автомойка") == Some(Fuel)
  {
    var text := Lower("Автомойка");
    assert text == "автомойка";
    forall i | 0 <= i < |CAFE_WORDS|
      ensures !Contains(text, CAFE_WORDS[i])
    {
      Absent(text, CAFE_WORDS[i]);
    }
    assert !Mentions("Автомойка", CAFE_WORDS);
    assert OccursAt(text, FUEL_WORDS[0], 0);
    ContainsAt(text, FUEL_WORDS[0]);
    assert Mentions("Автомойка", FUEL_WORDS);
  }

  /** The advice of the first category, in order, that earns one; the general advice when
      none does. */
  function FirstAdvice(categories: seq<string>): (advice: Advice)
    ensures advice == Cafe || advice == Fuel || advice == General
  {
    if categories == [] then General
    else
      match CategoryAdvice(categories[0])
      case Some(a) => a
      case None => FirstAdvice(categories[1..])
  }

  /** The first matching category wins: the advice is general exactly when no category earns
      one, and otherwise it is the advice of a category that every earlier category fails to
      earn. */
  lemma {:induction false} FirstAdviceSpec(categories: seq<string>)
    ensures FirstAdvice(categories) == General <==>
      forall i :: 0 <= i < |categories| ==> CategoryAdvice(categories[i]).None?
    ensures FirstAdvice(categories) != General ==>
      exists i :: 0 <= i < |categories| && CategoryAdvice(categories[i]) == Some(FirstAdvice(categories)) &&
        forall j :: 0 <= j < i ==> CategoryAdvice(categories[j]).None?
  {
    if categories != [] {
      var rest := categories[1..];
      FirstAdviceSpec(rest);
      if CategoryAdvice(categories[0]).None? {
        assert forall i :: 0 < i < |categories| ==> categories[i] == rest[i - 1];
        if FirstAdvice(rest) != General {
          var i :| 0 <= i < |rest| && CategoryAdvice(rest[i]) == Some(FirstAdvice(rest)) &&
            forall j :: 0 <= j < i ==> CategoryAdvice(rest[j]).None?;
          assert CategoryAdvice(categories[i + 1]) == Some(FirstAdvice(categories));
        }
      }
    }
  }

  /** What `get_personalized_recommendations` returns, as advice: the no-data message for a
      client without rows; otherwise the advice chosen from the client's top three not-green
      categories by summed amount, followed by the low-score advice when the client's
      GreenScore is below 10. */
  function Recommendations(rows: seq<Tx>, u: int): (advice: seq<Advice>)
    ensures 1 <= |advice| <= 2
    ensures |advice| == 2 ==> advice[1] == LowScore
  {
    var own := ClientRows(rows, u);
    if own == [] then [NoData]
    else
      [FirstAdvice(Keys(TopCategories(Filter(own, IsNotGreen), 3)))] +
      (if ClientGreenScore(rows, u) < LOW_SCORE_THRESHOLD then [LowScore] else [])
  }

  /** One message for a client without rows; otherwise one or two, the first being the
      café, fuel or general advice and the second, present exactly when the GreenScore is
      below 10, the low-score advice. */
  lemma RecommendationsShape(rows: seq<Tx>, u: int)
    ensures (forall t :: t in rows ==> t.user != u) <==> Recommendations(rows, u) == [NoData]
    ensures (exists t :: t in rows && t.user == u) ==>
      var tips := Recommendations(rows, u);
      (|tips| == 1 || |tips| == 2) &&
      (tips[0] == Cafe || tips[0] == Fuel || tips[0] == General) &&
      (|tips| == 2 <==> ClientGreenScore(rows, u) < LOW_SCORE_THRESHOLD) &&
      (|tips| == 2 ==> tips[1] == LowScore)
  {
    var own := ClientRows(rows, u);
    if own != [] {
      assert own[0] in own;
      var first := FirstAdvice(Keys(TopCategories(Filter(own, IsNotGreen), 3)));
      assert Recommendations(rows, u)[0] == first;
    } else {
      assert forall t :: t in rows && t.user == u ==> t in own;
    }
  }

  /** `get_personalized_recommendations`: builds the list of advice the way the source
      builds its list of messages, and returns their texts. */
  method PersonalizedRecommendations(rows: seq<Tx>, u: int) returns (tips: seq<string>)
    ensures tips == Messages(Recommendations(rows, u))
  {
    var own := ClientRows(rows, u);
    if |own| == 0 {
      return Messages([NoData]);
    }
    var advice: seq<Advice> := [];
    var notGreen := Filter(own, IsNotGreen);
    var top := TopCategories(notGreen, 3);
    if |notGreen| > 0 {
      advice := ScanCategories(top);
    } else {
      assert Keys(top) == [] by {
        TopCategoriesSpec(notGreen, 3);
      }
    }
    if advice == [] {
      advice := advice + [General];
    }
    assert advice == [FirstAdvice(Keys(top))];
    var score := ClientGreenScore(rows, u);
    ghost var first := advice;
    if score < LOW_SCORE_THRESHOLD {
      advice := advice + [LowScore];
    }
    assert advice == first + (if score < LOW_SCORE_THRESHOLD then [LowScore] else []);
    assert advice == Recommendations(rows, u);
    return Messages(advice);
  }

  /** The loop over the top categories: stops at the first that earns the café or the fuel
      advice and returns it, or nothing when no category earns one. */
  method ScanCategories(top: seq<(string, real)>) returns (advice: seq<Advice>)
    ensures advice == [] <==> FirstAdvice(Keys(top)) == General
    ensures advice != [] ==> advice == [FirstAdvice(Keys(top))]
  {
    advice := [];
    ghost var categories := Keys(top);
    var i := 0;
    while i < |top|
      invariant 0 <= i <= |top|
      invariant advice == [] ==> FirstAdvice(categories) == FirstAdvice(categories[i..])
      invariant advice != [] ==> FirstAdvice(categories) != General && advice == [FirstAdvice(categories)]
    {
      assert categories[i..][0] == top[i].0 && categories[i..][1..] == categories[i + 1..];
      var earned := CategoryAdvice(top[i].0);
      if earned.Some? {
        advice := advice + [earned.value];
        break;
      }
      i := i + 1;
    }
  }
}
