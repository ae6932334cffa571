/** The leaderboard page: the tests of all users are grouped by user into
    one entry each (best speed, best accuracy, number of tests), the
    entries are sorted by speed or by accuracy, best first, and ranked
    1, 2, 3, ... in list order. The averages the page also shows are
    floating-point and are not part of this model. */
module Leaderboard {
  import opened Base

  datatype User = User(id: int, username: string)

  /** A typing test as the page receives it; `user` is present when the
      server included the test's user. */
  datatype ScoredTest = ScoredTest(wpm: int, accuracy: real, user: Option<User>)

  /** What the grouping loop keeps per user. */
  datatype UserStats = UserStats(user: User, bestWpm: int, bestAccuracy: real, totalTests: nat)

  /** One row of the leaderboard. */
  datatype Entry = Entry(rank: int, user: User, wpm: int, accuracy: real, testCount: nat)

  predicate ByUser(t: ScoredTest, id: int) {
    t.user.Some? && t.user.value.id == id
  }

  /** Some test in `ts` belongs to the user with this id. */
  predicate HasTestBy(ts: seq<ScoredTest>, id: int) {
    exists i :: 0 <= i < |ts| && ByUser(ts[i], id)
  }

  predicate Distinct(ids: seq<int>) {
    forall i, j :: 0 <= i < j < |ids| ==> ids[i] != ids[j]
  }

  // ---------------------------------------------------------------------
  // The grouping loop, one test at a time

  /** The body of the grouping loop: a test without a user is skipped; a
      user seen for the first time starts at zero; then the best speed and
      accuracy are raised to the test's and the count goes up by one. */
  function Record(m: map<int, UserStats>, t: ScoredTest): map<int, UserStats> {
    if t.user.None? then m
    else
      var id := t.user.value.id;
      var s := if id in m then m[id] else UserStats(t.user.value, 0, 0.0, 0);
      m[id := s.(bestWpm := Max(s.bestWpm, t.wpm),
                 bestAccuracy := MaxReal(s.bestAccuracy, t.accuracy),
                 totalTests := s.totalTests + 1)]
  }

  /** The per-user statistics after the loop has seen `ts`. */
  function StatsOf(ts: seq<ScoredTest>): (r: map<int, UserStats>)
    ensures forall id :: id in r ==> r[id].user.id == id && r[id].totalTests >= 1
  {
    if ts == [] then map[] else Record(StatsOf(ts[..|ts| - 1]), ts[|ts| - 1])
  }

  /** The keys of the statistics in the order a JavaScript `Map` keeps
      them: the order of first insertion. */
  function UserIds(ts: seq<ScoredTest>): (r: seq<int>)
    ensures |r| <= |ts|
  {
    if ts == [] then []
    else
      var prefix := ts[..|ts| - 1];
      var t := ts[|ts| - 1];
      if t.user.Some? && t.user.value.id !in StatsOf(prefix)
      then UserIds(prefix) + [t.user.value.id]
      else UserIds(prefix)
  }

  /** The leaderboard row for a user's statistics, before ranking. */
  function EntryOf(s: UserStats): Entry {
    Entry(0, s.user, s.bestWpm, s.bestAccuracy, s.totalTests)
  }

  /** The rows built from the statistics, one per id in `order`. */
  function Entries(m: map<int, UserStats>, order: seq<int>): (r: seq<Entry>)
    ensures |r| <= |order|
    ensures (forall id :: id in order ==> id in m) ==> |r| == |order|
    ensures forall i :: 0 <= i < |r| ==> r[i].rank == 0
  {
    if order == [] then []
    else
      var id := order[|order| - 1];
      Entries(m, order[..|order| - 1]) + (if id in m then [EntryOf(m[id])] else [])
  }

  /** The rows `generateLeaderboard` builds from `tests`, before sorting. */
  function Grouped(tests: seq<ScoredTest>): (r: seq<Entry>)
    ensures |r| <= |tests|
    ensures forall i :: 0 <= i < |r| ==> r[i].rank == 0
  {
    Entries(StatsOf(tests), UserIds(tests))
  }

  // ---------------------------------------------------------------------
  // What the grouping computes

  /** There is one key per user that has a test, the insertion order lists
      each key once, and each key's statistics carry that user. */
  lemma {:induction false} StatsKeys(ts: seq<ScoredTest>)
    ensures forall id :: id in StatsOf(ts) <==> id in UserIds(ts)
    ensures forall id :: id in UserIds(ts) <==> HasTestBy(ts, id)
    ensures Distinct(UserIds(ts))
    ensures forall id :: id in StatsOf(ts) ==> StatsOf(ts)[id].user.id == id
  {
    if ts != [] {
      var prefix := ts[..|ts| - 1];
      var t := ts[|ts| - 1];
      StatsKeys(prefix);
      forall id ensures HasTestBy(ts, id) <==> HasTestBy(prefix, id) || ByUser(t, id) {
        if HasTestBy(prefix, id) {
          var i :| 0 <= i < |prefix| && ByUser(prefix[i], id);
          assert ts[i] == prefix[i];
        }
        if HasTestBy(ts, id) {
          var i :| 0 <= i < |ts| && ByUser(ts[i], id);
          if i < |prefix| {
            assert prefix[i] == ts[i];
          }
        }
        if ByUser(t, id) {
          assert ByUser(ts[|ts| - 1], id);
        }
      }
    }
  }

  /** A user's best speed is the largest speed among that user's tests,
      or 0 when all are below 0; the same holds for the best accuracy. */
  lemma {:induction false} BestIsMaximum(ts: seq<ScoredTest>, id: int)
    requires id in StatsOf(ts)
    ensures var s := StatsOf(ts)[id];
      && s.bestWpm >= 0 && s.bestAccuracy >= 0.0
      && (forall i :: 0 <= i < |ts| && ByUser(ts[i], id) ==>
            ts[i].wpm <= s.bestWpm && ts[i].accuracy <= s.bestAccuracy)
      && (s.bestWpm == 0 || exists i :: 0 <= i < |ts| && ByUser(ts[i], id) && ts[i].wpm == s.bestWpm)
      && (s.bestAccuracy == 0.0
          || exists i :: 0 <= i < |ts| && ByUser(ts[i], id) && ts[i].accuracy == s.bestAccuracy)
  {
    var prefix := ts[..|ts| - 1];
    var t := ts[|ts| - 1];
    var last := |ts| - 1;
    var s := StatsOf(ts)[id];
    StatsKeys(prefix);
    if id in StatsOf(prefix) {
      BestIsMaximum(prefix, id);
      var p := StatsOf(prefix)[id];
      forall i | 0 <= i < |ts| && ByUser(ts[i], id)
        ensures ts[i].wpm <= s.bestWpm && ts[i].accuracy <= s.bestAccuracy
      {
        if i < last {
          assert prefix[i] == ts[i];
        }
      }
      if s.bestWpm != 0 {
        if s.bestWpm == p.bestWpm {
          var i :| 0 <= i < |prefix| && ByUser(prefix[i], id) && prefix[i].wpm == p.bestWpm;
          assert ts[i] == prefix[i];
        } else {
          assert ByUser(ts[last], id) && ts[last].wpm == s.bestWpm;
        }
      }
      if s.bestAccuracy != 0.0 {
        if s.bestAccuracy == p.bestAccuracy {
          var i :| 0 <= i < |prefix| && ByUser(prefix[i], id) && prefix[i].accuracy == p.bestAccuracy;
          assert ts[i] == prefix[i];
        } else {
          assert ByUser(ts[last], id) && ts[last].accuracy == s.bestAccuracy;
        }
      }
    } else {
      forall i | 0 <= i < last ensures !ByUser(ts[i], id) {
        assert ts[i] == prefix[i];
      }
      assert ByUser(ts[last], id);
    }
  }

  /** Number of tests in `ts` by the user with this id, counted from the
      front. */
  function CountBy(ts: seq<ScoredTest>, id: int): nat {
    if ts == [] then 0 else (if ByUser(ts[0], id) then 1 else 0) + CountBy(ts[1..], id)
  }

  lemma {:induction false} CountByAppend(ts: seq<ScoredTest>, t: ScoredTest, id: int)
    ensures CountBy(ts + [t], id) == CountBy(ts, id) + (if ByUser(t, id) then 1 else 0)
  {
    if ts != [] {
      assert (ts + [t])[1..] == ts[1..] + [t];
      CountByAppend(ts[1..], t, id);
    }
  }

  /** A user's test count is the number of that user's tests. */
  lemma {:induction false} CountIsNumberOfTests(ts: seq<ScoredTest>, id: int)
    ensures (if id in StatsOf(ts) then StatsOf(ts)[id].totalTests else 0) == CountBy(ts, id)
  {
    if ts != [] {
      var prefix := ts[..|ts| - 1];
      var t := ts[|ts| - 1];
      CountIsNumberOfTests(prefix, id);
      assert prefix + [t] == ts;
      CountByAppend(prefix, t, id);
    }
  }

  /** Sum of the test counts of some rows. */
  function TotalCount(es: seq<Entry>): int {
    if es == [] then 0 else TotalCount(es[..|es| - 1]) + es[|es| - 1].testCount
  }

  /** Number of tests that carry a user. */
  function WithUser(ts: seq<ScoredTest>): nat {
    if ts == [] then 0 else WithUser(ts[..|ts| - 1]) + (if ts[|ts| - 1].user.Some? then 1 else 0)
  }

  lemma {:induction false} EntriesAgree(m: map<int, UserStats>, m': map<int, UserStats>, order: seq<int>)
    requires forall k :: k in order ==> k in m && k in m' && m[k] == m'[k]
    ensures Entries(m, order) == Entries(m', order)
  {
    if order != [] {
      EntriesAgree(m, m', order[..|order| - 1]);
    }
  }

  lemma {:induction false} TotalCountAppend(es: seq<Entry>, e: Entry)
    ensures TotalCount(es + [e]) == TotalCount(es) + e.testCount
  {
    assert (es + [e])[..|es|] == es;
  }

  /** Counting one more test for a user listed once in `order` adds one to
      the total. */
  lemma {:induction false} TotalCountBump(m: map<int, UserStats>, m': map<int, UserStats>, order: seq<int>, id: int)
    requires Distinct(order) && id in order
    requires forall k :: k in order ==> k in m && k in m'
    requires forall k :: k in order && k != id ==> m'[k] == m[k]
    requires m'[id].totalTests == m[id].totalTests + 1
    ensures TotalCount(Entries(m', order)) == TotalCount(Entries(m, order)) + 1
  {
    var prefix := order[..|order| - 1];
    var k := order[|order| - 1];
    TotalCountAppend(Entries(m, prefix), EntryOf(m[k]));
    TotalCountAppend(Entries(m', prefix), EntryOf(m'[k]));
    if k == id {
      forall j | 0 <= j < |prefix| ensures prefix[j] != id {
        assert prefix[j] == order[j];
      }
      EntriesAgree(m, m', prefix);
    } else {
      assert id in prefix by {
        var j :| 0 <= j < |order| && order[j] == id;
        assert j < |order| - 1 && prefix[j] == id;
      }
      TotalCountBump(m, m', prefix, id);
    }
  }

  /** The test counts of the rows add up to the number of tests that carry
      a user: no such test is lost or counted twice. */
  lemma {:induction false} CountsAddUp(ts: seq<ScoredTest>)
    ensures TotalCount(Grouped(ts)) == WithUser(ts)
  {
    if ts != [] {
      var prefix := ts[..|ts| - 1];
      var t := ts[|ts| - 1];
      CountsAddUp(prefix);
      StatsKeys(prefix);
      var m := StatsOf(prefix);
      var m' := StatsOf(ts);
      var order := UserIds(prefix);
      if t.user.Some? {
        var id := t.user.value.id;
        if id in m {
          TotalCountBump(m, m', order, id);
        } else {
          EntriesAgree(m, m', order);
          TotalCountAppend(Entries(m', order), EntryOf(m'[id]));
          assert (order + [id])[..|order|] == order;
        }
      }
    }
  }

  /** With every id of `order` present, the rows follow `order` one to one. */
  lemma {:induction false} EntriesFollowOrder(m: map<int, UserStats>, order: seq<int>)
    requires forall k :: k in order ==> k in m
    ensures |Entries(m, order)| == |order|
    ensures forall i :: 0 <= i < |order| ==> order[i] in m && Entries(m, order)[i] == EntryOf(m[order[i]])
  {
    if order != [] {
      EntriesFollowOrder(m, order[..|order| - 1]);
    }
  }

  /** Some row belongs to the user with this id. */
  predicate HasRowOf(es: seq<Entry>, id: int) {
    exists i :: 0 <= i < |es| && es[i].user.id == id
  }

  /** No user has two rows. */
  predicate OneRowPerUser(es: seq<Entry>) {
    forall i, j :: 0 <= i < j < |es| ==> es[i].user.id != es[j].user.id
  }

  /** The rows are one per user with a test, none twice, each carrying that
      user's statistics. */
  lemma GroupedOnePerUser(ts: seq<ScoredTest>)
    ensures forall id :: HasRowOf(Grouped(ts), id) <==> HasTestBy(ts, id)
    ensures OneRowPerUser(Grouped(ts))
    ensures var g := Grouped(ts);
      forall i :: 0 <= i < |g| ==> g[i].user.id in StatsOf(ts) && g[i] == EntryOf(StatsOf(ts)[g[i].user.id])
  {
    var m := StatsOf(ts);
    var order := UserIds(ts);
    StatsKeys(ts);
    EntriesFollowOrder(m, order);
    var g := Grouped(ts);
    assert forall i :: 0 <= i < |g| ==> g[i].user.id == order[i];
    forall id | HasTestBy(ts, id)
      ensures HasRowOf(g, id)
    {
      var i :| 0 <= i < |order| && order[i] == id;
      assert g[i].user.id == id;
    }
  }

  // ---------------------------------------------------------------------
  // Sorting and ranking

  /** The value a sort compares: the best speed, or the best accuracy. */
  function Key(e: Entry, byWpm: bool): real {
    if byWpm then e.wpm as real else e.accuracy
  }

  /** Best first. */
  predicate SortedDescending(s: seq<Entry>, byWpm: bool) {
    forall p, q :: 0 <= p < q < |s| ==> Key(s[p], byWpm) >= Key(s[q], byWpm)
  }

  /** Ranks are 1, 2, 3, ... in list order. */
  predicate Ranked(s: seq<Entry>) {
    forall i :: 0 <= i < |s| ==> s[i].rank == i + 1
  }

  /** A row with its rank cleared, so that rows can be compared whatever
      their rank. */
  function Unrank(e: Entry): Entry {
    e.(rank := 0)
  }

  function Unranked(s: seq<Entry>): (r: seq<Entry>)
    ensures |r| == |s| && forall i :: 0 <= i < |s| ==> r[i] == Unrank(s[i])
  {
    seq(|s|, i requires 0 <= i < |s| => Unrank(s[i]))
  }

  /** Sorted apart from position j, among the first n rows. */
  predicate SortedExcept(s: seq<Entry>, n: int, j: int, byWpm: bool)
    requires 0 <= n <= |s|
  {
    forall p, q :: 0 <= p < q < n && p != j && q != j ==> Key(s[p], byWpm) >= Key(s[q], byWpm)
  }

  /** The row at j beats every row after it, among the first n rows. */
  predicate BeatsRest(s: seq<Entry>, n: int, j: int, byWpm: bool)
    requires 0 <= j < n <= |s|
  {
    forall q :: j < q < n ==> Key(s[j], byWpm) > Key(s[q], byWpm)
  }

  /** JavaScript `entries.sort((a, b) => b.key - a.key)` in place, as an
      insertion sort: best first, the same rows. */
  method SortByKey(a: array<Entry>, byWpm: bool)
    modifies a
    ensures SortedDescending(a[..], byWpm)
    ensures multiset(a[..]) == multiset(old(a[..]))
    ensures multiset(Unranked(a[..])) == multiset(Unranked(old(a[..])))
  {
    if a.Length == 0 {
      return;
    }
    var i := 1;
    while i < a.Length
      invariant 1 <= i <= a.Length
      invariant SortedDescending(a[..i], byWpm)
      invariant multiset(a[..]) == multiset(old(a[..]))
      invariant multiset(Unranked(a[..])) == multiset(Unranked(old(a[..])))
    {
      InsertLast(a, i, byWpm);
      i := i + 1;
    }
    assert a[..a.Length] == a[..];
  }

  /** One step of the insertion sort: the row at i moves left past every
      row it beats, so that the first i + 1 rows are sorted. */
  method InsertLast(a: array<Entry>, i: int, byWpm: bool)
    requires 0 < i < a.Length
    requires SortedDescending(a[..i], byWpm)
    modifies a
    ensures SortedDescending(a[..i + 1], byWpm)
    ensures multiset(a[..]) == multiset(old(a[..]))
    ensures multiset(Unranked(a[..])) == multiset(Unranked(old(a[..])))
  {
    var j := i;
    ghost var orig := a[..];
    ghost var g := a[..];
    StartInsert(g, i, byWpm);
    while 0 < j && Key(a[j - 1], byWpm) < Key(a[j], byWpm)
      invariant 0 <= j <= i
      invariant g == a[..]
      invariant SortedExcept(g, i + 1, j, byWpm)
      invariant BeatsRest(g, i + 1, j, byWpm)
      invariant multiset(g) == multiset(orig)
      invariant multiset(Unranked(g)) == multiset(Unranked(orig))
    {
      a[j - 1], a[j] := a[j], a[j - 1];
      SwapStep(g, i, j, byWpm);
      g := Swapped(g, j);
      j := j - 1;
    }
    EndInsert(a[..], i, j, byWpm);
  }

  /** The rows with positions j - 1 and j exchanged. */
  function Swapped(s: seq<Entry>, j: int): (r: seq<Entry>)
    requires 0 < j < |s|
    ensures |r| == |s| && multiset(r) == multiset(s)
  {
    s[j - 1 := s[j]][j := s[j - 1]]
  }

  /** Before the inner loop: the row at i is the one out of place. */
  lemma StartInsert(s: seq<Entry>, i: int, byWpm: bool)
    requires 0 < i < |s| && SortedDescending(s[..i], byWpm)
    ensures SortedExcept(s, i + 1, i, byWpm) && BeatsRest(s, i + 1, i, byWpm)
  {
    assert forall p :: 0 <= p < i ==> s[..i][p] == s[p];
  }

  /** Moving the out-of-place row one step left past a row it beats keeps
      the inner loop's invariant. */
  lemma SwapStep(s: seq<Entry>, i: int, j: int, byWpm: bool)
    requires 0 < j <= i < |s|
    requires SortedExcept(s, i + 1, j, byWpm) && BeatsRest(s, i + 1, j, byWpm)
    requires Key(s[j - 1], byWpm) < Key(s[j], byWpm)
    ensures SortedExcept(Swapped(s, j), i + 1, j - 1, byWpm)
    ensures BeatsRest(Swapped(s, j), i + 1, j - 1, byWpm)
    ensures multiset(Unranked(Swapped(s, j))) == multiset(Unranked(s))
  {
    assert Unranked(Swapped(s, j)) == Swapped(Unranked(s), j);
  }

  /** When the out-of-place row meets a row at least as good, or the front,
      the first i + 1 rows are sorted. */
  lemma EndInsert(s: seq<Entry>, i: int, j: int, byWpm: bool)
    requires 0 <= j <= i < |s|
    requires SortedExcept(s, i + 1, j, byWpm) && BeatsRest(s, i + 1, j, byWpm)
    requires j == 0 || Key(s[j - 1], byWpm) >= Key(s[j], byWpm)
    ensures SortedDescending(s[..i + 1], byWpm)
  {
    forall p, q | 0 <= p < q < i + 1
      ensures Key(s[p], byWpm) >= Key(s[q], byWpm)
    {
      if p == j {
      } else if q == j {
        if p < j - 1 {
          assert Key(s[p], byWpm) >= Key(s[j - 1], byWpm);
        }
      }
    }
  }

  /** The rank loop of `sortLeaderboard`: row i gets rank i + 1, nothing
      else changes. */
  method AssignRanks(a: array<Entry>)
    modifies a
    ensures forall i :: 0 <= i < a.Length ==> a[i] == old(a[i]).(rank := i + 1)
    ensures Ranked(a[..]) && Unranked(a[..]) == Unranked(old(a[..]))
  {
    var i := 0;
    while i < a.Length
      invariant 0 <= i <= a.Length
      invariant forall k :: 0 <= k < i ==> a[k] == old(a[k]).(rank := k + 1)
      invariant forall k :: i <= k < a.Length ==> a[k] == old(a[k])
    {
      a[i] := a[i].(rank := i + 1);
      i := i + 1;
    }
  }

  /** Sortedness looks at speeds and accuracies only, so rows that agree up
      to their ranks are sorted alike. */
  lemma SortedUpToRank(s: seq<Entry>, t: seq<Entry>, byWpm: bool)
    requires SortedDescending(s, byWpm) && Unranked(s) == Unranked(t)
    ensures SortedDescending(t, byWpm)
  {
    forall p, q | 0 <= p < q < |t| ensures Key(t[p], byWpm) >= Key(t[q], byWpm) {
      assert Unrank(s[p]) == Unranked(s)[p] == Unranked(t)[p] == Unrank(t[p]);
      assert Unrank(s[q]) == Unranked(s)[q] == Unranked(t)[q] == Unrank(t[q]);
    }
  }

  /** JavaScript `entries.find(e => e.user.id === id)`: the first row of
      that user, if any. */
  function FindUser(s: seq<Entry>, id: int): (r: Option<Entry>)
    ensures r.None? <==> forall i :: 0 <= i < |s| ==> s[i].user.id != id
    ensures r.Some? ==> exists i :: 0 <= i < |s| && s[i] == r.value && s[i].user.id == id
                                    && forall j :: 0 <= j < i ==> s[j].user.id != id
  {
    if s == [] then None
    else if s[0].user.id == id then Some(s[0])
    else
      var r := FindUser(s[1..], id);
      assert forall i :: 1 <= i < |s| ==> s[i] == s[1..][i - 1];
      r
  }

  /** The rank of the first row of that user, or 0 when there is none. */
  function RankOf(s: seq<Entry>, id: int): int {
    match FindUser(s, id)
    case Some(e) => e.rank
    case None => 0
  }

  /** On a ranked list, the rank is 0 exactly when the user has no row,
      and otherwise it is the position (from 1) of the user's first row. */
  lemma RankOfPosition(s: seq<Entry>, id: int)
    requires Ranked(s)
    ensures RankOf(s, id) == 0 <==> forall i :: 0 <= i < |s| ==> s[i].user.id != id
    ensures RankOf(s, id) != 0 ==>
      var r := RankOf(s, id);
      && 1 <= r <= |s| && s[r - 1].user.id == id
      && forall j :: 0 <= j < r - 1 ==> s[j].user.id != id
  {
    var f := FindUser(s, id);
    if f.Some? {
      var i :| 0 <= i < |s| && s[i] == f.value && s[i].user.id == id
               && forall j :: 0 <= j < i ==> s[j].user.id != id;
      assert RankOf(s, id) == i + 1;
    }
  }

  /** `getRankBadgeClass`: gold, silver and bronze for ranks 1 to 3. */
  function RankBadgeClass(rank: int): (r: string)
    ensures r == "badge-gold" <==> rank == 1
    ensures r == "badge-silver" <==> rank == 2
    ensures r == "badge-bronze" <==> rank == 3
    ensures r == "badge-default" <==> rank !in {1, 2, 3}
  {
    if rank == 1 then "badge-gold"
    else if rank == 2 then "badge-silver"
    else if rank == 3 then "badge-bronze"
    else "badge-default"
  }

  /** On a ranked list exactly the first three rows get a medal badge. */
  lemma MedalsForTopThree(s: seq<Entry>)
    requires Ranked(s)
    ensures forall i :: 0 <= i < |s| ==> (RankBadgeClass(s[i].rank) != "badge-default" <==> i < 3)
  {
  }

  /** The grouping loop of `generateLeaderboard`, over a `Map` and the
      order in which its keys were first set. */
  method GroupByUser(tests: seq<ScoredTest>) returns (userStats: map<int, UserStats>, order: seq<int>)
    ensures userStats == StatsOf(tests) && order == UserIds(tests)
  {
    userStats := map[];
    order := [];
    var i := 0;
    while i < |tests|
      invariant 0 <= i <= |tests|
      invariant userStats == StatsOf(tests[..i]) && order == UserIds(tests[..i])
    {
      var test := tests[i];
      assert tests[..i + 1][..i] == tests[..i];
      if test.user.Some? {
        var userId := test.user.value.id;
        if userId !in userStats {
          userStats := userStats[userId := UserStats(test.user.value, 0, 0.0, 0)];
          order := order + [userId];
        }
        var stats := userStats[userId];
        userStats := userStats[userId := stats.(bestWpm := Max(stats.bestWpm, test.wpm),
                                                bestAccuracy := MaxReal(stats.bestAccuracy, test.accuracy),
                                                totalTests := stats.totalTests + 1)];
      }
      i := i + 1;
    }
    assert tests[..|tests|] == tests;
  }

  /** The `entries.push` loop of `generateLeaderboard`: one row per key, in
      key order. */
  method BuildEntries(userStats: map<int, UserStats>, order: seq<int>) returns (entries: seq<Entry>)
    requires forall id :: id in order ==> id in userStats
    ensures entries == Entries(userStats, order)
  {
    entries := [];
    var k := 0;
    while k < |order|
      invariant 0 <= k <= |order|
      invariant entries == Entries(userStats, order[..k])
    {
      var userId := order[k];
      assert userId in order;
      assert order[..k + 1][..k] == order[..k];
      entries := entries + [EntryOf(userStats[userId])];
      k := k + 1;
    }
    assert order[..|order|] == order;
  }

  class LeaderboardComponent {
    var currentUser: Option<User>
    var leaderboardData: array<Entry>
    var activeTab: string

    /** The rows shown are ranked 1..n in list order. */
    predicate Valid()
      reads this, leaderboardData
    {
      Ranked(leaderboardData[..])
    }

    /** The component with the signed-in user and no rows yet. */
    constructor(user: Option<User>)
      ensures currentUser == user && leaderboardData.Length == 0 && activeTab == "wpm"
      ensures Valid()
    {
      currentUser := user;
      leaderboardData := new Entry[0];
      activeTab := "wpm";
    }

    /** `generateLeaderboard`: one row per user with a test, sorted by best
        speed and ranked. */
    method GenerateLeaderboard(tests: seq<ScoredTest>)
      modifies this`leaderboardData
      ensures fresh(leaderboardData) && Valid()
      ensures SortedDescending(leaderboardData[..], true)
      ensures multiset(Unranked(leaderboardData[..])) == multiset(Unranked(Grouped(tests)))
    {
      var userStats, order := GroupByUser(tests);
      StatsKeys(tests);
      var entries := BuildEntries(userStats, order);
      var rows := new Entry[|entries|](i requires 0 <= i < |entries| => entries[i]);
      assert rows[..] == entries;
      SortLeaderboard(rows, "wpm");
      leaderboardData := rows;
    }

    /** `sortLeaderboard`: by best speed or best accuracy, best first, any
        other key keeping the order; then ranks 1..n. */
    method SortLeaderboard(entries: array<Entry>, sortBy: string)
      modifies entries
      ensures sortBy == "wpm" ==> SortedDescending(entries[..], true)
      ensures sortBy == "accuracy" ==> SortedDescending(entries[..], false)
      ensures sortBy != "wpm" && sortBy != "accuracy" ==> Unranked(entries[..]) == Unranked(old(entries[..]))
      ensures multiset(Unranked(entries[..])) == multiset(Unranked(old(entries[..])))
      ensures Ranked(entries[..])
    {
      if sortBy == "wpm" {
        SortByKey(entries, true);
      } else if sortBy == "accuracy" {
        SortByKey(entries, false);
      }
      ghost var sorted := entries[..];
      AssignRanks(entries);
      if sortBy == "wpm" || sortBy == "accuracy" {
        SortedUpToRank(sorted, entries[..], sortBy == "wpm");
      }
    }

    /** `switchTab`: remember the tab and re-sort the rows by it. */
    method SwitchTab(tab: string)
      modifies this`activeTab, leaderboardData
      ensures activeTab == tab && Valid()
      ensures tab == "wpm" ==> SortedDescending(leaderboardData[..], true)
      ensures tab == "accuracy" ==> SortedDescending(leaderboardData[..], false)
      ensures tab != "wpm" && tab != "accuracy" ==> Unranked(leaderboardData[..]) == Unranked(old(leaderboardData[..]))
      ensures multiset(Unranked(leaderboardData[..])) == multiset(Unranked(old(leaderboardData[..])))
    {
      activeTab := tab;
      SortLeaderboard(leaderboardData, tab);
    }

    /** `getUserRank`: the rank of the user's row, 0 when the user has none. */
    function GetUserRank(userId: int): (r: int)
      requires Valid()
      reads this, leaderboardData
      ensures r == 0 <==> forall i :: 0 <= i < leaderboardData.Length ==> leaderboardData[i].user.id != userId
      ensures r != 0 ==> 1 <= r <= leaderboardData.Length && leaderboardData[r - 1].user.id == userId
    {
      RankOfPosition(leaderboardData[..], userId);
      RankOf(leaderboardData[..], userId)
    }

    /** `isCurrentUser`: whether the id is the signed-in user's. */
    predicate IsCurrentUser(userId: int)
      reads this`currentUser
    {
      currentUser.Some? && currentUser.value.id == userId
    }
  }
}
