/** The map leaderboard (`/maptop`): for one map, course, mode and run kind,
    each player's fastest run, fastest first, at most 250 players.

    The handler builds one statement whose only spliced text is the index
    hint and the teleport predicate of the kind; the rest of the request is
    bound. What the database answers is specified here by `IsMapTop`, a
    predicate over the rows, and `MapTop` is a reference answer proved to
    meet it. Runs are given with their map name, course number and mode
    short name already joined in; the model takes those three to name one
    filter. */
module Runs {
  import opened Http
  import opened Sql
  import opened Model

  const NUB_INDEX := "idx_runs__filterid_playerid_ticks_createdat"
  const PRO_INDEX := "idx_runs__filterid_tps_playerid_ticks_createdat"

  /** The teleport predicates spliced into the WHERE clauses. */
  const ANY_TELEPORTS := "1"
  const NO_TELEPORTS := "teleports = 0"

  /** The leaderboard has at most this many players. */
  const MAP_TOP_LIMIT: nat := 250

  /** The query string of `/maptop`. */
  datatype GetMapTop = GetMapTop(mapName: string, course: u32, mode: string, kind: RunKind)

  /** A run row joined with its filter's map name, course number and mode. */
  datatype Run = Run(playerId: u64, mapName: string, course: u32, mode: string,
                     ticks: u32, teleports: u32, createdAt: int)

  /** The tables the query reads: the runs, the players' names (`None` for a
      NULL name, absent for a player with no row), or the error the database
      would report instead. */
  datatype Database = Database(runs: seq<Run>, players: map<u64, Option<string>>, failure: Option<string>)

  /** One ranked player with their best time. */
  datatype Entry = Entry(playerId: u64, ticks: u32)

  // ---------------------------------------------------------------------
  // The kind table and the statement

  /** What the two teleport predicates mean for a run's teleport count. */
  predicate PredicateHolds(fragment: string, teleports: u32)
    ensures PredicateHolds(fragment, teleports) ==> fragment == ANY_TELEPORTS || fragment == NO_TELEPORTS
    ensures PredicateHolds(fragment, teleports) && teleports != 0 ==> fragment == ANY_TELEPORTS
  {
    if fragment == ANY_TELEPORTS then true
    else if fragment == NO_TELEPORTS then teleports == 0
    else false
  }

  /** The index hint and teleport predicate of a kind. NUB admits every run,
      PRO only runs without teleports, and each kind has its own index. */
  function IndexAndPredicate(kind: RunKind): (r: (string, string))
    ensures forall t: u32 :: PredicateHolds(r.1, t) <==> (kind == NUB || t == 0)
    ensures r.0 == (if kind == NUB then NUB_INDEX else PRO_INDEX)
  {
    match kind
    case NUB => (NUB_INDEX, ANY_TELEPORTS)
    case PRO => (PRO_INDEX, NO_TELEPORTS)
  }

  /** The two kinds get different splices. */
  lemma KindsDiffer()
    ensures IndexAndPredicate(NUB).0 != IndexAndPredicate(PRO).0
    ensures IndexAndPredicate(NUB).1 != IndexAndPredicate(PRO).1
  {
    assert |NUB_INDEX| != |PRO_INDEX|;
    assert |ANY_TELEPORTS| != |NO_TELEPORTS|;
  }

  /** The map-top statement: the kind's two table values are spliced in, the
      map name, course and mode are bound. */
  function MapTopStatement(q: GetMapTop): (st: Statement)
    ensures WellFormed(st) && st.template == MapTopByFilter
    ensures st.params == [Text(q.mapName), Unsigned(q.course), Text(q.mode)]
    ensures st.splices == [NUB_INDEX, ANY_TELEPORTS] || st.splices == [PRO_INDEX, NO_TELEPORTS]
  {
    var (index, teleports) := IndexAndPredicate(q.kind);
    Statement(MapTopByFilter, [index, teleports], [Text(q.mapName), Unsigned(q.course), Text(q.mode)])
  }

  /** No request text reaches the statement's spliced text: two requests of
      the same kind splice the same text whatever their map, course and mode. */
  lemma SplicesIgnoreRequestText(q1: GetMapTop, q2: GetMapTop)
    requires q1.kind == q2.kind
    ensures MapTopStatement(q1).splices == MapTopStatement(q2).splices
  {
  }

  /** A run the kind's predicate lets through. */
  predicate Admits(kind: RunKind, run: Run) {
    PredicateHolds(IndexAndPredicate(kind).1, run.teleports)
  }

  /** Every PRO run is a NUB run, and PRO runs are those without teleports. */
  lemma ProWithinNub(run: Run)
    ensures Admits(PRO, run) ==> Admits(NUB, run)
    ensures Admits(PRO, run) <==> run.teleports == 0
  {
    assert PredicateHolds(IndexAndPredicate(PRO).1, run.teleports) <==> run.teleports == 0;
  }

  /** A run on the requested filter that the kind admits. */
  predicate Matching(q: GetMapTop, run: Run)
    ensures Matching(q, run) <==>
              run.mapName == q.mapName && run.course == q.course && run.mode == q.mode
              && (q.kind == NUB || run.teleports == 0)
  {
    run.mapName == q.mapName && run.course == q.course && run.mode == q.mode && Admits(q.kind, run)
  }

  /** The runs the statement's WHERE clauses keep. */
  function Selected(q: GetMapTop, runs: seq<Run>): (sel: seq<Run>)
    ensures forall x :: x in sel <==> x in runs && Matching(q, x)
  {
    if runs == [] then []
    else if Matching(q, runs[0]) then [runs[0]] + Selected(q, runs[1..])
    else Selected(q, runs[1..])
  }

  // ---------------------------------------------------------------------
  // What the answer must be

  /** `t` is the smallest ticks of player `p` among `sel`. */
  ghost predicate IsBest(sel: seq<Run>, p: u64, t: u32) {
    (exists x :: x in sel && x.playerId == p && x.ticks == t)
    && forall x :: x in sel && x.playerId == p ==> t <= x.ticks
  }

  ghost predicate Ranked(top: seq<Entry>, p: u64) {
    exists k :: 0 <= k < |top| && top[k].playerId == p
  }

  predicate DistinctPlayers(top: seq<Entry>) {
    forall i, j :: 0 <= i < j < |top| ==> top[i].playerId != top[j].playerId
  }

  predicate SortedByTicks(top: seq<Entry>) {
    forall i, j :: 0 <= i < j < |top| ==> top[i].ticks <= top[j].ticks
  }

  /** The inner query's answer: one entry per player with their best time,
      fastest first, and a player is left out only when the limit is reached
      by players at least as fast. Ties, at the limit or in the order, may go
      either way. */
  ghost predicate IsRanking(sel: seq<Run>, top: seq<Entry>) {
    |top| <= MAP_TOP_LIMIT
    && DistinctPlayers(top)
    && SortedByTicks(top)
    && (forall k :: 0 <= k < |top| ==> IsBest(sel, top[k].playerId, top[k].ticks))
    && forall x :: x in sel && !Ranked(top, x.playerId) ==>
         |top| == MAP_TOP_LIMIT && forall k :: 0 <= k < |top| ==> top[k].ticks <= x.ticks
  }

  /** A row is a ranked player with a players row, their name, and one of
      their runs at their best time. */
  ghost predicate Represents(row: MapRun, top: seq<Entry>, sel: seq<Run>, players: map<u64, Option<string>>) {
    row.playerId in players && row.playerName == players[row.playerId]
    && (exists k :: 0 <= k < |top| && top[k] == Entry(row.playerId, row.ticks))
    && exists x :: x in sel && x.playerId == row.playerId && x.ticks == row.ticks
                   && x.teleports == row.teleports && x.createdAt == row.createdAt
  }

  predicate DistinctRows(rows: seq<MapRun>) {
    forall i, j :: 0 <= i < j < |rows| ==> rows[i].playerId != rows[j].playerId
  }

  predicate SortedRows(rows: seq<MapRun>) {
    forall i, j :: 0 <= i < j < |rows| ==> rows[i].ticks <= rows[j].ticks
  }

  /** Every ranked player with a players row has a row. */
  ghost predicate Complete(top: seq<Entry>, players: map<u64, Option<string>>, rows: seq<MapRun>) {
    forall k :: 0 <= k < |top| && top[k].playerId in players ==>
      exists j :: 0 <= j < |rows| && rows[j].playerId == top[k].playerId
  }

  /** The outer query's answer: every ranked player that has a players row,
      once, with some run at their best time, fastest first. */
  ghost predicate IsJoin(top: seq<Entry>, sel: seq<Run>, players: map<u64, Option<string>>, rows: seq<MapRun>) {
    SortedRows(rows) && DistinctRows(rows)
    && (forall j :: 0 <= j < |rows| ==> Represents(rows[j], top, sel, players))
    && Complete(top, players, rows)
  }

  /** What the map-top statement answers on the selected runs. */
  ghost predicate IsMapTop(sel: seq<Run>, players: map<u64, Option<string>>, rows: seq<MapRun>) {
    exists top :: IsRanking(sel, top) && IsJoin(top, sel, players, rows)
  }

  // ---------------------------------------------------------------------
  // A reference answer

  function MinTicks(sel: seq<Run>, p: u64): (r: Option<u32>)
    ensures r.None? <==> forall x :: x in sel ==> x.playerId != p
    ensures r.Some? ==> IsBest(sel, p, r.value)
  {
    if sel == [] then None
    else
      var rest := MinTicks(sel[1..], p);
      assert forall x :: x in sel <==> x == sel[0] || x in sel[1..];
      if sel[0].playerId != p then rest
      else if rest.None? || sel[0].ticks <= rest.value then Some(sel[0].ticks)
      else rest
  }

  /** The players of some runs, each once. */
  function PlayerIds(sel: seq<Run>): (ps: seq<u64>)
    ensures forall p :: p in ps <==> exists x :: x in sel && x.playerId == p
    ensures forall i, j :: 0 <= i < j < |ps| ==> ps[i] != ps[j]
  {
    if sel == [] then []
    else
      var rest := PlayerIds(sel[1..]);
      assert forall x :: x in sel <==> x == sel[0] || x in sel[1..];
      if sel[0].playerId in rest then rest else [sel[0].playerId] + rest
  }

  /** Each of `ps` with their best time. */
  function Bests(sel: seq<Run>, ps: seq<u64>): (es: seq<Entry>)
    requires forall p :: p in ps ==> exists x :: x in sel && x.playerId == p
    ensures |es| == |ps|
    ensures forall k :: 0 <= k < |es| ==> es[k].playerId == ps[k] && IsBest(sel, ps[k], es[k].ticks)
  {
    if ps == [] then []
    else
      assert ps[0] in ps;
      assert forall p :: p in ps[1..] ==> p in ps;
      [Entry(ps[0], MinTicks(sel, ps[0]).value)] + Bests(sel, ps[1..])
  }

  /** `e` inserted into a list sorted by ticks, before the first entry that
      is not faster. */
  function Insert(e: Entry, s: seq<Entry>): (r: seq<Entry>)
    ensures multiset(r) == multiset(s) + multiset{e}
    ensures |r| == |s| + 1 && forall x :: x in r <==> x == e || x in s
  {
    if s == [] then [e]
    else if e.ticks <= s[0].ticks then
      assert forall x :: x in s ==> x == s[0] || x in s[1..];
      [e] + s
    else
      var rest := Insert(e, s[1..]);
      assert s == [s[0]] + s[1..];
      assert forall x :: x in s <==> x == s[0] || x in s[1..];
      [s[0]] + rest
  }

  /** Entries sorted by ticks. */
  function SortByTicks(s: seq<Entry>): (r: seq<Entry>)
    ensures multiset(r) == multiset(s)
    ensures |r| == |s| && forall x :: x in r <==> x in s
    ensures SortedByTicks(r)
  {
    if s == [] then []
    else
      assert s == [s[0]] + s[1..];
      assert forall x :: x in s <==> x == s[0] || x in s[1..];
      InsertSorted(s[0], SortByTicks(s[1..]));
      Insert(s[0], SortByTicks(s[1..]))
  }

  lemma {:induction false} InsertSorted(e: Entry, s: seq<Entry>)
    requires SortedByTicks(s)
    ensures SortedByTicks(Insert(e, s))
  {
    if s != [] && e.ticks > s[0].ticks {
      assert SortedByTicks(s[1..]);
      InsertSorted(e, s[1..]);
      var rest := Insert(e, s[1..]);
      var r := Insert(e, s);
      assert r == [s[0]] + rest;
      forall x | x in rest
        ensures s[0].ticks <= x.ticks
      {
        if x != e {
          var m :| 0 <= m < |s[1..]| && s[1..][m] == x;
          assert s[m + 1] == x;
        }
      }
      forall i, j | 0 <= i < j < |r|
        ensures r[i].ticks <= r[j].ticks
      {
        assert r[j] == rest[j - 1];
        assert r[j] in rest;
        if i > 0 {
          assert r[i] == rest[i - 1];
        }
      }
    }
  }

  /** The first run of player `p` at `t` ticks. */
  function Representative(sel: seq<Run>, p: u64, t: u32): (r: Option<Run>)
    ensures r.None? <==> forall x :: x in sel ==> !(x.playerId == p && x.ticks == t)
    ensures r.Some? ==> r.value in sel && r.value.playerId == p && r.value.ticks == t
  {
    if sel == [] then None
    else if sel[0].playerId == p && sel[0].ticks == t then Some(sel[0])
    else
      assert forall x :: x in sel <==> x == sel[0] || x in sel[1..];
      Representative(sel[1..], p, t)
  }

  /** The inner query on the reference side: every player's best, sorted,
      cut at the limit. */
  function Ranking(sel: seq<Run>): (top: seq<Entry>)
    ensures IsRanking(sel, top)
  {
    var es := Bests(sel, PlayerIds(sel));
    var sorted := SortByTicks(es);
    BestsFacts(sel);
    SortDistinct(es);
    SameEntriesBest(sel, es, sorted);
    SameEntriesCover(sel, es, sorted);
    var n := if |sorted| <= MAP_TOP_LIMIT then |sorted| else MAP_TOP_LIMIT;
    PrefixRanking(sel, sorted, n);
    sorted[..n]
  }

  /** The outer query on the reference side: each ranked player with a
      players row, in order, with a representative run. */
  function JoinPlayers(top: seq<Entry>, sel: seq<Run>, players: map<u64, Option<string>>): (rows: seq<MapRun>)
    ensures |rows| <= |top|
    ensures forall j :: 0 <= j < |rows| ==> rows[j].playerId in players && rows[j].playerName == players[rows[j].playerId]
  {
    if top == [] then []
    else
      var rest := JoinPlayers(top[1..], sel, players);
      var p := top[0].playerId;
      if p !in players then rest
      else match Representative(sel, p, top[0].ticks)
        case None => rest
        case Some(x) => [MapRun(p, players[p], x.ticks, x.teleports, x.createdAt)] + rest
  }

  /** A reference answer to the map-top statement. */
  function MapTop(sel: seq<Run>, players: map<u64, Option<string>>): (rows: seq<MapRun>)
    ensures IsMapTop(sel, players, rows)
  {
    var top := Ranking(sel);
    var rows := JoinPlayers(top, sel, players);
    JoinCorrect(top, sel, players);
    assert IsRanking(sel, top) && IsJoin(top, sel, players, rows);
    rows
  }

  // ---------------------------------------------------------------------
  // The reference answer meets the specification

  /** Distinct players are kept through sorting: a permutation by membership
      of a duplicate-free list of the same length. */
  lemma {:induction false} InsertDistinct(e: Entry, s: seq<Entry>)
    requires DistinctPlayers(s) && forall x :: x in s ==> x.playerId != e.playerId
    ensures DistinctPlayers(Insert(e, s))
  {
    if s != [] && e.ticks > s[0].ticks {
      assert forall x :: x in s[1..] ==> x in s;
      InsertDistinct(e, s[1..]);
      var r := Insert(e, s);
      assert r == [s[0]] + Insert(e, s[1..]);
      forall i, j | 0 <= i < j < |r|
        ensures r[i].playerId != r[j].playerId
      {
        if i == 0 {
          assert r[j] in Insert(e, s[1..]);
          assert r[j] == e || r[j] in s[1..];
          if r[j] in s[1..] {
            var m :| 0 <= m < |s[1..]| && s[1..][m] == r[j];
            assert s[m + 1] == r[j];
          }
        }
      }
    } else if s != [] {
      var r := Insert(e, s);
      forall i, j | 0 <= i < j < |r|
        ensures r[i].playerId != r[j].playerId
      {
        if i == 0 {
          assert r[j] == s[j - 1];
          assert r[j] in s;
        } else {
          assert r[i] == s[i - 1] && r[j] == s[j - 1];
        }
      }
    }
  }

  lemma {:induction false} SortDistinct(s: seq<Entry>)
    requires DistinctPlayers(s)
    ensures DistinctPlayers(SortByTicks(s))
  {
    if s != [] {
      assert DistinctPlayers(s[1..]);
      SortDistinct(s[1..]);
      forall x | x in SortByTicks(s[1..])
        ensures x.playerId != s[0].playerId
      {
        assert x in s[1..];
        var m :| 0 <= m < |s[1..]| && s[1..][m] == x;
        assert s[m + 1] == x;
      }
      InsertDistinct(s[0], SortByTicks(s[1..]));
    }
  }

  /** Each entry holds that player's best time. */
  ghost predicate AllBest(sel: seq<Run>, es: seq<Entry>) {
    forall k :: 0 <= k < |es| ==> IsBest(sel, es[k].playerId, es[k].ticks)
  }

  /** Every selected player has an entry no slower than any of their runs. */
  ghost predicate Covers(sel: seq<Run>, es: seq<Entry>) {
    forall x :: x in sel ==>
      exists n :: 0 <= n < |es| && es[n].playerId == x.playerId && es[n].ticks <= x.ticks
  }

  lemma BestsFacts(sel: seq<Run>)
    ensures DistinctPlayers(Bests(sel, PlayerIds(sel)))
    ensures AllBest(sel, Bests(sel, PlayerIds(sel)))
    ensures Covers(sel, Bests(sel, PlayerIds(sel)))
  {
    var ps := PlayerIds(sel);
    var es := Bests(sel, ps);
    forall x | x in sel
      ensures exists n :: 0 <= n < |es| && es[n].playerId == x.playerId && es[n].ticks <= x.ticks
    {
      assert x.playerId in ps;
      var m :| 0 <= m < |ps| && ps[m] == x.playerId;
      assert IsBest(sel, x.playerId, es[m].ticks);
    }
  }

  /** Being best depends only on which entries are present. */
  lemma SameEntriesBest(sel: seq<Run>, a: seq<Entry>, b: seq<Entry>)
    requires forall e :: e in a <==> e in b
    requires AllBest(sel, a)
    ensures AllBest(sel, b)
  {
    forall k | 0 <= k < |b|
      ensures IsBest(sel, b[k].playerId, b[k].ticks)
    {
      assert b[k] in a;
      var m :| 0 <= m < |a| && a[m] == b[k];
    }
  }

  /** Covering depends only on which entries are present. */
  lemma SameEntriesCover(sel: seq<Run>, a: seq<Entry>, b: seq<Entry>)
    requires forall e :: e in a <==> e in b
    requires Covers(sel, a)
    ensures Covers(sel, b)
  {
    forall x | x in sel
      ensures exists n :: 0 <= n < |b| && b[n].playerId == x.playerId && b[n].ticks <= x.ticks
    {
      var m :| 0 <= m < |a| && a[m].playerId == x.playerId && a[m].ticks <= x.ticks;
      assert a[m] in b;
      var n :| 0 <= n < |b| && b[n] == a[m];
    }
  }

  /** A prefix keeps distinctness, order and best times. */
  lemma PrefixKeeps(sel: seq<Run>, sorted: seq<Entry>, n: nat)
    requires n <= |sorted|
    requires DistinctPlayers(sorted) && SortedByTicks(sorted) && AllBest(sel, sorted)
    ensures DistinctPlayers(sorted[..n]) && SortedByTicks(sorted[..n]) && AllBest(sel, sorted[..n])
  {
    assert forall k :: 0 <= k < n ==> sorted[..n][k] == sorted[k];
  }

  /** Cutting a sorted, covering list at the limit leaves out only players
      no faster than every one kept. */
  lemma PrefixExcludes(sel: seq<Run>, sorted: seq<Entry>, n: nat)
    requires n == if |sorted| <= MAP_TOP_LIMIT then |sorted| else MAP_TOP_LIMIT
    requires SortedByTicks(sorted) && Covers(sel, sorted)
    ensures forall x :: x in sel && !Ranked(sorted[..n], x.playerId) ==>
              n == MAP_TOP_LIMIT && forall k :: 0 <= k < n ==> sorted[..n][k].ticks <= x.ticks
  {
    var top := sorted[..n];
    forall x | x in sel && !Ranked(top, x.playerId)
      ensures n == MAP_TOP_LIMIT && forall k :: 0 <= k < n ==> top[k].ticks <= x.ticks
    {
      var m :| 0 <= m < |sorted| && sorted[m].playerId == x.playerId && sorted[m].ticks <= x.ticks;
      assert m >= n;
      forall k | 0 <= k < n
        ensures top[k].ticks <= x.ticks
      {
        assert top[k] == sorted[k];
      }
    }
  }

  /** Cutting a sorted, covering list of best times at the limit ranks. */
  lemma PrefixRanking(sel: seq<Run>, sorted: seq<Entry>, n: nat)
    requires n == if |sorted| <= MAP_TOP_LIMIT then |sorted| else MAP_TOP_LIMIT
    requires DistinctPlayers(sorted) && SortedByTicks(sorted)
    requires AllBest(sel, sorted) && Covers(sel, sorted)
    ensures IsRanking(sel, sorted[..n])
  {
    PrefixKeeps(sel, sorted, n);
    PrefixExcludes(sel, sorted, n);
  }

  /** Each row of the reference join is a ranked player with a players row. */
  lemma {:induction false} JoinRows(top: seq<Entry>, sel: seq<Run>, players: map<u64, Option<string>>)
    ensures forall j :: 0 <= j < |JoinPlayers(top, sel, players)| ==>
              Represents(JoinPlayers(top, sel, players)[j], top, sel, players)
  {
    if top != [] {
      JoinRows(top[1..], sel, players);
      var rest := JoinPlayers(top[1..], sel, players);
      var rows := JoinPlayers(top, sel, players);
      forall j | 0 <= j < |rest|
        ensures Represents(rest[j], top, sel, players)
      {
        assert Represents(rest[j], top[1..], sel, players);
        var k :| 0 <= k < |top[1..]| && top[1..][k] == Entry(rest[j].playerId, rest[j].ticks);
        assert top[k + 1] == Entry(rest[j].playerId, rest[j].ticks);
      }
      if rows != rest {
        assert rows[0].playerId == top[0].playerId && rows[0].ticks == top[0].ticks;
        assert rows == [rows[0]] + rest;
        forall j | 0 <= j < |rows|
          ensures Represents(rows[j], top, sel, players)
        {
          if j > 0 {
            assert rows[j] == rest[j - 1];
          }
        }
      }
    }
  }

  /** The rows of the reference join are drawn, in order, from `top`. */
  lemma {:induction false} JoinOrder(top: seq<Entry>, sel: seq<Run>, players: map<u64, Option<string>>)
    requires SortedByTicks(top) && DistinctPlayers(top)
    ensures SortedRows(JoinPlayers(top, sel, players)) && DistinctRows(JoinPlayers(top, sel, players))
  {
    if top != [] {
      assert SortedByTicks(top[1..]) && DistinctPlayers(top[1..]);
      JoinOrder(top[1..], sel, players);
      JoinRows(top[1..], sel, players);
      var rest := JoinPlayers(top[1..], sel, players);
      var rows := JoinPlayers(top, sel, players);
      if rows != rest {
        assert rows == [rows[0]] + rest;
        forall j | 0 <= j < |rest|
          ensures rows[0].ticks <= rest[j].ticks && rows[0].playerId != rest[j].playerId
        {
          assert Represents(rest[j], top[1..], sel, players);
          var k :| 0 <= k < |top[1..]| && top[1..][k] == Entry(rest[j].playerId, rest[j].ticks);
          assert top[k + 1] == top[1..][k];
        }
        forall i, j | 0 <= i < j < |rows|
          ensures rows[i].ticks <= rows[j].ticks && rows[i].playerId != rows[j].playerId
        {
          assert rows[j] == rest[j - 1];
          if i > 0 {
            assert rows[i] == rest[i - 1];
          }
        }
      }
    }
  }

  /** Every ranked player with a players row gets a row, given each ranked
      entry is that player's best. */
  lemma {:induction false} JoinComplete(top: seq<Entry>, sel: seq<Run>, players: map<u64, Option<string>>)
    requires forall k :: 0 <= k < |top| ==> IsBest(sel, top[k].playerId, top[k].ticks)
    ensures Complete(top, players, JoinPlayers(top, sel, players))
  {
    if top != [] {
      assert forall k :: 0 <= k < |top[1..]| ==> top[1..][k] == top[k + 1];
      JoinComplete(top[1..], sel, players);
      var rest := JoinPlayers(top[1..], sel, players);
      assert Complete(top[1..], players, rest);
      var rows := JoinPlayers(top, sel, players);
      var p := top[0].playerId;
      assert IsBest(sel, p, top[0].ticks);
      var rep := Representative(sel, p, top[0].ticks);
      assert rep.Some?;
      if p in players {
        assert rows == [MapRun(p, players[p], rep.value.ticks, rep.value.teleports, rep.value.createdAt)] + rest;
        forall k | 0 <= k < |top| && top[k].playerId in players
          ensures exists j :: 0 <= j < |rows| && rows[j].playerId == top[k].playerId
        {
          if k == 0 {
            assert rows[0].playerId == top[0].playerId;
          } else {
            assert top[k] == top[1..][k - 1];
            var j :| 0 <= j < |rest| && rest[j].playerId == top[k].playerId;
            assert rows[j + 1] == rest[j];
          }
        }
      } else {
        assert rows == rest;
        forall k | 0 <= k < |top| && top[k].playerId in players
          ensures exists j :: 0 <= j < |rows| && rows[j].playerId == top[k].playerId
        {
          assert k != 0;
          assert top[k] == top[1..][k - 1];
        }
      }
    }
  }

  lemma JoinCorrect(top: seq<Entry>, sel: seq<Run>, players: map<u64, Option<string>>)
    requires IsRanking(sel, top)
    ensures IsJoin(top, sel, players, JoinPlayers(top, sel, players))
  {
    JoinRows(top, sel, players);
    JoinOrder(top, sel, players);
    JoinComplete(top, sel, players);
  }

  // ---------------------------------------------------------------------
  // What every answer gives the client

  function RowIds(rows: seq<MapRun>): (ids: seq<u64>)
    ensures |ids| == |rows| && forall j :: 0 <= j < |rows| ==> ids[j] == rows[j].playerId
  {
    seq(|rows|, j requires 0 <= j < |rows| => rows[j].playerId)
  }

  function EntryIds(top: seq<Entry>): (ids: seq<u64>)
    ensures |ids| == |top| && forall k :: 0 <= k < |top| ==> ids[k] == top[k].playerId
  {
    seq(|top|, k requires 0 <= k < |top| => top[k].playerId)
  }

  ghost function Elems(s: seq<u64>): set<u64> {
    set x | x in s
  }

  predicate DistinctIds(s: seq<u64>) {
    forall i, j :: 0 <= i < j < |s| ==> s[i] != s[j]
  }

  /** A list has at least as many places as distinct values, and exactly as
      many when its values are distinct. */
  lemma {:induction false} SeqSetCard(s: seq<u64>)
    ensures |Elems(s)| <= |s|
    ensures DistinctIds(s) ==> |Elems(s)| == |s|
  {
    if s != [] {
      SeqSetCard(s[1..]);
      var rest := Elems(s[1..]);
      assert Elems(s) == rest + {s[0]};
      if s[0] in rest {
        assert Elems(s) == rest;
        var m :| 0 <= m < |s[1..]| && s[1..][m] == s[0];
        assert s[m + 1] == s[0];
      } else {
        assert |rest + {s[0]}| == |rest| + 1;
        if DistinctIds(s) {
          forall i, j | 0 <= i < j < |s[1..]|
            ensures s[1..][i] != s[1..][j]
          {
            assert s[1..][i] == s[i + 1] && s[1..][j] == s[j + 1];
          }
          assert DistinctIds(s[1..]);
        }
      }
    }
  }

  lemma {:induction false} SubsetCard(a: set<u64>, b: set<u64>)
    requires a <= b
    ensures |a| <= |b|
  {
    if a != {} {
      var x :| x in a;
      SubsetCard(a - {x}, b - {x});
    }
  }

  /** A duplicate-free list whose values all occur in another list, which
      also holds a value the first lacks, is the shorter. */
  lemma DistinctInside(a: seq<u64>, b: seq<u64>, y: u64)
    requires DistinctIds(a) && Elems(a) <= Elems(b)
    requires y in b && y !in a
    ensures |a| < |b|
  {
    SeqSetCard(a);
    SeqSetCard(b);
    assert y in Elems(b) && y !in Elems(a);
    assert |Elems(a) + {y}| == |Elems(a)| + 1;
    SubsetCard(Elems(a) + {y}, Elems(b));
  }

  /** The join has no more rows than the ranking has players. */
  lemma JoinLength(top: seq<Entry>, sel: seq<Run>, players: map<u64, Option<string>>, rows: seq<MapRun>)
    requires IsJoin(top, sel, players, rows)
    ensures |rows| <= |top|
  {
    var rowIds := RowIds(rows);
    var topIds := EntryIds(top);
    SeqSetCard(rowIds);
    SeqSetCard(topIds);
    assert DistinctIds(rowIds);
    forall y | y in Elems(rowIds)
      ensures y in Elems(topIds)
    {
      var j :| 0 <= j < |rowIds| && rowIds[j] == y;
      assert Represents(rows[j], top, sel, players);
      var k :| 0 <= k < |top| && top[k] == Entry(rows[j].playerId, rows[j].ticks);
      assert topIds[k] == y;
    }
    SubsetCard(Elems(rowIds), Elems(topIds));
  }

  /** Every ranked player is a selected player. */
  lemma RankedAreSelected(sel: seq<Run>, top: seq<Entry>)
    requires AllBest(sel, top)
    ensures Elems(EntryIds(top)) <= Elems(PlayerIds(sel))
  {
    forall y | y in Elems(EntryIds(top))
      ensures y in Elems(PlayerIds(sel))
    {
      var k :| 0 <= k < |top| && EntryIds(top)[k] == y;
      assert IsBest(sel, top[k].playerId, top[k].ticks);
    }
  }

  /** With at most 250 selected players, the ranking holds all of them. */
  lemma RankedWhenFew(sel: seq<Run>, top: seq<Entry>)
    requires IsRanking(sel, top)
    requires |PlayerIds(sel)| <= MAP_TOP_LIMIT
    ensures forall x :: x in sel ==> Ranked(top, x.playerId)
  {
    assert AllBest(sel, top);
    RankedAreSelected(sel, top);
    forall x | x in sel
      ensures Ranked(top, x.playerId)
    {
      if !Ranked(top, x.playerId) {
        assert |top| == MAP_TOP_LIMIT;
        assert DistinctIds(EntryIds(top));
        DistinctInside(EntryIds(top), PlayerIds(sel), x.playerId);
      }
    }
  }

  /** Whatever rows the database returns: at most 250, fastest first, one per
      player. */
  lemma MapTopShape(sel: seq<Run>, players: map<u64, Option<string>>, rows: seq<MapRun>)
    requires IsMapTop(sel, players, rows)
    ensures |rows| <= MAP_TOP_LIMIT
    ensures SortedRows(rows) && DistinctRows(rows)
  {
    var top: seq<Entry> :| IsRanking(sel, top) && IsJoin(top, sel, players, rows);
    JoinLength(top, sel, players, rows);
  }

  /** Whatever rows the database returns, each is a player with a players row
      and their name, at that player's best time over the runs the filter and
      kind select, copied from one such run; a PRO row has no teleports. */
  lemma MapTopRows(q: GetMapTop, db: Database, rows: seq<MapRun>)
    requires IsMapTop(Selected(q, db.runs), db.players, rows)
    ensures forall j :: 0 <= j < |rows| ==>
              && rows[j].playerId in db.players
              && rows[j].playerName == db.players[rows[j].playerId]
              && IsBest(Selected(q, db.runs), rows[j].playerId, rows[j].ticks)
              && (exists x :: x in db.runs && Matching(q, x) && x.playerId == rows[j].playerId
                             && x.ticks == rows[j].ticks && x.teleports == rows[j].teleports
                             && x.createdAt == rows[j].createdAt)
              && (q.kind == PRO ==> rows[j].teleports == 0)
  {
    var sel := Selected(q, db.runs);
    var top: seq<Entry> :| IsRanking(sel, top) && IsJoin(top, sel, db.players, rows);
    forall j | 0 <= j < |rows|
      ensures IsBest(sel, rows[j].playerId, rows[j].ticks)
      ensures q.kind == PRO ==> rows[j].teleports == 0
    {
      assert Represents(rows[j], top, sel, db.players);
      var k :| 0 <= k < |top| && top[k] == Entry(rows[j].playerId, rows[j].ticks);
      var x :| x in sel && x.playerId == rows[j].playerId && x.ticks == rows[j].ticks
               && x.teleports == rows[j].teleports && x.createdAt == rows[j].createdAt;
      ProWithinNub(x);
    }
  }

  /** A selected player with a players row who is missing from the answer is
      no faster than anyone in it. */
  lemma MapTopKeepsFastest(q: GetMapTop, db: Database, rows: seq<MapRun>)
    requires IsMapTop(Selected(q, db.runs), db.players, rows)
    ensures forall x :: x in db.runs && Matching(q, x) && x.playerId in db.players
                        && x.playerId !in RowIds(rows) ==>
              forall j :: 0 <= j < |rows| ==> rows[j].ticks <= x.ticks
  {
    var sel := Selected(q, db.runs);
    var top: seq<Entry> :| IsRanking(sel, top) && IsJoin(top, sel, db.players, rows);
    forall x, j | x in db.runs && Matching(q, x) && x.playerId in db.players
                  && x.playerId !in RowIds(rows) && 0 <= j < |rows|
      ensures rows[j].ticks <= x.ticks
    {
      assert x in sel;
      assert Represents(rows[j], top, sel, db.players);
      var k :| 0 <= k < |top| && top[k] == Entry(rows[j].playerId, rows[j].ticks);
    }
  }

  /** Every ranked player with a players row has a row of the join. */
  lemma JoinHasRanked(top: seq<Entry>, sel: seq<Run>, players: map<u64, Option<string>>, rows: seq<MapRun>)
    requires IsJoin(top, sel, players, rows)
    ensures forall p :: Ranked(top, p) && p in players ==> p in RowIds(rows)
  {
    forall p | Ranked(top, p) && p in players
      ensures p in RowIds(rows)
    {
      var k :| 0 <= k < |top| && top[k].playerId == p;
      assert Complete(top, players, rows);
      var i :| 0 <= i < |rows| && rows[i].playerId == top[k].playerId;
      assert RowIds(rows)[i] == p;
    }
  }

  /** With at most 250 players in the selection, every one of them that has
      a players row is in the answer. */
  lemma MapTopAllWhenFew(q: GetMapTop, db: Database, rows: seq<MapRun>)
    requires IsMapTop(Selected(q, db.runs), db.players, rows)
    requires |PlayerIds(Selected(q, db.runs))| <= MAP_TOP_LIMIT
    ensures forall x :: x in db.runs && Matching(q, x) && x.playerId in db.players ==>
              x.playerId in RowIds(rows)
  {
    var sel := Selected(q, db.runs);
    var top: seq<Entry> :| IsRanking(sel, top) && IsJoin(top, sel, db.players, rows);
    RankedWhenFew(sel, top);
    JoinHasRanked(top, sel, db.players, rows);
    forall x | x in db.runs && Matching(q, x) && x.playerId in db.players
      ensures x.playerId in RowIds(rows)
    {
      assert x in sel;
    }
  }

  // ---------------------------------------------------------------------
  // The handler

  /** A run the WHERE clauses of a map-top statement keep: its bound map
      name, course and mode, and its spliced teleport predicate. The index
      hint only steers the plan. */
  predicate StatementSelects(st: Statement, run: Run) {
    WellFormed(st) && st.template == MapTopByFilter
    && st.params[0] == Text(run.mapName)
    && st.params[1] == Unsigned(run.course)
    && st.params[2] == Text(run.mode)
    && PredicateHolds(st.splices[1], run.teleports)
  }

  /** The runs a map-top statement selects. */
  function Execute(st: Statement, runs: seq<Run>): (sel: seq<Run>)
    ensures forall x :: x in sel <==> x in runs && StatementSelects(st, x)
  {
    if runs == [] then []
    else if StatementSelects(st, runs[0]) then [runs[0]] + Execute(st, runs[1..])
    else Execute(st, runs[1..])
  }

  /** The statement the handler builds selects exactly the runs the request
      names. */
  lemma {:induction false} ExecuteMapTopStatement(q: GetMapTop, runs: seq<Run>)
    ensures Execute(MapTopStatement(q), runs) == Selected(q, runs)
  {
    if runs != [] {
      ExecuteMapTopStatement(q, runs[1..]);
      assert StatementSelects(MapTopStatement(q), runs[0]) <==> Matching(q, runs[0]);
    }
  }

  /** `/maptop`: the database's error as a 500, or the leaderboard the
      handler's statement selects. */
  function GetMapTopHandler(q: GetMapTop, db: Database): (r: Result<seq<MapRun>, HttpError>)
    ensures db.failure.Some? ==> r == Failure(InternalServerError(db.failure.value))
    ensures db.failure.None? ==> r.Success? && IsMapTop(Selected(q, db.runs), db.players, r.value)
  {
    match db.failure
    case Some(e) => Failure(InternalServerError(e))
    case None =>
      ExecuteMapTopStatement(q, db.runs);
      Success(MapTop(Execute(MapTopStatement(q), db.runs), db.players))
  }
}
