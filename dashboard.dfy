/**
  The dashboard's analysis (`GameplayAnalyzer` in frontend/app.py): it diffs
  whole library snapshots pairwise, then totals the increases per game name,
  counts activity per hour of day, and buckets the per-game totals into the
  ten largest plus one "其他" ("other") slice for the pie chart.
 */
module Dashboard {
  import opened Wrappers
  import opened PyStrings
  import opened Sorting

  /** One entry of a snapshot's `games` list; `None` fields are keys the entry lacks. */
  datatype Game = Game(appid: int, name: Option<string>, playtimeForever: Option<int>)

  /** One stored snapshot: its time and its `games_data.get('games', [])`. */
  datatype Frame = Frame(snapshotTime: int, games: seq<Game>)

  /** One entry of `gameplay_records`. */
  datatype Record = Record(
    gameId: int,
    gameName: string,
    startTime: int,
    endTime: int,
    playtimeIncrease: int,
    totalPlaytime: int)

  /** `game.get('playtime_forever', 0)`. */
  function Playtime(g: Game): int {
    g.playtimeForever.GetOr(0)
  }

  /** `game.get('name', f'Game {appid}')`: an empty name present in the entry is kept. */
  function DisplayName(g: Game): string {
    match g.name
    case Some(n) => n
    case None => "Game " + IntToString(g.appid)
  }

  /** `{game['appid']: game for game in games}`: the last entry of each appid wins. */
  function Index(games: seq<Game>): (m: map<int, Game>)
    ensures forall a :: a in m ==> m[a].appid == a
  {
    if games == [] then map[]
    else Index(games[..|games| - 1])[games[|games| - 1].appid := games[|games| - 1]]
  }

  /** The dict's keys are the appids the list carries, and each maps to the last entry with that appid. */
  lemma {:induction false} IndexLastWins(games: seq<Game>, k: nat)
    requires k < |games|
    ensures games[k].appid in Index(games)
    ensures (forall j :: k < j < |games| ==> games[j].appid != games[k].appid) ==> Index(games)[games[k].appid] == games[k]
  {
    var init := games[..|games| - 1];
    if k < |init| {
      assert init[k] == games[k];
      IndexLastWins(init, k);
      if forall j :: k < j < |games| ==> games[j].appid != games[k].appid {
        assert forall j :: k < j < |init| ==> init[j] == games[j];
      }
    }
  }

  lemma {:induction false} IndexDomain(games: seq<Game>, a: int)
    ensures a in Index(games) <==> exists k :: 0 <= k < |games| && games[k].appid == a
  {
    if games != [] {
      var init := games[..|games| - 1];
      IndexDomain(init, a);
      if exists k :: 0 <= k < |games| && games[k].appid == a {
        var k :| 0 <= k < |games| && games[k].appid == a;
        if k < |init| {
          assert init[k] == games[k];
        }
      }
      if exists k :: 0 <= k < |init| && init[k].appid == a {
        var k :| 0 <= k < |init| && init[k].appid == a;
        assert games[k] == init[k];
      }
    }
  }

  /** The key order of that dict: each appid once, at its first appearance. */
  function Keys(games: seq<Game>): (keys: seq<int>)
    ensures forall i, j :: 0 <= i < j < |keys| ==> keys[i] != keys[j]
    ensures forall a :: a in keys <==> a in Index(games)
  {
    if games == [] then []
    else
      var keys := Keys(games[..|games| - 1]);
      var last := games[|games| - 1];
      if last.appid in keys then keys else keys + [last.appid]
  }

  /** `prev_games.get(appid, {}).get('playtime_forever', 0)`: a game the earlier snapshot lacks counts as 0. */
  function PrevPlaytime(prevIdx: map<int, Game>, appid: int): int {
    if appid in prevIdx then Playtime(prevIdx[appid]) else 0
  }

  /** The record for one game of the later snapshot, if its counter went up. */
  function RecordFor(appid: int, prevIdx: map<int, Game>, curIdx: map<int, Game>, t0: int, t1: int): seq<Record>
    requires appid in curIdx
  {
    var c := Playtime(curIdx[appid]);
    var d := c - PrevPlaytime(prevIdx, appid);
    if d > 0 then [Record(appid, DisplayName(curIdx[appid]), t0, t1, d, c)] else []
  }

  /** The records for the games `keys`, in that order. */
  function RecordsFor(keys: seq<int>, prevIdx: map<int, Game>, curIdx: map<int, Game>, t0: int, t1: int): seq<Record>
    requires forall a :: a in keys ==> a in curIdx
  {
    if keys == [] then []
    else
      RecordsFor(keys[..|keys| - 1], prevIdx, curIdx, t0, t1)
      + RecordFor(keys[|keys| - 1], prevIdx, curIdx, t0, t1)
  }

  /** The records one adjacent pair of snapshots yields. */
  function PairRecords(prev: Frame, cur: Frame): seq<Record> {
    RecordsFor(Keys(cur.games), Index(prev.games), Index(cur.games), prev.snapshotTime, cur.snapshotTime)
  }

  /** All records, pair after pair. */
  function Changes(frames: seq<Frame>): (r: seq<Record>)
    ensures |frames| < 2 ==> r == []
  {
    Pairwise(PairRecords, frames)
  }

  /** `f` of each adjacent pair of `xs`, concatenated in order. */
  function Pairwise<T, U>(f: (T, T) -> seq<U>, xs: seq<T>): (r: seq<U>)
    ensures |xs| < 2 ==> r == []
  {
    if |xs| < 2 then [] else Pairwise(f, xs[..|xs| - 1]) + f(xs[|xs| - 2], xs[|xs| - 1])
  }

  lemma PairwiseSnoc<T, U>(f: (T, T) -> seq<U>, xs: seq<T>, i: nat)
    requires 1 <= i < |xs|
    ensures Pairwise(f, xs[..i + 1]) == Pairwise(f, xs[..i]) + f(xs[i - 1], xs[i])
  {
    var ys := xs[..i + 1];
    assert ys[..i] == xs[..i] && ys[i - 1] == xs[i - 1] && ys[i] == xs[i];
  }

  // ---------------------------------------------------------------------------
  // `calculate_playtime_changes`

  method CalculatePlaytimeChanges(snapshots: seq<Frame>) returns (records: seq<Record>)
    ensures records == Changes(snapshots)
  {
    if |snapshots| < 2 {
      return [];
    }
    records := [];
    for i := 1 to |snapshots|
      invariant records == Changes(snapshots[..i])
    {
      var pairRecords := DiffPair(snapshots[i - 1], snapshots[i]);
      PairwiseSnoc(PairRecords, snapshots, i);
      records := records + pairRecords;
    }
    assert snapshots[..|snapshots|] == snapshots;
  }

  /** The body of the outer loop: index both snapshots, then compare every game of `curr` with `prev`. */
  method DiffPair(prev: Frame, curr: Frame) returns (records: seq<Record>)
    ensures records == PairRecords(prev, curr)
  {
    var prevGames := Index(prev.games);
    var currGames := Index(curr.games);
    records := DiffGames(Keys(curr.games), prevGames, currGames, prev.snapshotTime, curr.snapshotTime);
  }

  /** The inner loop, over the later snapshot's games in key order. */
  method DiffGames(keys: seq<int>, prevGames: map<int, Game>, currGames: map<int, Game>, t0: int, t1: int)
    returns (records: seq<Record>)
    requires forall a :: a in keys ==> a in currGames
    ensures records == RecordsFor(keys, prevGames, currGames, t0, t1)
  {
    records := [];
    for k := 0 to |keys|
      invariant records == RecordsFor(keys[..k], prevGames, currGames, t0, t1)
    {
      var appid := keys[k];
      var currGame := currGames[appid];
      var currPlaytime := Playtime(currGame);
      var prevPlaytime := if appid in prevGames then Playtime(prevGames[appid]) else 0;
      var increase := currPlaytime - prevPlaytime;
      RecordsForSnoc(keys, k, prevGames, currGames, t0, t1);
      if increase > 0 {
        records := records + [Record(appid, DisplayName(currGame), t0, t1, increase, currPlaytime)];
      }
    }
    assert keys[..|keys|] == keys;
  }

  lemma RecordsForSnoc(keys: seq<int>, k: nat, prevIdx: map<int, Game>, curIdx: map<int, Game>, t0: int, t1: int)
    requires k < |keys|
    requires forall a :: a in keys ==> a in curIdx
    ensures forall a :: a in keys[..k + 1] ==> a in curIdx
    ensures RecordsFor(keys[..k + 1], prevIdx, curIdx, t0, t1)
         == RecordsFor(keys[..k], prevIdx, curIdx, t0, t1) + RecordFor(keys[k], prevIdx, curIdx, t0, t1)
  {
    assert forall a :: a in keys[..k + 1] ==> a in keys;
    assert keys[..k + 1][..k] == keys[..k];
  }

  // ---------------------------------------------------------------------------
  // What the records mean

  /**
    `rec` reports game `rec.gameId` of the later snapshot: its current counter,
    a positive increase over the earlier snapshot's counter (0 when absent),
    the pair's two times and the entry's display name.
   */
  predicate Describes(rec: Record, prevIdx: map<int, Game>, curIdx: map<int, Game>, t0: int, t1: int) {
    && rec.gameId in curIdx
    && rec.totalPlaytime == Playtime(curIdx[rec.gameId])
    && rec.playtimeIncrease == Playtime(curIdx[rec.gameId]) - PrevPlaytime(prevIdx, rec.gameId)
    && rec.playtimeIncrease > 0
    && rec.startTime == t0 && rec.endTime == t1
    && rec.gameName == DisplayName(curIdx[rec.gameId])
  }

  /** A game of the later snapshot whose counter went up. */
  predicate Increased(appid: int, prevIdx: map<int, Game>, curIdx: map<int, Game>) {
    appid in curIdx && Playtime(curIdx[appid]) - PrevPlaytime(prevIdx, appid) > 0
  }

  lemma RecordsForCharacterised(keys: seq<int>, prevIdx: map<int, Game>, curIdx: map<int, Game>, t0: int, t1: int)
    requires forall a :: a in keys ==> a in curIdx
    requires forall i, j :: 0 <= i < j < |keys| ==> keys[i] != keys[j]
    ensures var r := RecordsFor(keys, prevIdx, curIdx, t0, t1);
      && (forall k :: 0 <= k < |r| ==> Describes(r[k], prevIdx, curIdx, t0, t1) && r[k].gameId in keys)
      && (forall a :: a in keys && Increased(a, prevIdx, curIdx) ==> exists k :: 0 <= k < |r| && r[k].gameId == a)
      && (forall i, j :: 0 <= i < j < |r| ==> r[i].gameId != r[j].gameId)
  {
    forall k | 0 <= k < |RecordsFor(keys, prevIdx, curIdx, t0, t1)|
      ensures Describes(RecordsFor(keys, prevIdx, curIdx, t0, t1)[k], prevIdx, curIdx, t0, t1)
      ensures RecordsFor(keys, prevIdx, curIdx, t0, t1)[k].gameId in keys
    {
      RecordsForSound(keys, prevIdx, curIdx, t0, t1, k);
    }
    forall a | a in keys && Increased(a, prevIdx, curIdx)
      ensures exists k :: 0 <= k < |RecordsFor(keys, prevIdx, curIdx, t0, t1)| && RecordsFor(keys, prevIdx, curIdx, t0, t1)[k].gameId == a
    {
      var i :| 0 <= i < |keys| && keys[i] == a;
      RecordsForComplete(keys, prevIdx, curIdx, t0, t1, i);
    }
    forall i, j | 0 <= i < j < |RecordsFor(keys, prevIdx, curIdx, t0, t1)|
      ensures RecordsFor(keys, prevIdx, curIdx, t0, t1)[i].gameId != RecordsFor(keys, prevIdx, curIdx, t0, t1)[j].gameId
    {
      RecordsForDistinct(keys, prevIdx, curIdx, t0, t1, i, j);
    }
  }

  lemma {:induction false} RecordsForSound(keys: seq<int>, prevIdx: map<int, Game>, curIdx: map<int, Game>, t0: int, t1: int, k: nat)
    requires forall a :: a in keys ==> a in curIdx
    requires k < |RecordsFor(keys, prevIdx, curIdx, t0, t1)|
    ensures Describes(RecordsFor(keys, prevIdx, curIdx, t0, t1)[k], prevIdx, curIdx, t0, t1)
    ensures RecordsFor(keys, prevIdx, curIdx, t0, t1)[k].gameId in keys
  {
    var init, a := keys[..|keys| - 1], keys[|keys| - 1];
    assert forall b :: b in init ==> b in keys;
    var rInit := RecordsFor(init, prevIdx, curIdx, t0, t1);
    var tail := RecordFor(a, prevIdx, curIdx, t0, t1);
    if k < |rInit| {
      RecordsForSound(init, prevIdx, curIdx, t0, t1, k);
      assert (rInit + tail)[k] == rInit[k];
    } else {
      assert (rInit + tail)[k] == tail[0];
    }
  }

  lemma {:induction false} RecordsForComplete(keys: seq<int>, prevIdx: map<int, Game>, curIdx: map<int, Game>, t0: int, t1: int, i: nat)
    requires forall a :: a in keys ==> a in curIdx
    requires i < |keys| && Increased(keys[i], prevIdx, curIdx)
    ensures exists k :: 0 <= k < |RecordsFor(keys, prevIdx, curIdx, t0, t1)| && RecordsFor(keys, prevIdx, curIdx, t0, t1)[k].gameId == keys[i]
  {
    var init, a := keys[..|keys| - 1], keys[|keys| - 1];
    assert forall b :: b in init ==> b in keys;
    var rInit := RecordsFor(init, prevIdx, curIdx, t0, t1);
    var tail := RecordFor(a, prevIdx, curIdx, t0, t1);
    var r := rInit + tail;
    assert RecordsFor(keys, prevIdx, curIdx, t0, t1) == r;
    if i == |keys| - 1 {
      assert r[|rInit|] == tail[0];
    } else {
      assert init[i] == keys[i];
      RecordsForComplete(init, prevIdx, curIdx, t0, t1, i);
      var k :| 0 <= k < |rInit| && rInit[k].gameId == keys[i];
      assert r[k] == rInit[k];
    }
  }

  lemma {:induction false} RecordsForDistinct(keys: seq<int>, prevIdx: map<int, Game>, curIdx: map<int, Game>, t0: int, t1: int, i: nat, j: nat)
    requires forall a :: a in keys ==> a in curIdx
    requires forall i, j :: 0 <= i < j < |keys| ==> keys[i] != keys[j]
    requires i < j < |RecordsFor(keys, prevIdx, curIdx, t0, t1)|
    ensures RecordsFor(keys, prevIdx, curIdx, t0, t1)[i].gameId != RecordsFor(keys, prevIdx, curIdx, t0, t1)[j].gameId
  {
    var init, a := keys[..|keys| - 1], keys[|keys| - 1];
    assert forall b :: b in init ==> b in keys;
    var rInit := RecordsFor(init, prevIdx, curIdx, t0, t1);
    var tail := RecordFor(a, prevIdx, curIdx, t0, t1);
    var r := rInit + tail;
    assert RecordsFor(keys, prevIdx, curIdx, t0, t1) == r;
    assert r[i] == rInit[i];
    if j < |rInit| {
      RecordsForDistinct(init, prevIdx, curIdx, t0, t1, i, j);
      assert r[j] == rInit[j];
    } else {
      assert r[j] == tail[0];
      RecordsForSound(init, prevIdx, curIdx, t0, t1, i);
      assert a !in init by {
        forall m | 0 <= m < |init| ensures init[m] != a {
          assert init[m] == keys[m];
        }
      }
    }
  }

  /**
    One pair of snapshots yields exactly one record per game of the later
    snapshot whose counter went up, and nothing else: in particular nothing for a
    game only the earlier snapshot lists.
   */
  lemma PairRecordsCharacterised(prev: Frame, cur: Frame)
    ensures var r := PairRecords(prev, cur);
      var pi, ci := Index(prev.games), Index(cur.games);
      && (forall k :: 0 <= k < |r| ==> Describes(r[k], pi, ci, prev.snapshotTime, cur.snapshotTime))
      && (forall a :: Increased(a, pi, ci) <==> exists k :: 0 <= k < |r| && r[k].gameId == a)
      && (forall i, j :: 0 <= i < j < |r| ==> r[i].gameId != r[j].gameId)
  {
    var keys := Keys(cur.games);
    assert forall a :: a in keys ==> a in Index(cur.games);
    RecordsForCharacterised(keys, Index(prev.games), Index(cur.games), prev.snapshotTime, cur.snapshotTime);
    assert PairRecords(prev, cur) == RecordsFor(keys, Index(prev.games), Index(cur.games), prev.snapshotTime, cur.snapshotTime);
  }

  /** A record comes from some adjacent pair, and every pair's records are in the result. */
  lemma ChangesMember(frames: seq<Frame>, rec: Record)
    ensures rec in Changes(frames) <==> exists i :: 1 <= i < |frames| && rec in PairRecords(frames[i - 1], frames[i])
  {
    PairwiseMember(PairRecords, frames, rec);
  }

  lemma PairwiseMember<T, U>(f: (T, T) -> seq<U>, xs: seq<T>, u: U)
    ensures u in Pairwise(f, xs) <==> exists i :: 1 <= i < |xs| && u in f(xs[i - 1], xs[i])
  {
    if u in Pairwise(f, xs) {
      PairwiseOrigin(f, xs, u);
    }
    if exists i :: 1 <= i < |xs| && u in f(xs[i - 1], xs[i]) {
      var i :| 1 <= i < |xs| && u in f(xs[i - 1], xs[i]);
      PairwiseIncludes(f, xs, i, u);
    }
  }

  lemma {:induction false} PairwiseIncludes<T, U>(f: (T, T) -> seq<U>, xs: seq<T>, i: nat, u: U)
    requires 1 <= i < |xs| && u in f(xs[i - 1], xs[i])
    ensures u in Pairwise(f, xs)
  {
    var init := xs[..|xs| - 1];
    if i < |xs| - 1 {
      assert init[i - 1] == xs[i - 1] && init[i] == xs[i];
      PairwiseIncludes(f, init, i, u);
    }
  }

  /** The index of the later element of the pair whose output holds `u`. */
  function PairOf<T, U(==)>(f: (T, T) -> seq<U>, xs: seq<T>, u: U): nat
    requires u in Pairwise(f, xs)
  {
    var init := xs[..|xs| - 1];
    if u in Pairwise(f, init) then PairOf(f, init, u) else |xs| - 1
  }

  lemma {:induction false} PairwiseOrigin<T, U>(f: (T, T) -> seq<U>, xs: seq<T>, u: U)
    requires u in Pairwise(f, xs)
    ensures 1 <= PairOf(f, xs, u) < |xs|
    ensures u in f(xs[PairOf(f, xs, u) - 1], xs[PairOf(f, xs, u)])
  {
    var init := xs[..|xs| - 1];
    if u in Pairwise(f, init) {
      PairwiseOrigin(f, init, u);
      var i := PairOf(f, init, u);
      assert init[i - 1] == xs[i - 1] && init[i] == xs[i];
    }
  }

  /** A game new in the later snapshot counts from 0. */
  lemma ExampleNewGame()
    ensures PairRecords(Frame(100, []), Frame(200, [Game(620, Some("Portal 2"), Some(30))]))
         == [Record(620, "Portal 2", 100, 200, 30, 30)]
  {
    var cur := [Game(620, Some("Portal 2"), Some(30))];
    assert cur[..0] == [];
    assert Keys(cur) == [620];
    assert [620][..0] == [];
  }

  // ---------------------------------------------------------------------------
  // `aggregate_by_game`

  /** The distinct record names in order of first appearance: the key order of `game_totals`. */
  function NameOrder(records: seq<Record>): (names: seq<string>)
    ensures |names| <= |records|
  {
    if records == [] then []
    else
      var names := NameOrder(records[..|records| - 1]);
      var n := records[|records| - 1].gameName;
      if n in names then names else names + [n]
  }

  /** Each name is listed once. */
  lemma {:induction false} NameOrderDistinct(records: seq<Record>)
    ensures forall i, j :: 0 <= i < j < |NameOrder(records)| ==> NameOrder(records)[i] != NameOrder(records)[j]
  {
    if records != [] {
      NameOrderDistinct(records[..|records| - 1]);
    }
  }

  /** The listed names are exactly the names some record carries. */
  lemma {:induction false} NameOrderMembers(records: seq<Record>, n: string)
    ensures n in NameOrder(records) <==> exists k :: 0 <= k < |records| && records[k].gameName == n
  {
    if records != [] {
      var init := records[..|records| - 1];
      NameOrderMembers(init, n);
      if exists k :: 0 <= k < |records| && records[k].gameName == n {
        var k :| 0 <= k < |records| && records[k].gameName == n;
        if k < |init| {
          assert init[k] == records[k];
        }
      }
      if exists k :: 0 <= k < |init| && init[k].gameName == n {
        var k :| 0 <= k < |init| && init[k].gameName == n;
        assert records[k] == init[k];
      }
    }
  }

  /** The sum of the increases of the records named `name`. */
  function NameTotal(records: seq<Record>, name: string): int {
    if records == [] then 0
    else
      var last := records[|records| - 1];
      NameTotal(records[..|records| - 1], name) + (if last.gameName == name then last.playtimeIncrease else 0)
  }

  /** The sum of every record's increase. */
  function TotalIncrease(records: seq<Record>): int {
    if records == [] then 0 else TotalIncrease(records[..|records| - 1]) + records[|records| - 1].playtimeIncrease
  }

  lemma RecordsSnoc(records: seq<Record>, r: Record)
    ensures NameOrder(records + [r]) == if r.gameName in NameOrder(records) then NameOrder(records) else NameOrder(records) + [r.gameName]
    ensures forall n :: NameTotal(records + [r], n) == NameTotal(records, n) + (if r.gameName == n then r.playtimeIncrease else 0)
    ensures TotalIncrease(records + [r]) == TotalIncrease(records) + r.playtimeIncrease
  {
    assert (records + [r])[..|records|] == records;
  }

  method AggregateByGame(records: seq<Record>) returns (names: seq<string>, gameTotals: map<string, int>)
    ensures names == NameOrder(records)
    ensures forall n :: n in gameTotals <==> n in names
    ensures forall n :: n in gameTotals ==> gameTotals[n] == NameTotal(records, n)
  {
    names, gameTotals := [], map[];
    for i := 0 to |records|
      invariant TotalsOf(records[..i], names, gameTotals)
    {
      var record := records[i];
      var gameName := record.gameName;
      var playtime := record.playtimeIncrease;
      SliceSnoc(records, i);
      if gameName in gameTotals {
        TotalsOfKnown(records[..i], record, names, gameTotals);
        gameTotals := gameTotals[gameName := gameTotals[gameName] + playtime];
      } else {
        TotalsOfNew(records[..i], record, names, gameTotals);
        names := names + [gameName];
        gameTotals := gameTotals[gameName := 0 + playtime];
      }
    }
    assert records[..|records|] == records;
  }

  /** `names` and `gameTotals` are the key order and the per-name sums of `records`. */
  ghost predicate TotalsOf(records: seq<Record>, names: seq<string>, gameTotals: map<string, int>) {
    && names == NameOrder(records)
    && (forall n :: n in gameTotals <==> n in names)
    && (forall n :: n in gameTotals ==> gameTotals[n] == NameTotal(records, n))
  }

  /** A known name: its total grows by the record's increase. */
  lemma TotalsOfKnown(pre: seq<Record>, r: Record, names: seq<string>, gameTotals: map<string, int>)
    requires TotalsOf(pre, names, gameTotals) && r.gameName in gameTotals
    ensures TotalsOf(pre + [r], names, gameTotals[r.gameName := gameTotals[r.gameName] + r.playtimeIncrease])
  {
    RecordsSnoc(pre, r);
  }

  /** A new name: it joins the key order with the record's increase as its total. */
  lemma TotalsOfNew(pre: seq<Record>, r: Record, names: seq<string>, gameTotals: map<string, int>)
    requires TotalsOf(pre, names, gameTotals) && r.gameName !in gameTotals
    ensures TotalsOf(pre + [r], names + [r.gameName], gameTotals[r.gameName := 0 + r.playtimeIncrease])
  {
    RecordsSnoc(pre, r);
    NameTotalAbsent(pre, r.gameName);
  }

  lemma SliceSnoc<T>(s: seq<T>, i: nat)
    requires i < |s|
    ensures s[..i + 1] == s[..i] + [s[i]]
  {
  }

  /** A name no record carries totals 0 (`game_totals.get(game_name, 0)`). */
  lemma {:induction false} NameTotalAbsent(records: seq<Record>, name: string)
    requires name !in NameOrder(records)
    ensures NameTotal(records, name) == 0
  {
    if records != [] {
      var init := records[..|records| - 1];
      assert records == init + [records[|records| - 1]];
      RecordsSnoc(init, records[|records| - 1]);
      NameTotalAbsent(init, name);
    }
  }

  /** The sum of the per-name totals over `names`. */
  function SumTotals(names: seq<string>, records: seq<Record>): int {
    if names == [] then 0 else SumTotals(names[..|names| - 1], records) + NameTotal(records, names[|names| - 1])
  }

  lemma {:induction false} SumTotalsSnoc(names: seq<string>, records: seq<Record>, r: Record)
    requires forall i, j :: 0 <= i < j < |names| ==> names[i] != names[j]
    ensures SumTotals(names, records + [r]) == SumTotals(names, records) + (if r.gameName in names then r.playtimeIncrease else 0)
  {
    RecordsSnoc(records, r);
    if names != [] {
      var init, last := names[..|names| - 1], names[|names| - 1];
      SumTotalsSnoc(init, records, r);
      assert names == init + [last];
      assert last !in init by {
        forall i | 0 <= i < |init| ensures init[i] != last {
          assert init[i] == names[i];
        }
      }
    }
  }

  /** The per-game totals add up to the sum of all increases: no minute is lost or counted twice. */
  lemma {:induction false} TotalsAddUp(records: seq<Record>)
    ensures SumTotals(NameOrder(records), records) == TotalIncrease(records)
  {
    if records != [] {
      var init, r := records[..|records| - 1], records[|records| - 1];
      assert records == init + [r];
      TotalsAddUp(init);
      TotalsSnoc(init, r);
    }
  }

  /** One more record keeps the per-game totals and the overall sum in step. */
  lemma TotalsSnoc(init: seq<Record>, r: Record)
    requires SumTotals(NameOrder(init), init) == TotalIncrease(init)
    ensures SumTotals(NameOrder(init + [r]), init + [r]) == TotalIncrease(init + [r])
  {
    RecordsSnoc(init, r);
    var names := NameOrder(init);
    NameOrderDistinct(init);
    SumTotalsSnoc(names, init, r);
    if r.gameName !in names {
      NewNameTotal(init, r);
    }
  }

  lemma NewNameTotal(init: seq<Record>, r: Record)
    requires r.gameName !in NameOrder(init)
    ensures SumTotals(NameOrder(init) + [r.gameName], init + [r]) == SumTotals(NameOrder(init), init + [r]) + r.playtimeIncrease
  {
    var names := NameOrder(init);
    NameTotalAbsent(init, r.gameName);
    RecordsSnoc(init, r);
    assert (names + [r.gameName])[..|names|] == names;
  }

  // ---------------------------------------------------------------------------
  // `aggregate_by_hour`

  /** `datetime.hour` of a UTC timestamp in seconds. */
  function Hour(t: int): (h: int)
    ensures 0 <= h < 24
  {
    (t / 3600) % 24
  }

  /** `range(24)`. */
  const HoursOfDay: set<int> := set h | 0 <= h < 24

  /** A record marks hour `h` when it starts or ends in that hour. */
  predicate Touches(rec: Record, h: int) {
    Hour(rec.startTime) == h || Hour(rec.endTime) == h
  }

  /** The number of records that start or end in hour `h`. */
  function HourCount(records: seq<Record>, h: int): nat {
    if records == [] then 0
    else HourCount(records[..|records| - 1], h) + (if Touches(records[|records| - 1], h) then 1 else 0)
  }

  method AggregateByHour(records: seq<Record>) returns (hourActivity: map<int, int>)
    ensures forall h :: h in hourActivity <==> 0 <= h < 24
    ensures forall h :: 0 <= h < 24 ==> hourActivity[h] == HourCount(records, h)
  {
    hourActivity := map h | h in HoursOfDay :: 0;
    for i := 0 to |records|
      invariant forall h :: h in hourActivity <==> 0 <= h < 24
      invariant forall h :: 0 <= h < 24 ==> hourActivity[h] == HourCount(records[..i], h)
    {
      var record := records[i];
      assert records[..i + 1][..i] == records[..i];
      var startHour := Hour(record.startTime);
      var endHour := Hour(record.endTime);
      hourActivity := hourActivity[startHour := hourActivity[startHour] + 1];
      if startHour != endHour {
        hourActivity := hourActivity[endHour := hourActivity[endHour] + 1];
      }
    }
    assert records[..|records|] == records;
  }

  /** The sum of the counters of hours `0 .. n - 1`. */
  function HourSum(records: seq<Record>, n: nat): int {
    if n == 0 then 0 else HourSum(records, n - 1) + HourCount(records, n - 1)
  }

  /** How many of hours `0 .. n - 1` one record marks. */
  function Marks(rec: Record, n: nat): int {
    if n == 0 then 0 else Marks(rec, n - 1) + (if Touches(rec, n - 1) then 1 else 0)
  }

  /** Each record adds one mark, two when it starts and ends in different hours. */
  function Weight(rec: Record): int {
    if Hour(rec.startTime) == Hour(rec.endTime) then 1 else 2
  }

  function TotalWeight(records: seq<Record>): int {
    if records == [] then 0 else TotalWeight(records[..|records| - 1]) + Weight(records[|records| - 1])
  }

  lemma {:induction false} MarksBelow(rec: Record, n: nat)
    ensures Marks(rec, n) == (if Hour(rec.startTime) < n then 1 else 0)
                           + (if Hour(rec.endTime) < n && Hour(rec.endTime) != Hour(rec.startTime) then 1 else 0)
  {
    if n > 0 {
      MarksBelow(rec, n - 1);
    }
  }

  lemma {:induction false} HourSumSnoc(records: seq<Record>, r: Record, n: nat)
    ensures HourSum(records + [r], n) == HourSum(records, n) + Marks(r, n)
  {
    if n > 0 {
      HourSumSnoc(records, r, n - 1);
      assert (records + [r])[..|records|] == records;
    }
  }

  lemma {:induction false} HourSumEmpty(n: nat)
    ensures HourSum([], n) == 0
  {
    if n > 0 {
      HourSumEmpty(n - 1);
    }
  }

  /** The 24 counters together hold one mark per record, two for a record spanning two hours. */
  lemma {:induction false} HoursAddUp(records: seq<Record>)
    ensures HourSum(records, 24) == TotalWeight(records)
    ensures |records| <= HourSum(records, 24) <= 2 * |records|
  {
    if records == [] {
      HourSumEmpty(24);
    } else {
      var init, r := records[..|records| - 1], records[|records| - 1];
      assert records == init + [r];
      HoursAddUp(init);
      HourSumSnoc(init, r, 24);
      MarksBelow(r, 24);
    }
  }

  // ---------------------------------------------------------------------------
  // The pie chart's slices (`create_pie_chart`)

  /** `key=lambda x: x[1], reverse=True`: larger totals first, equal totals in their original order. */
  predicate ByTotalDesc(x: (string, int), y: (string, int)) {
    x.1 >= y.1
  }

  lemma ByTotalDescTotalPreorder()
    ensures TotalPreorder(ByTotalDesc)
  {
  }

  /** The label of the slice that gathers everything after the ten largest ("其他"). */
  const OtherLabel: string := "\U{5176}\U{4ed6}"

  function SumOf(items: seq<(string, int)>): int {
    if items == [] then 0 else SumOf(items[..|items| - 1]) + items[|items| - 1].1
  }

  /** `sorted(game_totals.items(), key=lambda x: x[1], reverse=True)`. */
  function Ranked(items: seq<(string, int)>): (r: seq<(string, int)>)
    ensures |r| == |items|
    ensures multiset(r) == multiset(items)
  {
    SortBy(items, ByTotalDesc)
  }

  /** `sorted_games[:10]`. */
  function Kept(items: seq<(string, int)>): seq<(string, int)> {
    var r := Ranked(items);
    if |r| > 10 then r[..10] else r
  }

  /** `sorted_games[10:]`, the entries folded into the last slice. */
  function Dropped(items: seq<(string, int)>): seq<(string, int)> {
    var r := Ranked(items);
    if |r| > 10 then r[10..] else []
  }

  /** The slices for `game_totals.items()`: the ten largest, then one slice for the rest if any. */
  function PieSlices(items: seq<(string, int)>): (top: seq<(string, int)>)
    ensures |top| <= 11
    ensures |items| <= 10 ==> multiset(top) == multiset(items)
    ensures |items| > 10 ==> |top| == 11 && top[10].0 == OtherLabel
  {
    if |items| > 10 then Kept(items) + [(OtherLabel, SumOf(Dropped(items)))] else Kept(items)
  }

  /**
    The kept entries are the largest ones, in descending order; together with the
    dropped ones they are exactly the input, and the last slice sums the dropped ones.
   */
  lemma PieLargest(items: seq<(string, int)>)
    ensures |Kept(items)| == if |items| > 10 then 10 else |items|
    ensures multiset(Kept(items)) + multiset(Dropped(items)) == multiset(items)
    ensures forall i, j :: 0 <= i < j < |Kept(items)| ==> Kept(items)[i].1 >= Kept(items)[j].1
    ensures forall i, j :: 0 <= i < |Kept(items)| && 0 <= j < |Dropped(items)| ==> Kept(items)[i].1 >= Dropped(items)[j].1
    ensures PieSlices(items)[..|Kept(items)|] == Kept(items)
    ensures |items| > 10 ==> PieSlices(items)[10] == (OtherLabel, SumOf(Dropped(items)))
  {
    var r := Ranked(items);
    assert r == Kept(items) + Dropped(items);
    RankedDescending(items);
  }

  /** The ranking is in descending order of totals. */
  lemma RankedDescending(items: seq<(string, int)>)
    ensures forall i, j :: 0 <= i < j < |Ranked(items)| ==> Ranked(items)[i].1 >= Ranked(items)[j].1
  {
    ByTotalDescTotalPreorder();
    SortBySorted(items, ByTotalDesc);
  }

  lemma {:induction false} SumOfAppend(a: seq<(string, int)>, b: seq<(string, int)>)
    ensures SumOf(a + b) == SumOf(a) + SumOf(b)
  {
    if b == [] {
      assert a + b == a;
    } else {
      assert (a + b)[..|a + b| - 1] == a + b[..|b| - 1];
      SumOfAppend(a, b[..|b| - 1]);
    }
  }

  /** Reordering does not change a sum. */
  lemma {:induction false} SumOfPermutation(s: seq<(string, int)>, t: seq<(string, int)>)
    requires multiset(s) == multiset(t)
    ensures SumOf(s) == SumOf(t)
    decreases |s|
  {
    if s == [] {
      assert |t| == |multiset(t)| == 0;
    } else {
      var init, x := s[..|s| - 1], s[|s| - 1];
      assert s == init + [x];
      assert x in multiset(t);
      var i :| 0 <= i < |t| && t[i] == x;
      var u := t[..i] + t[i + 1..];
      assert t == t[..i] + [x] + t[i + 1..];
      assert multiset(t) == multiset(t[..i]) + multiset{x} + multiset(t[i + 1..]);
      assert multiset(u) == multiset(t[..i]) + multiset(t[i + 1..]);
      assert multiset(s) == multiset(init) + multiset{x};
      assert multiset(u) == multiset(t) - multiset{x};
      assert multiset(init) == multiset(s) - multiset{x};
      SumOfPermutation(init, u);
      SumOfAppend(t[..i] + [x], t[i + 1..]);
      SumOfAppend(t[..i], [x]);
      SumOfAppend(t[..i], t[i + 1..]);
      assert SumOf([x]) == x.1 by {
        assert [x][..0] == [];
      }
    }
  }

  /** The slices add up to the sum of all game totals. */
  lemma PieTotal(items: seq<(string, int)>)
    ensures SumOf(PieSlices(items)) == SumOf(items)
  {
    var r, kept, dropped := Ranked(items), Kept(items), Dropped(items);
    assert r == kept + dropped;
    SumOfPermutation(r, items);
    SumOfAppend(kept, dropped);
    if |items| > 10 {
      var other := (OtherLabel, SumOf(dropped));
      SumOfAppend(kept, [other]);
      assert SumOf([other]) == other.1 by {
        assert [other][..0] == [];
      }
    }
  }
}
