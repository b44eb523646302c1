/**
  Session inference as the HTTP API (frontend_api.py) performs it: the same
  grouping and width-2 walk as analyzer.py, except that a session's steamid is
  taken from the later snapshot of its pair; the result is then sorted by
  (steamid, appid, window_start) with Python's stable sort, and `get_sessions`
  keeps only the last `limit` entries.
 */
module FrontendApi {
  import opened Wrappers
  import opened Snapshots
  import opened Sorting
  import Analyzer

  /** One adjacent pair; the session's steamid is the current snapshot's. */
  function Step(appid: int, prev: Snapshot, cur: Snapshot): seq<PlaySession> {
    if cur.playtimeForever > prev.playtimeForever then [MakeSession(cur.steamid, appid, prev, cur)] else []
  }

  /** The width-2 window over one appid's snapshots; `prev` moves on at every step. */
  function Walk(appid: int, g: seq<Snapshot>): (r: seq<PlaySession>)
    ensures |g| < 2 ==> r == []
    ensures forall k :: 0 <= k < |r| ==> r[k].appid == appid && r[k].minutesDelta > 0 && r[k].gameName != []
  {
    if |g| < 2 then [] else Walk(appid, g[..|g| - 1]) + Step(appid, g[|g| - 2], g[|g| - 1])
  }

  function WalkAll(order: seq<int>, snaps: seq<Snapshot>): seq<PlaySession> {
    if order == [] then []
    else
      var a := order[|order| - 1];
      WalkAll(order[..|order| - 1], snaps) + Walk(a, Group(snaps, a))
  }

  /** The sessions in emission order, before the sort. */
  function Emitted(snaps: seq<Snapshot>): seq<PlaySession> {
    WalkAll(AppOrder(snaps), snaps)
  }

  // ---------------------------------------------------------------------------
  // The sort key (steamid, appid, window_start)

  /** Python's `<=` on `str`: lexicographic by code point, a proper prefix first. */
  predicate StrLe(a: string, b: string) {
    if a == [] then true
    else if b == [] then false
    else if a[0] != b[0] then a[0] < b[0]
    else StrLe(a[1..], b[1..])
  }

  lemma {:induction false} StrLeTotal(a: string, b: string)
    ensures StrLe(a, b) || StrLe(b, a)
  {
    if a != [] && b != [] && a[0] == b[0] {
      StrLeTotal(a[1..], b[1..]);
    }
  }

  lemma {:induction false} StrLeAntisymmetric(a: string, b: string)
    requires StrLe(a, b) && StrLe(b, a)
    ensures a == b
  {
    if a != [] && b != [] {
      StrLeAntisymmetric(a[1..], b[1..]);
      assert a == [a[0]] + a[1..] && b == [b[0]] + b[1..];
    }
  }

  lemma {:induction false} StrLeTransitive(a: string, b: string, c: string)
    requires StrLe(a, b) && StrLe(b, c)
    ensures StrLe(a, c)
  {
    if a != [] && b != [] && c != [] && a[0] == b[0] && b[0] == c[0] {
      StrLeTransitive(a[1..], b[1..], c[1..]);
    }
  }

  /** `key(x) <= key(y)` for `key = lambda s: (s["steamid"], s["appid"], s["window_start_utc"])`. */
  predicate KeyLe(x: PlaySession, y: PlaySession) {
    if x.steamid != y.steamid then StrLe(x.steamid, y.steamid)
    else if x.appid != y.appid then x.appid < y.appid
    else x.windowStart <= y.windowStart
  }

  lemma KeyLeTotalPreorder()
    ensures TotalPreorder(KeyLe)
  {
    forall x, y ensures KeyLe(x, y) || KeyLe(y, x) {
      StrLeTotal(x.steamid, y.steamid);
    }
    forall x, y, z | KeyLe(x, y) && KeyLe(y, z) ensures KeyLe(x, z) {
      if x.steamid != y.steamid && y.steamid != z.steamid {
        StrLeTransitive(x.steamid, y.steamid, z.steamid);
        if x.steamid == z.steamid {
          StrLeAntisymmetric(x.steamid, y.steamid);
        }
      }
    }
  }

  // ---------------------------------------------------------------------------
  // `_infer_sessions_from_snapshots` and the truncation in `get_sessions`

  method InferSessionsFromSnapshots(snapshots: seq<Snapshot>) returns (sessions: seq<PlaySession>)
    ensures sessions == SortBy(Emitted(snapshots), KeyLe)
  {
    sessions := [];
    if |snapshots| == 0 {
      return;
    }
    var order, byApp := GroupByApp(snapshots);
    for k := 0 to |order|
      invariant sessions == WalkAll(order[..k], snapshots)
    {
      var appid := order[k];
      var appSessions := WalkGroup(appid, byApp[appid]);
      WalkAllSnoc(order, k, snapshots);
      sessions := sessions + appSessions;
    }
    assert order[..|order|] == order;
    assert sessions == Emitted(snapshots);
    sessions := SortBy(sessions, KeyLe);
  }

  /** The loop over one appid's list, as in analyzer.py but with the steamid of `current`. */
  method WalkGroup(appid: int, appSnaps: seq<Snapshot>) returns (sessions: seq<PlaySession>)
    ensures sessions == Walk(appid, appSnaps)
  {
    sessions := [];
    if |appSnaps| < 2 {
      return;
    }
    var prev := appSnaps[0];
    for j := 1 to |appSnaps|
      invariant prev == appSnaps[j - 1]
      invariant sessions == Walk(appid, appSnaps[..j])
    {
      var current := appSnaps[j];
      WalkSnoc(appid, appSnaps, j);
      if current.playtimeForever > prev.playtimeForever {
        var delta := current.playtimeForever - prev.playtimeForever;
        var gameName := SessionName(appid, prev, current);
        sessions := sessions + [PlaySession(current.steamid, appid, gameName, prev.capturedAt, current.capturedAt, delta)];
      }
      prev := current;
    }
    assert appSnaps[..|appSnaps|] == appSnaps;
  }

  lemma WalkSnoc(appid: int, g: seq<Snapshot>, j: nat)
    requires 1 <= j < |g|
    ensures Walk(appid, g[..j + 1]) == Walk(appid, g[..j]) +
      if g[j].playtimeForever > g[j - 1].playtimeForever then
        [PlaySession(g[j].steamid, appid, SessionName(appid, g[j - 1], g[j]), g[j - 1].capturedAt, g[j].capturedAt,
                     g[j].playtimeForever - g[j - 1].playtimeForever)]
      else []
  {
    var h := g[..j + 1];
    assert h[..j] == g[..j] && h[j - 1] == g[j - 1] && h[j] == g[j];
  }

  lemma WalkAllSnoc(order: seq<int>, k: nat, snaps: seq<Snapshot>)
    requires k < |order|
    ensures WalkAll(order[..k + 1], snaps) == WalkAll(order[..k], snaps) + Walk(order[k], Group(snaps, order[k]))
  {
    assert order[..k + 1][..k] == order[..k];
  }

  /** `if limit is not None and limit > 0 and len(sessions) > limit: sessions = sessions[-limit:]`. */
  function ApplyLimit(sessions: seq<PlaySession>, limit: Option<int>): (r: seq<PlaySession>)
    ensures limit.Some? && 0 < limit.value < |sessions| ==>
      |r| == limit.value && r == sessions[|sessions| - limit.value..]
    ensures limit.None? || limit.value <= 0 || |sessions| <= limit.value ==> r == sessions
  {
    if limit.Some? && limit.value > 0 && |sessions| > limit.value then sessions[|sessions| - limit.value..]
    else sessions
  }

  // ---------------------------------------------------------------------------
  // Properties

  /** The API's result is sorted by (steamid, appid, window_start). */
  lemma ResultSorted(snapshots: seq<Snapshot>)
    ensures Sorted(SortBy(Emitted(snapshots), KeyLe), KeyLe)
  {
    KeyLeTotalPreorder();
    SortBySorted(Emitted(snapshots), KeyLe);
  }

  /** Sessions with the same key keep their emission order (Python's sort is stable). */
  lemma ResultStable(snapshots: seq<Snapshot>, s: PlaySession)
    ensures KeyClass(SortBy(Emitted(snapshots), KeyLe), s, KeyLe) == KeyClass(Emitted(snapshots), s, KeyLe)
  {
    KeyLeTotalPreorder();
    SortByStable(Emitted(snapshots), s, KeyLe);
  }

  /** When every snapshot carries the queried steamid, the walk is exactly analyzer.py's. */
  lemma {:induction false} WalkAgrees(steamid: string, appid: int, g: seq<Snapshot>)
    requires forall k :: 0 <= k < |g| ==> g[k].steamid == steamid
    ensures Walk(appid, g) == Analyzer.Walk(steamid, appid, g)
  {
    if |g| >= 2 {
      WalkAgrees(steamid, appid, g[..|g| - 1]);
    }
  }

  lemma {:induction false} WalkAllAgrees(steamid: string, order: seq<int>, snaps: seq<Snapshot>)
    requires forall k :: 0 <= k < |snaps| ==> snaps[k].steamid == steamid
    ensures WalkAll(order, snaps) == Analyzer.WalkAll(steamid, order, snaps)
  {
    if order != [] {
      var a := order[|order| - 1];
      WalkAllAgrees(steamid, order[..|order| - 1], snaps);
      var g := Group(snaps, a);
      forall k | 0 <= k < |g| ensures g[k].steamid == steamid {
        GroupMember(snaps, a, k);
      }
      WalkAgrees(steamid, a, g);
    }
  }

  /**
    For one steamid's snapshots (what `fetch_snapshots_ordered(steamid)` returns),
    the API emits the same sessions as analyzer.py, then sorts them.
   */
  lemma EmittedAgrees(steamid: string, snaps: seq<Snapshot>)
    requires forall k :: 0 <= k < |snaps| ==> snaps[k].steamid == steamid
    ensures Emitted(snaps) == Analyzer.SessionsFor(steamid, snaps)
  {
    WalkAllAgrees(steamid, AppOrder(snaps), snaps);
  }
}
