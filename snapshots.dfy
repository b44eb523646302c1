/**
  Playtime snapshots and the sessions inferred from them, shared by the two
  session-inference variants (analyzer.py and frontend_api.py): the records,
  the game-name fallback, and the grouping of one steamid's snapshots by appid.
  Timestamps are integers (seconds since the epoch, UTC).
 */
module Snapshots {
  import opened Wrappers
  import opened PyStrings

  /** One stored observation of a game's cumulative playtime (`PlaytimeSnapshot`). */
  datatype Snapshot = Snapshot(
    capturedAt: int,
    steamid: string,
    appid: int,
    gameName: Option<string>,
    playtimeForever: int)

  /** An inferred interval during which playtime grew by `minutesDelta` (`PlaySession`). */
  datatype PlaySession = PlaySession(
    steamid: string,
    appid: int,
    gameName: string,
    windowStart: int,
    windowEnd: int,
    minutesDelta: int)

  /** Python truthiness of an optional string: neither `None` nor empty. */
  predicate Truthy(s: Option<string>) {
    s.Some? && s.value != []
  }

  /** `current.game_name or prev.game_name or f"appid {appid}"`. */
  function SessionName(appid: int, prev: Snapshot, cur: Snapshot): (name: string)
    ensures name != []
    ensures Truthy(cur.gameName) ==> name == cur.gameName.value
    ensures !Truthy(cur.gameName) && Truthy(prev.gameName) ==> name == prev.gameName.value
    ensures !Truthy(cur.gameName) && !Truthy(prev.gameName) ==> name == "appid " + IntToString(appid)
  {
    if Truthy(cur.gameName) then cur.gameName.value
    else if Truthy(prev.gameName) then prev.gameName.value
    else "appid " + IntToString(appid)
  }

  /** The session recorded for one adjacent pair whose counter went up. */
  function MakeSession(steamid: string, appid: int, prev: Snapshot, cur: Snapshot): PlaySession {
    PlaySession(steamid, appid, SessionName(appid, prev, cur), prev.capturedAt, cur.capturedAt,
                cur.playtimeForever - prev.playtimeForever)
  }

  /** The snapshots of `appid`, in their order in `snaps` (the list `by_app[appid]`). */
  function Group(snaps: seq<Snapshot>, appid: int): (g: seq<Snapshot>)
    ensures |g| <= |snaps|
    ensures forall k :: 0 <= k < |g| ==> g[k].appid == appid
    ensures g == [] <==> forall k :: 0 <= k < |snaps| ==> snaps[k].appid != appid
  {
    if snaps == [] then []
    else
      var last := snaps[|snaps| - 1];
      var g := Group(snaps[..|snaps| - 1], appid);
      if last.appid == appid then g + [last] else g
  }

  /** The distinct appids in order of first appearance (the key order of `by_app`). */
  function AppOrder(snaps: seq<Snapshot>): (order: seq<int>)
    ensures forall i, j :: 0 <= i < j < |order| ==> order[i] != order[j]
    ensures forall k :: 0 <= k < |snaps| ==> snaps[k].appid in order
  {
    if snaps == [] then []
    else
      var order := AppOrder(snaps[..|snaps| - 1]);
      var last := snaps[|snaps| - 1];
      assert forall k :: 0 <= k < |snaps| - 1 ==> snaps[k] == snaps[..|snaps| - 1][k];
      if last.appid in order then order else order + [last.appid]
  }

  /** Nothing is listed that the snapshots lack: each listed appid is some snapshot's. */
  lemma {:induction false} AppOrderMembers(snaps: seq<Snapshot>, a: int)
    requires a in AppOrder(snaps)
    ensures exists k :: 0 <= k < |snaps| && snaps[k].appid == a
  {
    var init := snaps[..|snaps| - 1];
    if a in AppOrder(init) {
      AppOrderMembers(init, a);
      var k :| 0 <= k < |init| && init[k].appid == a;
      assert snaps[k] == init[k];
    }
  }

  /**
    The key order follows first appearance: wherever a later-listed appid occurs,
    an earlier-listed one has occurred before it.
   */
  lemma {:induction false} AppOrderFirstAppearance(snaps: seq<Snapshot>, i: nat, j: nat, m: nat)
    requires i < j < |AppOrder(snaps)|
    requires m < |snaps| && snaps[m].appid == AppOrder(snaps)[j]
    ensures exists k :: 0 <= k < m && snaps[k].appid == AppOrder(snaps)[i]
    decreases |snaps|, 1
  {
    var init := snaps[..|snaps| - 1];
    if m < |init| {
      assert init[m] == snaps[m];
      AppOrderFirstAppearance(init, i, j, m);
      var k :| 0 <= k < m && init[k].appid == AppOrder(init)[i];
      assert snaps[k] == init[k];
    } else {
      FirstAppearanceLast(snaps, i, j);
    }
  }

  /** The same, where the later-listed appid occurs at the last snapshot. */
  lemma {:induction false} FirstAppearanceLast(snaps: seq<Snapshot>, i: nat, j: nat)
    requires i < j < |AppOrder(snaps)|
    requires snaps != [] && snaps[|snaps| - 1].appid == AppOrder(snaps)[j]
    ensures exists k :: 0 <= k < |snaps| - 1 && snaps[k].appid == AppOrder(snaps)[i]
    decreases |snaps|, 0
  {
    var init, last := snaps[..|snaps| - 1], snaps[|snaps| - 1];
    var order := AppOrder(init);
    if last.appid in order {
      AppOrderMembers(init, order[j]);
      var m :| 0 <= m < |init| && init[m].appid == order[j];
      AppOrderFirstAppearance(init, i, j, m);
      var k :| 0 <= k < m && init[k].appid == order[i];
      assert snaps[k] == init[k];
    } else {
      AppOrderMembers(init, order[i]);
      var k :| 0 <= k < |init| && init[k].appid == order[i];
      assert snaps[k] == init[k];
    }
  }

  /** No snapshot is earlier than one before it of the same appid (the store's ordering contract). */
  ghost predicate TimeOrderedPerApp(snaps: seq<Snapshot>) {
    forall i, j :: 0 <= i < j < |snaps| && snaps[i].appid == snaps[j].appid ==>
      snaps[i].capturedAt <= snaps[j].capturedAt
  }

  ghost predicate TimeOrdered(g: seq<Snapshot>) {
    forall i, j :: 0 <= i < j < |g| ==> g[i].capturedAt <= g[j].capturedAt
  }

  /** Grouping never reorders: a store ordered per appid yields time-ordered groups. */
  lemma {:induction false} GroupTimeOrdered(snaps: seq<Snapshot>, appid: int)
    requires TimeOrderedPerApp(snaps)
    ensures TimeOrdered(Group(snaps, appid))
  {
    if snaps != [] {
      var init := snaps[..|snaps| - 1];
      var last := snaps[|snaps| - 1];
      assert TimeOrderedPerApp(init) by {
        forall i, j | 0 <= i < j < |init| && init[i].appid == init[j].appid
          ensures init[i].capturedAt <= init[j].capturedAt
        {
          assert init[i] == snaps[i] && init[j] == snaps[j];
        }
      }
      GroupTimeOrdered(init, appid);
      var g := Group(init, appid);
      if last.appid == appid {
        forall k | 0 <= k < |g| ensures g[k].capturedAt <= last.capturedAt {
          GroupMember(init, appid, k);
        }
      }
    }
  }

  /** Every member of a group is an earlier snapshot of that appid. */
  lemma {:induction false} GroupMember(snaps: seq<Snapshot>, appid: int, k: nat)
    requires k < |Group(snaps, appid)|
    ensures exists i :: 0 <= i < |snaps| && snaps[i] == Group(snaps, appid)[k]
  {
    var init := snaps[..|snaps| - 1];
    var g := Group(init, appid);
    if k < |g| {
      GroupMember(init, appid, k);
      var i :| 0 <= i < |init| && init[i] == g[k];
      assert snaps[i] == init[i];
    } else {
      assert Group(snaps, appid)[k] == snaps[|snaps| - 1];
    }
  }

  /** What one more snapshot does to the group of `a`. */
  lemma SnocGroup(snaps: seq<Snapshot>, x: Snapshot, a: int)
    ensures Group(snaps + [x], a) == Group(snaps, a) + (if x.appid == a then [x] else [])
  {
    assert (snaps + [x])[..|snaps|] == snaps;
  }

  /** What one more snapshot does to the key order. */
  lemma SnocOrder(snaps: seq<Snapshot>, x: Snapshot)
    ensures AppOrder(snaps + [x]) == if x.appid in AppOrder(snaps) then AppOrder(snaps) else AppOrder(snaps) + [x.appid]
  {
    assert (snaps + [x])[..|snaps|] == snaps;
  }

  /** `order` and `byApp` are the key order and the dict of the grouping of `snaps`. */
  ghost predicate GroupsOf(snaps: seq<Snapshot>, order: seq<int>, byApp: map<int, seq<Snapshot>>) {
    && order == AppOrder(snaps)
    && (forall a :: a in byApp <==> a in order)
    && (forall a :: a in byApp ==> byApp[a] == Group(snaps, a))
  }

  /**
    Builds `by_app` and its key order as the loop `by_app.setdefault(snap.appid, []).append(snap)`
    does: one pass, appending each snapshot to its appid's list.
   */
  method GroupByApp(snaps: seq<Snapshot>) returns (order: seq<int>, byApp: map<int, seq<Snapshot>>)
    ensures order == AppOrder(snaps)
    ensures forall a :: a in byApp <==> a in order
    ensures forall a :: a in byApp ==> byApp[a] == Group(snaps, a)
  {
    order, byApp := [], map[];
    for i := 0 to |snaps|
      invariant GroupsOf(snaps[..i], order, byApp)
    {
      var snap := snaps[i];
      assert snaps[..i + 1] == snaps[..i] + [snap];
      GroupsOfSnoc(snaps[..i], snap, order, byApp);
      if snap.appid in byApp {
        byApp := byApp[snap.appid := byApp[snap.appid] + [snap]];
      } else {
        order := order + [snap.appid];
        byApp := byApp[snap.appid := [snap]];
      }
    }
    assert snaps[..|snaps|] == snaps;
  }

  /** One iteration of the grouping loop keeps `GroupsOf`. */
  lemma GroupsOfSnoc(pre: seq<Snapshot>, snap: Snapshot, order: seq<int>, byApp: map<int, seq<Snapshot>>)
    requires GroupsOf(pre, order, byApp)
    ensures snap.appid in byApp ==>
      GroupsOf(pre + [snap], order, byApp[snap.appid := byApp[snap.appid] + [snap]])
    ensures snap.appid !in byApp ==>
      GroupsOf(pre + [snap], order + [snap.appid], byApp[snap.appid := [snap]])
  {
    if snap.appid in byApp {
      GroupsOfKnown(pre, snap, order, byApp);
    } else {
      GroupsOfNew(pre, snap, order, byApp);
    }
  }

  lemma GroupsOfKnown(pre: seq<Snapshot>, snap: Snapshot, order: seq<int>, byApp: map<int, seq<Snapshot>>)
    requires GroupsOf(pre, order, byApp) && snap.appid in byApp
    ensures GroupsOf(pre + [snap], order, byApp[snap.appid := byApp[snap.appid] + [snap]])
  {
    SnocOrder(pre, snap);
    var b := byApp[snap.appid := byApp[snap.appid] + [snap]];
    assert b.Keys == byApp.Keys;
    forall a | a in b ensures b[a] == Group(pre + [snap], a) {
      SnocGroup(pre, snap, a);
      assert a in byApp;
    }
  }

  lemma GroupsOfNew(pre: seq<Snapshot>, snap: Snapshot, order: seq<int>, byApp: map<int, seq<Snapshot>>)
    requires GroupsOf(pre, order, byApp) && snap.appid !in byApp
    ensures GroupsOf(pre + [snap], order + [snap.appid], byApp[snap.appid := [snap]])
  {
    SnocOrder(pre, snap);
    assert Group(pre, snap.appid) == [];
    var b := byApp[snap.appid := [snap]];
    forall a | a in b ensures b[a] == Group(pre + [snap], a) {
      SnocGroup(pre, snap, a);
      if a != snap.appid {
        assert a in byApp;
      }
    }
  }
}
