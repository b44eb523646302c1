/**
  Session inference as analyzer.py performs it: group one steamid's snapshots by
  appid, walk each group with a window of width 2, emit a session for every pair
  whose cumulative playtime strictly grew, and concatenate the groups' sessions
  in the order the appids first appear. The snapshot store is a parameter
  (`fetch`), standing for `PlaytimeStorage.fetch_snapshots_ordered`.
 */
module Analyzer {
  import opened Snapshots

  /** One adjacent pair: a session when the counter strictly increased, nothing otherwise. */
  function Step(steamid: string, appid: int, prev: Snapshot, cur: Snapshot): seq<PlaySession> {
    if cur.playtimeForever > prev.playtimeForever then [MakeSession(steamid, appid, prev, cur)] else []
  }

  /** The width-2 window over one appid's snapshots; `prev` moves on at every step. */
  function Walk(steamid: string, appid: int, g: seq<Snapshot>): (r: seq<PlaySession>)
    ensures |g| < 2 ==> r == []
    ensures |r| < |g| || r == []
    ensures forall k :: 0 <= k < |r| ==>
      r[k].steamid == steamid && r[k].appid == appid && r[k].minutesDelta > 0 && r[k].gameName != []
  {
    if |g| < 2 then []
    else Walk(steamid, appid, g[..|g| - 1]) + Step(steamid, appid, g[|g| - 2], g[|g| - 1])
  }

  /** The walks of the appids in `order`, concatenated in that order. */
  function WalkAll(steamid: string, order: seq<int>, snaps: seq<Snapshot>): (r: seq<PlaySession>)
    ensures forall k :: 0 <= k < |r| ==>
      r[k].steamid == steamid && r[k].appid in order && r[k].minutesDelta > 0 && r[k].gameName != []
  {
    if order == [] then []
    else
      var a := order[|order| - 1];
      WalkAll(steamid, order[..|order| - 1], snaps) + Walk(steamid, a, Group(snaps, a))
  }

  /** What `infer_sessions_for_steamid` returns for the snapshots the store hands it. */
  function SessionsFor(steamid: string, snaps: seq<Snapshot>): seq<PlaySession> {
    WalkAll(steamid, AppOrder(snaps), snaps)
  }

  /** What `infer_sessions_for_all` returns: each steamid's sessions, in argument order. */
  function AllSessions(fetch: string -> seq<Snapshot>, steamids: seq<string>): seq<PlaySession> {
    Flatten(Each(Inferred(fetch), steamids))
  }

  /** `infer_sessions_for_steamid` against the store `fetch`. */
  function Inferred(fetch: string -> seq<Snapshot>): string -> seq<PlaySession> {
    steamid => SessionsFor(steamid, fetch(steamid))
  }

  /** `f` applied to each steamid in turn. */
  function Each(f: string -> seq<PlaySession>, steamids: seq<string>): (r: seq<seq<PlaySession>>)
    ensures |r| == |steamids|
  {
    seq(|steamids|, i requires 0 <= i < |steamids| => f(steamids[i]))
  }

  function Flatten(xss: seq<seq<PlaySession>>): seq<PlaySession> {
    if xss == [] then [] else Flatten(xss[..|xss| - 1]) + xss[|xss| - 1]
  }

  method InferSessionsForSteamid(snapshots: seq<Snapshot>, steamid: string) returns (sessions: seq<PlaySession>)
    ensures sessions == SessionsFor(steamid, snapshots)
  {
    var order, byApp := GroupByApp(snapshots);
    sessions := [];
    for k := 0 to |order|
      invariant sessions == WalkAll(steamid, order[..k], snapshots)
    {
      var appid := order[k];
      var appSessions := WalkGroup(steamid, appid, byApp[appid]);
      WalkAllSnoc(steamid, order, k, snapshots);
      sessions := sessions + appSessions;
    }
    assert order[..|order|] == order;
  }

  /** The loop over one appid's list: `prev` starts at the first snapshot and is reassigned every step. */
  method WalkGroup(steamid: string, appid: int, appSnaps: seq<Snapshot>) returns (sessions: seq<PlaySession>)
    ensures sessions == Walk(steamid, appid, appSnaps)
  {
    sessions := [];
    if |appSnaps| < 2 {
      return;
    }
    var prev := appSnaps[0];
    for j := 1 to |appSnaps|
      invariant prev == appSnaps[j - 1]
      invariant sessions == Walk(steamid, appid, appSnaps[..j])
    {
      var current := appSnaps[j];
      WalkSnoc(steamid, appid, appSnaps, j);
      if current.playtimeForever > prev.playtimeForever {
        var delta := current.playtimeForever - prev.playtimeForever;
        var gameName := SessionName(appid, prev, current);
        sessions := sessions + [PlaySession(steamid, appid, gameName, prev.capturedAt, current.capturedAt, delta)];
      }
      prev := current;
    }
    assert appSnaps[..|appSnaps|] == appSnaps;
  }

  lemma WalkSnoc(steamid: string, appid: int, g: seq<Snapshot>, j: nat)
    requires 1 <= j < |g|
    ensures Walk(steamid, appid, g[..j + 1]) == Walk(steamid, appid, g[..j]) +
      if g[j].playtimeForever > g[j - 1].playtimeForever then
        [PlaySession(steamid, appid, SessionName(appid, g[j - 1], g[j]), g[j - 1].capturedAt, g[j].capturedAt,
                     g[j].playtimeForever - g[j - 1].playtimeForever)]
      else []
  {
    var h := g[..j + 1];
    assert h[..j] == g[..j] && h[j - 1] == g[j - 1] && h[j] == g[j];
  }

  lemma WalkAllSnoc(steamid: string, order: seq<int>, k: nat, snaps: seq<Snapshot>)
    requires k < |order|
    ensures WalkAll(steamid, order[..k + 1], snaps)
         == WalkAll(steamid, order[..k], snaps) + Walk(steamid, order[k], Group(snaps, order[k]))
  {
    assert order[..k + 1][..k] == order[..k];
  }

  method InferSessionsForAll(fetch: string -> seq<Snapshot>, steamids: seq<string>) returns (allSessions: seq<PlaySession>)
    ensures allSessions == AllSessions(fetch, steamids)
  {
    allSessions := [];
    for i := 0 to |steamids|
      invariant allSessions == AllSessions(fetch, steamids[..i])
    {
      var sessions := InferSessionsForSteamid(fetch(steamids[i]), steamids[i]);
      assert steamids[..i + 1] == steamids[..i] + [steamids[i]];
      AllSessionsSnoc(fetch, steamids[..i], steamids[i]);
      allSessions := allSessions + sessions;
    }
    assert steamids[..|steamids|] == steamids;
  }

  // ---------------------------------------------------------------------------
  // What the walk emits

  /** The pair `(g[i-1], g[i])` exists and its counter strictly increased. */
  predicate Increase(g: seq<Snapshot>, i: int) {
    1 <= i < |g| && g[i - 1].playtimeForever < g[i].playtimeForever
  }

  /** The indices `i` of the adjacent pairs `(g[i-1], g[i])` whose counter strictly increased. */
  function IncreasingPairs(g: seq<Snapshot>): (idx: seq<int>)
    ensures forall k :: 0 <= k < |idx| ==> Increase(g, idx[k])
  {
    if |g| < 2 then []
    else
      var init := g[..|g| - 1];
      var rest := IncreasingPairs(init);
      assert forall i :: Increase(init, i) ==> Increase(g, i);
      rest + (if Increase(g, |g| - 1) then [|g| - 1] else [])
  }

  /** Every increasing pair is listed. */
  lemma {:induction false} IncreasingPairsComplete(g: seq<Snapshot>, i: int)
    requires Increase(g, i)
    ensures i in IncreasingPairs(g)
  {
    if i < |g| - 1 {
      var init := g[..|g| - 1];
      assert Increase(init, i);
      IncreasingPairsComplete(init, i);
    }
  }

  /** The pairs are listed in increasing order, each pair ending before the next one's. */
  lemma {:induction false} IncreasingPairsSorted(g: seq<Snapshot>)
    ensures forall k, l :: 0 <= k < l < |IncreasingPairs(g)| ==> IncreasingPairs(g)[k] < IncreasingPairs(g)[l]
  {
    if |g| >= 2 {
      var init := g[..|g| - 1];
      IncreasingPairsSorted(init);
      var p, pi := IncreasingPairs(g), IncreasingPairs(init);
      forall k, l | 0 <= k < l < |p| ensures p[k] < p[l] {
        assert p[k] == pi[k];
        if l < |pi| {
          assert p[l] == pi[l];
        } else {
          assert Increase(init, pi[k]);
        }
      }
    }
  }

  /**
    Exactly one session per increasing pair, in pair order: the k-th session is the
    one made from the k-th increasing pair, with delta = cur - prev, window_start =
    prev's time and window_end = cur's time; a flat or decreasing pair emits nothing.
   */
  lemma {:induction false} WalkIsIncreasingPairs(steamid: string, appid: int, g: seq<Snapshot>)
    ensures |Walk(steamid, appid, g)| == |IncreasingPairs(g)|
    ensures forall k :: 0 <= k < |IncreasingPairs(g)| ==>
      Walk(steamid, appid, g)[k] == MakeSession(steamid, appid, g[IncreasingPairs(g)[k] - 1], g[IncreasingPairs(g)[k]])
  {
    WalkLength(steamid, appid, g);
    forall k | 0 <= k < |IncreasingPairs(g)|
      ensures Walk(steamid, appid, g)[k] == MakeSession(steamid, appid, g[IncreasingPairs(g)[k] - 1], g[IncreasingPairs(g)[k]])
    {
      WalkAt(steamid, appid, g, k);
    }
  }

  lemma {:induction false} WalkLength(steamid: string, appid: int, g: seq<Snapshot>)
    ensures |Walk(steamid, appid, g)| == |IncreasingPairs(g)|
  {
    if |g| >= 2 {
      WalkLength(steamid, appid, g[..|g| - 1]);
    }
  }

  lemma {:induction false} WalkAt(steamid: string, appid: int, g: seq<Snapshot>, k: nat)
    requires k < |IncreasingPairs(g)|
    ensures k < |Walk(steamid, appid, g)|
    ensures Walk(steamid, appid, g)[k] == MakeSession(steamid, appid, g[IncreasingPairs(g)[k] - 1], g[IncreasingPairs(g)[k]])
  {
    var init := g[..|g| - 1];
    WalkLength(steamid, appid, g);
    WalkLength(steamid, appid, init);
    var w, wi := Walk(steamid, appid, g), Walk(steamid, appid, init);
    var p, pi := IncreasingPairs(g), IncreasingPairs(init);
    assert w == wi + Step(steamid, appid, g[|g| - 2], g[|g| - 1]);
    if k < |pi| {
      WalkAt(steamid, appid, init, k);
      assert w[k] == wi[k] && p[k] == pi[k];
      assert init[pi[k] - 1] == g[p[k] - 1] && init[pi[k]] == g[p[k]];
    } else {
      assert Increase(g, |g| - 1) && p[k] == |g| - 1;
      assert w[k] == Step(steamid, appid, g[|g| - 2], g[|g| - 1])[0];
    }
  }

  /** On a time-ordered group every window is well formed and the windows do not overlap, in order. */
  lemma WalkWindowsOrdered(steamid: string, appid: int, g: seq<Snapshot>)
    requires TimeOrdered(g)
    ensures var w := Walk(steamid, appid, g);
      && (forall k :: 0 <= k < |w| ==> w[k].windowStart <= w[k].windowEnd)
      && (forall k, l :: 0 <= k < l < |w| ==> w[k].windowEnd <= w[l].windowStart)
  {
    WalkIsIncreasingPairs(steamid, appid, g);
    IncreasingPairsSorted(g);
  }

  // ---------------------------------------------------------------------------
  // Groups are independent of each other

  /** The sessions of one appid, in their order. */
  function SessionsOf(ss: seq<PlaySession>, appid: int): (r: seq<PlaySession>)
    ensures forall k :: 0 <= k < |r| ==> r[k].appid == appid
  {
    if ss == [] then []
    else SessionsOf(ss[..|ss| - 1], appid) + (if ss[|ss| - 1].appid == appid then [ss[|ss| - 1]] else [])
  }

  lemma {:induction false} SessionsOfAppend(x: seq<PlaySession>, y: seq<PlaySession>, appid: int)
    ensures SessionsOf(x + y, appid) == SessionsOf(x, appid) + SessionsOf(y, appid)
    decreases |y|
  {
    if y == [] {
      assert x + y == x;
    } else {
      assert (x + y)[..|x + y| - 1] == x + y[..|y| - 1];
      SessionsOfAppend(x, y[..|y| - 1], appid);
    }
  }

  lemma {:induction false} SessionsOfUniform(ss: seq<PlaySession>, appid: int, b: int)
    requires forall k :: 0 <= k < |ss| ==> ss[k].appid == b
    ensures SessionsOf(ss, appid) == if appid == b then ss else []
  {
    if ss != [] {
      SessionsOfUniform(ss[..|ss| - 1], appid, b);
    }
  }

  lemma {:induction false} WalkAllOf(steamid: string, order: seq<int>, snaps: seq<Snapshot>, appid: int)
    requires forall i, j :: 0 <= i < j < |order| ==> order[i] != order[j]
    ensures SessionsOf(WalkAll(steamid, order, snaps), appid)
         == if appid in order then Walk(steamid, appid, Group(snaps, appid)) else []
  {
    if order != [] {
      var init, a := order[..|order| - 1], order[|order| - 1];
      DistinctInit(order);
      WalkAllOf(steamid, init, snaps, appid);
      WalkAllLast(steamid, order, snaps, appid);
      InSnoc(order, appid);
    }
  }

  /** Dropping the last appid of a list of distinct appids leaves distinct appids without it. */
  lemma DistinctInit(order: seq<int>)
    requires order != []
    requires forall i, j :: 0 <= i < j < |order| ==> order[i] != order[j]
    ensures var init := order[..|order| - 1];
      (forall i, j :: 0 <= i < j < |init| ==> init[i] != init[j]) && order[|order| - 1] !in init
  {
    var init := order[..|order| - 1];
    forall j | 0 <= j < |init| ensures init[j] != order[|order| - 1] {
      assert init[j] == order[j];
    }
  }

  lemma InSnoc(order: seq<int>, x: int)
    requires order != []
    ensures x in order <==> x in order[..|order| - 1] || x == order[|order| - 1]
  {
    assert order == order[..|order| - 1] + [order[|order| - 1]];
  }

  /** The last appid's walk adds its sessions to that appid only. */
  lemma WalkAllLast(steamid: string, order: seq<int>, snaps: seq<Snapshot>, appid: int)
    requires order != []
    ensures var a := order[|order| - 1];
      SessionsOf(WalkAll(steamid, order, snaps), appid)
      == SessionsOf(WalkAll(steamid, order[..|order| - 1], snaps), appid) + (if appid == a then Walk(steamid, a, Group(snaps, a)) else [])
  {
    var a := order[|order| - 1];
    var x, w := WalkAll(steamid, order[..|order| - 1], snaps), Walk(steamid, a, Group(snaps, a));
    SessionsOfAppend(x, w, appid);
    SessionsOfUniform(w, appid, a);
  }

  /**
    The sessions of one appid are exactly the walk over that appid's own
    snapshots, unaffected by the other appids interleaved with them.
   */
  lemma PerAppIndependent(steamid: string, snaps: seq<Snapshot>, appid: int)
    ensures SessionsOf(SessionsFor(steamid, snaps), appid) == Walk(steamid, appid, Group(snaps, appid))
  {
    WalkAllOf(steamid, AppOrder(snaps), snaps, appid);
  }

  /** An appid observed fewer than twice contributes nothing. */
  lemma ShortGroupSilent(steamid: string, snaps: seq<Snapshot>, appid: int)
    requires |Group(snaps, appid)| < 2
    ensures forall k :: 0 <= k < |SessionsFor(steamid, snaps)| ==> SessionsFor(steamid, snaps)[k].appid != appid
  {
    PerAppIndependent(steamid, snaps, appid);
    var ss := SessionsFor(steamid, snaps);
    forall k | 0 <= k < |ss| ensures ss[k].appid != appid {
      if ss[k].appid == appid {
        SessionsOfMember(ss, appid, k);
      }
    }
  }

  lemma {:induction false} SessionsOfMember(ss: seq<PlaySession>, appid: int, k: nat)
    requires k < |ss| && ss[k].appid == appid
    ensures SessionsOf(ss, appid) != []
  {
    if k < |ss| - 1 {
      SessionsOfMember(ss[..|ss| - 1], appid, k);
    }
  }

  /** With the store's ordering, each appid's sessions have ordered, non-overlapping windows. */
  lemma SessionsTimeOrdered(steamid: string, snaps: seq<Snapshot>, appid: int)
    requires TimeOrderedPerApp(snaps)
    ensures var w := SessionsOf(SessionsFor(steamid, snaps), appid);
      && (forall k :: 0 <= k < |w| ==> w[k].windowStart <= w[k].windowEnd)
      && (forall k, l :: 0 <= k < l < |w| ==> w[k].windowEnd <= w[l].windowStart)
  {
    PerAppIndependent(steamid, snaps, appid);
    GroupTimeOrdered(snaps, appid);
    WalkWindowsOrdered(steamid, appid, Group(snaps, appid));
  }

  // ---------------------------------------------------------------------------
  // The batch

  lemma {:induction false} FlattenAppend(x: seq<seq<PlaySession>>, y: seq<seq<PlaySession>>)
    ensures Flatten(x + y) == Flatten(x) + Flatten(y)
    decreases |y|
  {
    if y == [] {
      assert x + y == x;
    } else {
      var z := x + y;
      assert z[..|z| - 1] == x + y[..|y| - 1];
      assert z[|z| - 1] == y[|y| - 1];
      FlattenAppend(x, y[..|y| - 1]);
    }
  }

  lemma EachAppend(f: string -> seq<PlaySession>, xs: seq<string>, ys: seq<string>)
    ensures Each(f, xs + ys) == Each(f, xs) + Each(f, ys)
  {
    var a, b, c := Each(f, xs + ys), Each(f, xs), Each(f, ys);
    forall i | 0 <= i < |a| ensures a[i] == (b + c)[i] {
      if i < |xs| {
        assert (xs + ys)[i] == xs[i];
      } else {
        assert (xs + ys)[i] == ys[i - |xs|];
      }
    }
  }

  /** The batch result for `xs + ys` is the result for `xs` followed by the result for `ys`. */
  lemma AllSessionsAppend(fetch: string -> seq<Snapshot>, xs: seq<string>, ys: seq<string>)
    ensures AllSessions(fetch, xs + ys) == AllSessions(fetch, xs) + AllSessions(fetch, ys)
  {
    var f := Inferred(fetch);
    EachAppend(f, xs, ys);
    FlattenAppend(Each(f, xs), Each(f, ys));
  }

  lemma AllSessionsSnoc(fetch: string -> seq<Snapshot>, steamids: seq<string>, id: string)
    ensures AllSessions(fetch, steamids + [id]) == AllSessions(fetch, steamids) + SessionsFor(id, fetch(id))
  {
    var f := Inferred(fetch);
    EachAppend(f, steamids, [id]);
    var x := Each(f, steamids);
    assert Each(f, [id]) == [f(id)];
    assert (x + [f(id)])[..|x|] == x;
  }

  /** Every session of a batch belongs to one of the requested steamids. */
  lemma {:induction false} AllSessionsOwners(fetch: string -> seq<Snapshot>, steamids: seq<string>)
    ensures forall k :: 0 <= k < |AllSessions(fetch, steamids)| ==> AllSessions(fetch, steamids)[k].steamid in steamids
  {
    if steamids != [] {
      var init, last := steamids[..|steamids| - 1], steamids[|steamids| - 1];
      assert steamids == init + [last];
      AllSessionsOwners(fetch, init);
      AllSessionsSnoc(fetch, init, last);
    }
  }

  // ---------------------------------------------------------------------------
  // Worked examples (one appid, times 1, 2, 3)

  function Snap(t: int, minutes: int): Snapshot {
    Snapshot(t, "s", 10, Wrappers.Some("Portal"), minutes)
  }

  /** 100 then 130: one session of 30 over [1, 2]. */
  lemma ExampleOneIncrease()
    ensures Walk("s", 10, [Snap(1, 100), Snap(2, 130)]) == [PlaySession("s", 10, "Portal", 1, 2, 30)]
  {
    var g := [Snap(1, 100), Snap(2, 130)];
    assert g[..1] == [Snap(1, 100)];
  }

  /** 100, 100, 100: a flat counter yields nothing. */
  lemma ExampleFlat()
    ensures Walk("s", 10, [Snap(1, 100), Snap(2, 100), Snap(3, 100)]) == []
  {
    var g := [Snap(1, 100), Snap(2, 100), Snap(3, 100)];
    assert g[..2] == [Snap(1, 100), Snap(2, 100)];
    assert g[..2][..1] == [Snap(1, 100)];
  }

  /** 100, 80, 150: the drop is skipped and the next pair is measured from 80. */
  lemma ExampleCorrection()
    ensures Walk("s", 10, [Snap(1, 100), Snap(2, 80), Snap(3, 150)]) == [PlaySession("s", 10, "Portal", 2, 3, 70)]
  {
    var g := [Snap(1, 100), Snap(2, 80), Snap(3, 150)];
    assert g[..2] == [Snap(1, 100), Snap(2, 80)];
    assert g[..2][..1] == [Snap(1, 100)];
  }
}
