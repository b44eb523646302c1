/**
  Steamid resolution before collection (`_ensure_steamids` in collector.py, and
  its copy in backend_run_once_pg.py): every configured player becomes a
  steamid, either its own or the one its vanity name resolves to, collected in a
  dict that maps each steamid to itself. The Web API call is a function
  parameter `resolve`, as `resolve_vanity_url` would answer it.
 */
module Collector {
  import opened Wrappers
  import opened ConfigLoader

  /** The two `RuntimeError`s: a vanity name that does not resolve, and an empty result. */
  datatype ResolveError = Unresolved(vanityUrl: string) | NoSteamids

  /** A Python `dict[str, str]`: its keys in insertion order and its entries. */
  datatype StrDict = StrDict(keys: seq<string>, entries: map<string, string>)

  const EmptyDict := StrDict([], map[])

  /** `d[k] = v`: a new key goes last, an existing key keeps its place. */
  function Put(d: StrDict, k: string, v: string): StrDict {
    StrDict(if k in d.entries then d.keys else d.keys + [k], d.entries[k := v])
  }

  /** The keys list names exactly the entries, each once. */
  ghost predicate WellFormed(d: StrDict) {
    && (forall k :: k in d.entries <==> k in d.keys)
    && (forall i, j :: 0 <= i < j < |d.keys| ==> d.keys[i] != d.keys[j])
  }

  /** A Python-truthy optional string: present and non-empty. */
  predicate Truthy(o: Option<string>) {
    o.Some? && o.value != []
  }

  /** What one player adds to the dict: its own steamid, its resolved vanity name, or nothing. */
  function Contribution(p: PlayerConfig, resolve: string -> Option<string>): Result<Option<string>, ResolveError> {
    if Truthy(p.steamid) then Ok(Some(p.steamid.value))
    else if Truthy(p.vanityUrl) then
      match resolve(p.vanityUrl.value)
      case None => Err(Unresolved(p.vanityUrl.value))
      case Some(s) => Ok(Some(s))
    else Ok(None)
  }

  /** The dict after the loop over `players`, or the error that stopped it. */
  function Resolved(players: seq<PlayerConfig>, resolve: string -> Option<string>): Result<StrDict, ResolveError> {
    if players == [] then Ok(EmptyDict)
    else
      match Resolved(players[..|players| - 1], resolve)
      case Err(e) => Err(e)
      case Ok(d) =>
        match Contribution(players[|players| - 1], resolve)
        case Err(e) => Err(e)
        case Ok(None) => Ok(d)
        case Ok(Some(s)) => Ok(Put(d, s, s))
  }

  /** `_ensure_steamids`: the loop, then the check that something was found. */
  function Steamids(players: seq<PlayerConfig>, resolve: string -> Option<string>): Result<StrDict, ResolveError> {
    match Resolved(players, resolve)
    case Err(e) => Err(e)
    case Ok(d) => if |d.entries| == 0 then Err(NoSteamids) else Ok(d)
  }

  method EnsureSteamids(players: seq<PlayerConfig>, resolve: string -> Option<string>) returns (r: Result<StrDict, ResolveError>)
    ensures r == Steamids(players, resolve)
  {
    var result := EmptyDict;
    for i := 0 to |players|
      invariant Resolved(players[..i], resolve) == Ok(result)
    {
      var player := players[i];
      ResolvedSnoc(players, i, resolve);
      if Truthy(player.steamid) {
        result := Put(result, player.steamid.value, player.steamid.value);
      } else if Truthy(player.vanityUrl) {
        var steamid := resolve(player.vanityUrl.value);
        if steamid.None? {
          ResolvedErrPersists(players, i + 1, resolve);
          return Err(Unresolved(player.vanityUrl.value));
        }
        result := Put(result, steamid.value, steamid.value);
      }
    }
    assert players[..|players|] == players;
    if |result.entries| == 0 {
      return Err(NoSteamids);
    }
    r := Ok(result);
  }

  lemma ResolvedSnoc(players: seq<PlayerConfig>, i: nat, resolve: string -> Option<string>)
    requires i < |players|
    ensures Resolved(players[..i + 1], resolve) ==
      match Resolved(players[..i], resolve)
      case Err(e) => Err(e)
      case Ok(d) =>
        match Contribution(players[i], resolve)
        case Err(e) => Err(e)
        case Ok(None) => Ok(d)
        case Ok(Some(s)) => Ok(Put(d, s, s))
  {
    var h := players[..i + 1];
    assert h[..i] == players[..i] && h[i] == players[i];
  }

  /** Once a vanity name has failed to resolve, the call raises, whatever follows. */
  lemma {:induction false} ResolvedErrPersists(players: seq<PlayerConfig>, i: nat, resolve: string -> Option<string>)
    requires i <= |players| && Resolved(players[..i], resolve).Err?
    ensures Resolved(players, resolve) == Resolved(players[..i], resolve)
    decreases |players|
  {
    if i < |players| {
      var init := players[..|players| - 1];
      assert init[..i] == players[..i];
      ResolvedErrPersists(init, i, resolve);
    } else {
      assert players[..i] == players;
    }
  }

  // ---------------------------------------------------------------------------
  // Properties

  /** `Put` keeps the keys list and the entries in step, and adds no key twice. */
  lemma PutWellFormed(d: StrDict, k: string, v: string)
    requires WellFormed(d)
    ensures WellFormed(Put(d, k, v))
    ensures Put(d, k, v).entries.Keys == d.entries.Keys + {k}
  {
    var e := Put(d, k, v);
    if k !in d.entries {
      forall i, j | 0 <= i < j < |e.keys| ensures e.keys[i] != e.keys[j] {
        if j == |d.keys| {
          assert e.keys[i] == d.keys[i];
        } else {
          assert e.keys[i] == d.keys[i] && e.keys[j] == d.keys[j];
        }
      }
    }
  }

  /**
    The loop's dict is a well-formed dict whose every key maps to itself, with
    no more keys than players: duplicate steamids collapse into one entry.
   */
  lemma {:induction false} ResolvedShape(players: seq<PlayerConfig>, resolve: string -> Option<string>)
    requires Resolved(players, resolve).Ok?
    ensures var d := Resolved(players, resolve).value;
      && WellFormed(d)
      && (forall k :: k in d.entries ==> d.entries[k] == k)
      && |d.keys| <= |players|
  {
    if players != [] {
      var init := players[..|players| - 1];
      ResolvedShape(init, resolve);
      var d := Resolved(init, resolve).value;
      match Contribution(players[|players| - 1], resolve)
      case Ok(None) =>
      case Ok(Some(s)) => PutWellFormed(d, s, s);
    }
  }

  /** The dict holds exactly the steamids some player contributes. */
  lemma {:induction false} ResolvedMembers(players: seq<PlayerConfig>, resolve: string -> Option<string>, s: string)
    requires Resolved(players, resolve).Ok?
    ensures s in Resolved(players, resolve).value.entries <==>
      exists i :: 0 <= i < |players| && Contribution(players[i], resolve) == Ok(Some(s))
  {
    if players != [] {
      var init, p := players[..|players| - 1], players[|players| - 1];
      ResolvedMembers(init, resolve, s);
      if exists i :: 0 <= i < |players| && Contribution(players[i], resolve) == Ok(Some(s)) {
        var i :| 0 <= i < |players| && Contribution(players[i], resolve) == Ok(Some(s));
        if i < |init| {
          assert init[i] == players[i];
        }
      }
      if exists i :: 0 <= i < |init| && Contribution(init[i], resolve) == Ok(Some(s)) {
        var i :| 0 <= i < |init| && Contribution(init[i], resolve) == Ok(Some(s));
        assert players[i] == init[i];
      }
    }
  }

  /** With no failing player before it, the first player whose vanity name does not resolve decides the error. */
  lemma {:induction false} FirstFailureRaises(players: seq<PlayerConfig>, resolve: string -> Option<string>, i: nat)
    requires i < |players| && Contribution(players[i], resolve).Err?
    requires forall j :: 0 <= j < i ==> Contribution(players[j], resolve).Ok?
    ensures Resolved(players, resolve) == Err(Unresolved(players[i].vanityUrl.value))
  {
    NoFailureResolves(players[..i], resolve);
    ResolvedSnoc(players, i, resolve);
    ResolvedErrPersists(players, i + 1, resolve);
  }

  /** When every vanity name that is looked up resolves, the loop completes. */
  lemma {:induction false} NoFailureResolves(players: seq<PlayerConfig>, resolve: string -> Option<string>)
    requires forall j :: 0 <= j < |players| ==> Contribution(players[j], resolve).Ok?
    ensures Resolved(players, resolve).Ok?
  {
    if players != [] {
      var init := players[..|players| - 1];
      assert forall j :: 0 <= j < |init| ==> init[j] == players[j];
      NoFailureResolves(init, resolve);
    }
  }

  /**
    `_ensure_steamids` raises "no steamid" exactly when no player names a
    steamid or a vanity name.
   */
  lemma NoSteamidsExactly(players: seq<PlayerConfig>, resolve: string -> Option<string>)
    ensures Steamids(players, resolve) == Err(NoSteamids) <==>
      forall i :: 0 <= i < |players| ==> !Truthy(players[i].steamid) && !Truthy(players[i].vanityUrl)
  {
    if forall i :: 0 <= i < |players| ==> !Truthy(players[i].steamid) && !Truthy(players[i].vanityUrl) {
      NoTargetNoSteamids(players, resolve);
    } else {
      var i :| 0 <= i < |players| && (Truthy(players[i].steamid) || Truthy(players[i].vanityUrl));
      TargetGivesSteamids(players, resolve, i);
    }
  }

  lemma NoTargetNoSteamids(players: seq<PlayerConfig>, resolve: string -> Option<string>)
    requires forall i :: 0 <= i < |players| ==> !Truthy(players[i].steamid) && !Truthy(players[i].vanityUrl)
    ensures Steamids(players, resolve) == Err(NoSteamids)
  {
    NoFailureResolves(players, resolve);
    var d := Resolved(players, resolve).value;
    forall s ensures s !in d.entries {
      ResolvedMembers(players, resolve, s);
    }
    assert d.entries.Keys == {};
  }

  lemma TargetGivesSteamids(players: seq<PlayerConfig>, resolve: string -> Option<string>, i: nat)
    requires i < |players| && (Truthy(players[i].steamid) || Truthy(players[i].vanityUrl))
    ensures Steamids(players, resolve) != Err(NoSteamids)
  {
    if Resolved(players, resolve).Ok? {
      ResolvedAllContribute(players, resolve, i);
      var s := Contribution(players[i], resolve).value.value;
      ResolvedMembers(players, resolve, s);
      assert s in Resolved(players, resolve).value.entries;
    } else {
      ResolvedErrIsUnresolved(players, resolve);
    }
  }

  /** When the loop completes, every player's lookup succeeded. */
  lemma {:induction false} ResolvedAllContribute(players: seq<PlayerConfig>, resolve: string -> Option<string>, i: nat)
    requires i < |players| && Resolved(players, resolve).Ok?
    ensures Contribution(players[i], resolve).Ok?
  {
    var init := players[..|players| - 1];
    if i < |init| {
      assert init[i] == players[i];
      ResolvedAllContribute(init, resolve, i);
    }
  }

  /** The loop itself only ever raises for an unresolved vanity name. */
  lemma {:induction false} ResolvedErrIsUnresolved(players: seq<PlayerConfig>, resolve: string -> Option<string>)
    requires Resolved(players, resolve).Err?
    ensures Resolved(players, resolve).error.Unresolved?
  {
    var init := players[..|players| - 1];
    if Resolved(init, resolve).Err? {
      ResolvedErrIsUnresolved(init, resolve);
    }
  }

  /**
    A player with a steamid is never looked up: two resolvers that agree on the
    vanity names of the players without one give the same result.
   */
  lemma {:induction false} ResolverOnlyForVanity(players: seq<PlayerConfig>, r1: string -> Option<string>, r2: string -> Option<string>)
    requires forall i :: 0 <= i < |players| && !Truthy(players[i].steamid) && Truthy(players[i].vanityUrl) ==>
      r1(players[i].vanityUrl.value) == r2(players[i].vanityUrl.value)
    ensures Resolved(players, r1) == Resolved(players, r2)
    ensures Steamids(players, r1) == Steamids(players, r2)
  {
    if players != [] {
      var init := players[..|players| - 1];
      assert forall j :: 0 <= j < |init| ==> init[j] == players[j];
      ResolverOnlyForVanity(init, r1, r2);
      assert Contribution(players[|players| - 1], r1) == Contribution(players[|players| - 1], r2);
    }
  }

  /** A player with a steamid is in the result, mapped to itself. */
  lemma SteamidPlayerKept(players: seq<PlayerConfig>, resolve: string -> Option<string>, i: nat)
    requires i < |players| && Truthy(players[i].steamid)
    requires Steamids(players, resolve).Ok?
    ensures var d := Steamids(players, resolve).value;
      players[i].steamid.value in d.entries && d.entries[players[i].steamid.value] == players[i].steamid.value
  {
    ResolvedMembers(players, resolve, players[i].steamid.value);
    ResolvedShape(players, resolve);
  }
}
