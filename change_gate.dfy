/**
  The collector's change-detection gate (`SteamCollectorV2.is_data_changed` in
  backend/collector.py): a new scrape of recently played games is saved only
  when it differs from the last stored snapshot, where "differs" means a
  different number of games, a game the old list lacks, or a total-hours
  value that moved by more than 0.01.
 */
module ChangeGate {
  import opened Wrappers

  /** How a game dict holds its `appid`: no such key, an explicit null, or a number. */
  datatype AppIdField = NoKey | NullId | Id(id: int)

  /** How a game dict holds its `playtime_total` (hours, as an exact real): no such key, an explicit null, or a number. */
  datatype HoursField = NoHours | NullHours | HoursOf(h: real)

  /** One game dict. */
  datatype Entry = Entry(appid: AppIdField, playtimeTotal: HoursField)

  /** How the stored dict holds `recent_games`: no such key, an explicit null, or a list. */
  datatype GamesField = NoGamesKey | NullGames | Games(games: seq<Entry>)

  /** `old_data`: `None`, some value that is not a dict, or a dict. */
  datatype OldData = Missing | NotADict | Data(recentGames: GamesField)

  /** What the gate can raise: `KeyError` for an old game without `'appid'`, `TypeError` for arithmetic or `len` on a null. */
  datatype Raised = KeyError | TypeError

  /**
    `old_data.get('recent_games', []) if isinstance(old_data, dict) else []`, up to
    `len(old_games)`, which raises on a stored null.
   */
  function OldGames(prior: OldData): (r: Result<seq<Entry>, Raised>)
    requires !prior.Missing?
    ensures r.Err? <==> prior == Data(NullGames)
    ensures r.Err? ==> r.error == TypeError
  {
    match prior
    case NotADict => Ok([])
    case Data(NoGamesKey) => Ok([])
    case Data(NullGames) => Err(TypeError)
    case Data(Games(games)) => Ok(games)
  }

  /** `new_game.get('appid')` is truthy: a non-zero number. */
  predicate Counted(e: Entry) {
    e.appid.Id? && e.appid.id != 0
  }

  /** `e.get('playtime_total', 0)`; `None` for a stored null. */
  function Hours(e: Entry): Option<real> {
    match e.playtimeTotal
    case NoHours => Some(0.0)
    case NullHours => None
    case HoursOf(h) => Some(h)
  }

  function Abs(x: real): real {
    if x < 0.0 then -x else x
  }

  /**
    `{game['appid']: game for game in old_games}`: an entry without the key raises,
    the last entry of each appid wins, and an explicit null key can never be looked up
    (only truthy appids are), so it is not kept.
   */
  function OldIndex(games: seq<Entry>): (r: Result<map<int, Entry>, Raised>)
    ensures r.Err? <==> exists k :: 0 <= k < |games| && games[k].appid.NoKey?
    ensures r.Err? ==> r.error == KeyError
    ensures r.Ok? ==> forall a :: a in r.value <==> exists k :: 0 <= k < |games| && games[k].appid == Id(a)
  {
    if games == [] then Ok(map[])
    else
      var init, last := games[..|games| - 1], games[|games| - 1];
      assert forall k :: 0 <= k < |init| ==> init[k] == games[k];
      match OldIndex(init)
      case Err(e) => Err(e)
      case Ok(m) =>
        match last.appid
        case NoKey => Err(KeyError)
        case NullId => Ok(m)
        case Id(a) => Ok(m[a := last])
  }

  /** A compared game where `abs(old_time - new_time)` meets a null and raises `TypeError`. */
  predicate NullPair(e: Entry, index: map<int, Entry>) {
    && Counted(e)
    && e.appid.id in index
    && (Hours(index[e.appid.id]).None? || Hours(e).None?)
  }

  /**
    Whether the loop stops at this new game: a truthy appid that the old list lacks,
    whose hours comparison raises, or whose hours moved by more than 0.01.
   */
  predicate Stops(e: Entry, index: map<int, Entry>) {
    && Counted(e)
    && (|| e.appid.id !in index
        || NullPair(e, index)
        || Abs(Hours(index[e.appid.id]).value - Hours(e).value) > 0.01)
  }

  /** What the loop returns when it stops at `e`. */
  function StopValue(e: Entry, index: map<int, Entry>): Result<bool, Raised> {
    if NullPair(e, index) then Err(TypeError) else Ok(true)
  }

  /** The loop over `new_data` with its early returns. */
  function Scan(newData: seq<Entry>, index: map<int, Entry>): Result<bool, Raised> {
    if newData == [] then Ok(false)
    else if Stops(newData[0], index) then StopValue(newData[0], index)
    else Scan(newData[1..], index)
  }

  /** `is_data_changed(old_data, new_data)`; `Err` is the exception it raises. */
  function IsDataChanged(prior: OldData, newData: seq<Entry>): Result<bool, Raised> {
    if prior.Missing? then Ok(true)
    else
      match OldGames(prior)
      case Err(e) => Err(e)
      case Ok(oldGames) =>
        if |oldGames| != |newData| then Ok(true)
        else
          match OldIndex(oldGames)
          case Err(e) => Err(e)
          case Ok(index) => Scan(newData, index)
  }

  // ---------------------------------------------------------------------------
  // Properties

  /** The loop stops at position `k` and at no earlier one. */
  ghost predicate FirstStop(newData: seq<Entry>, index: map<int, Entry>, k: int) {
    && 0 <= k < |newData|
    && Stops(newData[k], index)
    && forall j :: 0 <= j < k ==> !Stops(newData[j], index)
  }

  /**
    The loop runs to the end, returning `False`, exactly when no new game stops it;
    otherwise it returns what the first game that stops it calls for.
   */
  lemma {:induction false} ScanFirstStop(newData: seq<Entry>, index: map<int, Entry>)
    ensures Scan(newData, index) == Ok(false) <==> forall k :: 0 <= k < |newData| ==> !Stops(newData[k], index)
    ensures Scan(newData, index) != Ok(false) ==>
      exists k :: FirstStop(newData, index, k) && Scan(newData, index) == StopValue(newData[k], index)
  {
    if newData != [] {
      var rest := newData[1..];
      ScanFirstStop(rest, index);
      assert forall k :: 0 <= k < |rest| ==> rest[k] == newData[k + 1];
      if Stops(newData[0], index) {
        assert FirstStop(newData, index, 0);
      } else if Scan(rest, index) != Ok(false) {
        var k :| FirstStop(rest, index, k) && Scan(rest, index) == StopValue(rest[k], index);
        assert FirstStop(newData, index, k + 1);
      }
    }
  }

  /** Only one position can be the first stop. */
  lemma FirstStopUnique(newData: seq<Entry>, index: map<int, Entry>, i: int, j: int)
    requires FirstStop(newData, index, i) && FirstStop(newData, index, j)
    ensures i == j
  {
  }

  /** The first collection is always saved. */
  lemma FirstCollection(newData: seq<Entry>)
    ensures IsDataChanged(Missing, newData) == Ok(true)
  {
  }

  /**
    A non-dict snapshot and a dict without `recent_games` both count as an empty
    game list; a stored null list raises whatever the new list holds.
   */
  lemma NoOldGames(newData: seq<Entry>)
    ensures IsDataChanged(NotADict, newData) == IsDataChanged(Data(Games([])), newData)
    ensures IsDataChanged(Data(NoGamesKey), newData) == IsDataChanged(Data(Games([])), newData)
    ensures newData != [] ==> IsDataChanged(NotADict, newData) == Ok(true)
    ensures IsDataChanged(NotADict, []) == Ok(false)
    ensures IsDataChanged(Data(NullGames), newData) == Err(TypeError)
  {
  }

  /**
    Given a stored snapshot: a null game list raises `TypeError`; lists of different
    lengths are a change; lists of equal length raise `KeyError` exactly when an old
    game lacks `appid`. Otherwise the result is `False` exactly when no new game stops
    the loop, and at the first one that does it is `TypeError` if its hours meet a
    null and `True` if not. Games with a missing or zero appid are never compared.
   */
  lemma Characterised(prior: OldData, newData: seq<Entry>)
    requires !prior.Missing?
    ensures OldGames(prior).Err? ==> IsDataChanged(prior, newData) == Err(TypeError)
    ensures OldGames(prior).Ok? ==> var oldGames := OldGames(prior).value;
      && (|oldGames| != |newData| ==> IsDataChanged(prior, newData) == Ok(true))
      && (|oldGames| == |newData| ==>
            (IsDataChanged(prior, newData) == Err(KeyError) <==>
               exists k :: 0 <= k < |oldGames| && oldGames[k].appid.NoKey?))
      && (|oldGames| == |newData| && OldIndex(oldGames).Ok? ==>
            var index := OldIndex(oldGames).value;
            && (IsDataChanged(prior, newData) == Ok(false) <==>
                  forall k :: 0 <= k < |newData| ==> !Stops(newData[k], index))
            && (forall k :: FirstStop(newData, index, k) ==>
                  IsDataChanged(prior, newData) == (if NullPair(newData[k], index) then Err(TypeError) else Ok(true))))
  {
    if OldGames(prior).Ok? {
      var oldGames := OldGames(prior).value;
      if |oldGames| == |newData| && OldIndex(oldGames).Ok? {
        var index := OldIndex(oldGames).value;
        ScanFirstStop(newData, index);
        forall k | FirstStop(newData, index, k)
          ensures IsDataChanged(prior, newData) == StopValue(newData[k], index)
        {
          if Scan(newData, index) == Ok(false) {
            assert false;
          } else {
            var i :| FirstStop(newData, index, i) && Scan(newData, index) == StopValue(newData[i], index);
            FirstStopUnique(newData, index, i, k);
          }
        }
      }
    }
  }

  /** Two entries never share a (non-null) appid. */
  predicate DistinctAppids(games: seq<Entry>) {
    forall i, j :: 0 <= i < j < |games| && games[i].appid.Id? ==> games[i].appid != games[j].appid
  }

  /** With distinct appids, the index maps each appid to its own entry. */
  lemma {:induction false} OldIndexOfDistinct(games: seq<Entry>, k: nat)
    requires k < |games| && games[k].appid.Id?
    requires DistinctAppids(games)
    requires OldIndex(games).Ok?
    ensures games[k].appid.id in OldIndex(games).value
    ensures OldIndex(games).value[games[k].appid.id] == games[k]
  {
    var init, last := games[..|games| - 1], games[|games| - 1];
    if k < |games| - 1 {
      assert init[k] == games[k];
      assert DistinctAppids(init) by {
        forall i, j | 0 <= i < j < |init| && init[i].appid.Id? ensures init[i].appid != init[j].appid {
          assert init[i] == games[i] && init[j] == games[j];
        }
      }
      OldIndexOfDistinct(init, k);
      assert games[k].appid != last.appid;
    }
  }

  /**
    Comparing a stored list of distinct games with itself finds no change: the
    snapshot that was just saved does not trigger another save, unless one of its
    compared games holds a null total, which raises `TypeError`.
   */
  lemma SelfComparison(games: seq<Entry>)
    requires forall k :: 0 <= k < |games| ==> !games[k].appid.NoKey?
    requires DistinctAppids(games)
    ensures IsDataChanged(Data(Games(games)), games) ==
      if exists k :: 0 <= k < |games| && Counted(games[k]) && games[k].playtimeTotal.NullHours?
      then Err(TypeError) else Ok(false)
  {
    var index := OldIndex(games).value;
    forall k | 0 <= k < |games| && Counted(games[k])
      ensures Stops(games[k], index) <==> games[k].playtimeTotal.NullHours?
      ensures Stops(games[k], index) ==> NullPair(games[k], index)
    {
      OldIndexOfDistinct(games, k);
    }
    ScanFirstStop(games, index);
    if exists k :: 0 <= k < |games| && Counted(games[k]) && games[k].playtimeTotal.NullHours? {
      var k :| 0 <= k < |games| && Counted(games[k]) && games[k].playtimeTotal.NullHours?;
      assert Stops(games[k], index);
      var i :| FirstStop(games, index, i) && Scan(games, index) == StopValue(games[i], index);
      assert NullPair(games[i], index);
    }
  }

  /** A small drift (at most 0.01 hours) is not a change; a larger one is; a null total raises. */
  lemma ExampleTolerance()
    ensures IsDataChanged(Data(Games([Entry(Id(440), HoursOf(10.0))])), [Entry(Id(440), HoursOf(10.01))]) == Ok(false)
    ensures IsDataChanged(Data(Games([Entry(Id(440), HoursOf(10.0))])), [Entry(Id(440), HoursOf(10.02))]) == Ok(true)
    ensures IsDataChanged(Data(Games([Entry(Id(440), NullHours)])), [Entry(Id(440), HoursOf(10.0))]) == Err(TypeError)
  {
    var oldList := [Entry(Id(440), HoursOf(10.0))];
    assert oldList[..0] == [];
    assert [Entry(Id(440), NullHours)][..0] == [];
    assert [Entry(Id(440), HoursOf(10.01))][1..] == [];
    assert [Entry(Id(440), HoursOf(10.02))][1..] == [];
  }
}
