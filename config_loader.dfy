/**
  Validation of the collector's configuration (`load_config` in
  config_loader.py), over the already-parsed TOML tables and the process
  environment: the API key (environment first, then file), the list of target
  players, and the polling interval.
 */
module ConfigLoader {
  import opened Wrappers
  import opened PyStrings

  /** One `[[steam.players]]` table: each key may be absent. */
  datatype PlayerRaw = PlayerRaw(steamid: Option<Value>, vanityUrl: Option<Value>)

  /** The parsed file; an absent table is one with no keys, and an absent `players` is `[]`. */
  datatype RawConfig = RawConfig(
    fileExists: bool,
    apiKeyEnvVar: Option<string>,
    apiKey: Option<Value>,
    players: seq<PlayerRaw>,
    intervalSeconds: Option<Value>,
    databasePath: Option<Value>)

  /** `SteamPlayerConfig`: at least one of the two is set. */
  datatype PlayerConfig = PlayerConfig(steamid: Option<string>, vanityUrl: Option<string>)

  /** `AppConfig`; the database path is kept as written (its resolution against the file system is not modelled). */
  datatype AppConfig = AppConfig(apiKey: string, players: seq<PlayerConfig>, intervalSeconds: int, databasePath: string)

  /** `FileNotFoundError` and the `ValueError`s `load_config` raises. */
  datatype ConfigError = FileNotFound | MissingApiKey | NoPlayers | IntervalNotAnInteger | IntervalNotPositive

  const DefaultApiKeyEnvVar: string := "STEAM_WEB_API_KEY"
  const DefaultIntervalSeconds: int := 60
  const DefaultDatabasePath: string := "data/playtime_log.sqlite"

  /** `str(value).strip() or None` for a value that defaults to `""`. */
  function StrippedOrNone(v: Option<Value>): (r: Option<string>)
    ensures r.Some? ==> v.Some? && r.value != [] && r.value == Strip(PyStr(v.value))
    ensures r.None? <==> v.None? || Strip(PyStr(v.value)) == []
  {
    var s := Strip(PyStr(v.GetOr(VStr(""))));
    if s == [] then None else Some(s)
  }

  /** `api_key_from_env or api_key_from_file`. */
  function ApiKey(raw: RawConfig, env: string -> string): (key: string)
    ensures key != [] ==> !IsSpace(key[0]) && !IsSpace(key[|key| - 1])
  {
    var name := raw.apiKeyEnvVar.GetOr(DefaultApiKeyEnvVar);
    var fromEnv := Strip(env(name));
    var fromFile := Strip(PyStr(raw.apiKey.GetOr(VStr(""))));
    if fromEnv != [] then fromEnv else fromFile
  }

  /** The players kept from the raw list, in order. */
  function PlayersOf(items: seq<PlayerRaw>): (r: seq<PlayerConfig>)
    ensures |r| <= |items|
  {
    Targets(Normalised(items))
  }

  /** Each raw entry with its two fields stripped. */
  function Normalised(items: seq<PlayerRaw>): (r: seq<PlayerConfig>)
    ensures |r| == |items|
  {
    seq(|items|, k requires 0 <= k < |items| => Normalise(items[k]))
  }

  function Normalise(item: PlayerRaw): PlayerConfig {
    PlayerConfig(StrippedOrNone(item.steamid), StrippedOrNone(item.vanityUrl))
  }

  predicate HasTarget(p: PlayerConfig) {
    p.steamid.Some? || p.vanityUrl.Some?
  }

  /** The entries that name a steamid or a vanity name, in order. */
  function Targets(ps: seq<PlayerConfig>): (r: seq<PlayerConfig>)
    ensures |r| <= |ps|
  {
    if ps == [] then []
    else
      var p := ps[|ps| - 1];
      Targets(ps[..|ps| - 1]) + if HasTarget(p) then [p] else []
  }

  /** `int(polling_section.get("interval_seconds", 60))` and the check that it is positive. */
  function Interval(raw: RawConfig): (r: Result<int, ConfigError>)
    ensures r.Ok? ==> r.value > 0
    ensures raw.intervalSeconds.None? ==> r == Ok(DefaultIntervalSeconds)
  {
    match PyInt(raw.intervalSeconds.GetOr(VInt(DefaultIntervalSeconds)))
    case None => Err(IntervalNotAnInteger)
    case Some(i) => if i <= 0 then Err(IntervalNotPositive) else Ok(i)
  }

  /** The players loop of `load_config`. */
  method FilterPlayers(playersRaw: seq<PlayerRaw>) returns (players: seq<PlayerConfig>)
    ensures players == PlayersOf(playersRaw)
  {
    players := [];
    for i := 0 to |playersRaw|
      invariant players == PlayersOf(playersRaw[..i])
    {
      var item := playersRaw[i];
      PlayersOfSnoc(playersRaw, i);
      var steamid := StrippedOrNone(item.steamid);
      var vanityUrl := StrippedOrNone(item.vanityUrl);
      assert Normalise(item) == PlayerConfig(steamid, vanityUrl);
      if steamid.Some? || vanityUrl.Some? {
        players := players + [PlayerConfig(steamid, vanityUrl)];
      }
    }
    assert playersRaw[..|playersRaw|] == playersRaw;
  }

  lemma PlayersOfSnoc(items: seq<PlayerRaw>, i: nat)
    requires i < |items|
    ensures PlayersOf(items[..i + 1]) ==
      PlayersOf(items[..i]) + if HasTarget(Normalise(items[i])) then [Normalise(items[i])] else []
  {
    var ps := Normalised(items[..i + 1]);
    assert ps[..i] == Normalised(items[..i]);
    assert ps[i] == Normalise(items[i]);
  }

  /** `load_config`, once the file is read; `env(name)` is `os.getenv(name, "")`. */
  method LoadConfig(raw: RawConfig, env: string -> string) returns (r: Result<AppConfig, ConfigError>)
    ensures !raw.fileExists ==> r == Err(FileNotFound)
    ensures raw.fileExists && ApiKey(raw, env) == [] ==> r == Err(MissingApiKey)
    ensures raw.fileExists && ApiKey(raw, env) != [] && PlayersOf(raw.players) == [] ==> r == Err(NoPlayers)
    ensures raw.fileExists && ApiKey(raw, env) != [] && PlayersOf(raw.players) != [] && Interval(raw).Err? ==>
      r == Err(Interval(raw).error)
    ensures raw.fileExists && ApiKey(raw, env) != [] && PlayersOf(raw.players) != [] && Interval(raw).Ok? ==>
      r == Ok(AppConfig(ApiKey(raw, env), PlayersOf(raw.players), Interval(raw).value,
                        PyStr(raw.databasePath.GetOr(VStr(DefaultDatabasePath)))))
    ensures r.Ok? ==>
      && r.value.apiKey == ApiKey(raw, env) && r.value.apiKey != []
      && r.value.players == PlayersOf(raw.players) && r.value.players != []
      && Interval(raw) == Ok(r.value.intervalSeconds) && r.value.intervalSeconds > 0
  {
    if !raw.fileExists {
      return Err(FileNotFound);
    }
    var apiKey := ApiKey(raw, env);
    if apiKey == [] {
      return Err(MissingApiKey);
    }
    var players := FilterPlayers(raw.players);
    if players == [] {
      return Err(NoPlayers);
    }
    var interval := Interval(raw);
    if interval.Err? {
      return Err(interval.error);
    }
    var databasePath := PyStr(raw.databasePath.GetOr(VStr(DefaultDatabasePath)));
    return Ok(AppConfig(apiKey, players, interval.value, databasePath));
  }

  // ---------------------------------------------------------------------------
  // Properties

  /** A non-blank key in the environment wins over the file; otherwise the file's key is used. */
  lemma ApiKeyPrecedence(raw: RawConfig, env: string -> string)
    ensures var name := raw.apiKeyEnvVar.GetOr(DefaultApiKeyEnvVar);
      && (Strip(env(name)) != [] ==> ApiKey(raw, env) == Strip(env(name)))
      && (Strip(env(name)) == [] ==> ApiKey(raw, env) == Strip(PyStr(raw.apiKey.GetOr(VStr("")))))
  {
  }

  /** Every kept player names a target with a non-empty, stripped steamid or vanity name. */
  lemma {:induction false} TargetsTargeted(ps: seq<PlayerConfig>)
    ensures forall k :: 0 <= k < |Targets(ps)| ==> HasTarget(Targets(ps)[k])
  {
    if ps != [] {
      TargetsTargeted(ps[..|ps| - 1]);
    }
  }

  /** Each kept player is one of the entries, and they come in the order of the list. */
  lemma {:induction false} TargetsSound(ps: seq<PlayerConfig>, k: nat)
    requires k < |Targets(ps)|
    ensures Origin(ps, k) < |ps| && Targets(ps)[k] == ps[Origin(ps, k)]
    ensures forall j :: 0 <= j < k ==> Origin(ps, j) < Origin(ps, k)
  {
    var init := ps[..|ps| - 1];
    if k < |Targets(init)| {
      TargetsSound(init, k);
      forall j | 0 <= j < k ensures Origin(ps, j) < Origin(ps, k) {
        TargetsSound(init, j);
      }
    } else {
      forall j | 0 <= j < k ensures Origin(ps, j) < Origin(ps, k) {
        TargetsSound(init, j);
      }
    }
  }

  /** The index in the list of the `k`-th kept entry. */
  function Origin(ps: seq<PlayerConfig>, k: nat): nat
    requires k < |Targets(ps)|
  {
    if k < |Targets(ps[..|ps| - 1])| then Origin(ps[..|ps| - 1], k) else |ps| - 1
  }

  /** An entry that names a target is kept. */
  lemma {:induction false} TargetsComplete(ps: seq<PlayerConfig>, i: nat)
    requires i < |ps| && HasTarget(ps[i])
    ensures ps[i] in Targets(ps)
  {
    var init := ps[..|ps| - 1];
    if i < |init| {
      assert init[i] == ps[i];
      TargetsComplete(init, i);
    }
  }

  /** So a raw entry is kept exactly when its stripped steamid or vanity name is non-empty. */
  lemma PlayersKept(items: seq<PlayerRaw>, i: nat)
    requires i < |items|
    ensures HasTarget(Normalise(items[i])) ==> Normalise(items[i]) in PlayersOf(items)
    ensures forall k :: 0 <= k < |PlayersOf(items)| ==> HasTarget(PlayersOf(items)[k])
  {
    var ps := Normalised(items);
    assert ps[i] == Normalise(items[i]);
    if HasTarget(ps[i]) {
      TargetsComplete(ps, i);
    }
    TargetsTargeted(ps);
  }

  /** An entry whose steamid is missing and whose vanity name is blank is dropped. */
  lemma BlankPlayerDropped(items: seq<PlayerRaw>, blank: string)
    requires forall k :: 0 <= k < |blank| ==> IsSpace(blank[k])
    ensures PlayersOf(items + [PlayerRaw(None, Some(VStr(blank)))]) == PlayersOf(items)
  {
    var ps := Normalised(items + [PlayerRaw(None, Some(VStr(blank)))]);
    assert ps[..|items|] == Normalised(items);
    StripBlank(blank);
    assert !HasTarget(ps[|items|]);
  }

  /** Without an `interval_seconds` the collector polls every 60 seconds; `0` is refused. */
  lemma IntervalDefaults(raw: RawConfig)
    ensures raw.intervalSeconds.None? ==> Interval(raw) == Ok(60)
    ensures raw.intervalSeconds == Some(VInt(0)) ==> Interval(raw) == Err(IntervalNotPositive)
  {
  }
}
