/**
  How the Steam Web API client (steam_api.py) reads the decoded JSON of its two
  calls: `resolve_vanity_url` turns a `ResolveVanityURL` response into a steamid
  or `None`, and `get_owned_games` turns a `GetOwnedGames` response into
  `OwnedGame` records. The HTTP request itself is not modelled: the decoded
  body is the input.
 */
module SteamApi {
  import opened Wrappers
  import opened PyStrings

  /** How `d.get(key)` sees one key of a JSON object: absent, `null`, or a scalar. */
  datatype Field = Absent | Null | Present(v: Value)

  /**
    `data.get("response", {})`: the key may be absent (read as `{}`), hold
    something that is not an object (`null`, a list, a scalar), or hold an object.
   */
  datatype Envelope<T> = NoResponse | NotAnObject | Response(body: T)

  /** The exceptions the normalisation itself raises. */
  datatype ApiError =
    | AttributeError  // `.get` on a `response` that is not an object
    | IntError        // `int(...)` of `null` or of a string that is not a number

  // ---------------------------------------------------------------------------
  // `resolve_vanity_url`

  datatype VanityResponse = VanityResponse(success: Field, steamid: Field)

  /** `response.get("success") == 1`; in Python `True == 1` as well. */
  predicate Succeeded(f: Field) {
    f == Present(VInt(1)) || f == Present(VBool(true))
  }

  /** The steamid `resolve_vanity_url` returns, or `None`. */
  function ResolveVanityUrl(data: Envelope<VanityResponse>): Result<Option<string>, ApiError> {
    match data
    case NoResponse => Ok(None)
    case NotAnObject => Err(AttributeError)
    case Response(r) =>
      if !Succeeded(r.success) then Ok(None)
      else match r.steamid
        case Present(v) => Ok(Some(PyStr(v)))
        case _ => Ok(None)
  }

  // ---------------------------------------------------------------------------
  // `get_owned_games`

  /** One entry of `games`: the three keys read, each possibly absent. */
  datatype GameRaw = GameRaw(appid: Field, name: Field, playtimeForever: Field)

  /** `response.get("games", []) or []`: `None` stands for an absent key or `null`. */
  datatype OwnedGamesResponse = OwnedGamesResponse(games: Option<seq<GameRaw>>)

  /** `OwnedGame`. */
  datatype OwnedGame = OwnedGame(appid: int, name: Option<string>, playtimeForever: int)

  /** `g.get("appid") is None` is false: the entry is kept. */
  predicate HasAppid(g: GameRaw) {
    g.appid.Present?
  }

  /** `str(name) if isinstance(name, str) else None`. */
  function NameOf(g: GameRaw): Option<string> {
    if g.name.Present? && g.name.v.VStr? then Some(g.name.v.s) else None
  }

  /** `int(g.get("playtime_forever", 0))`; `int(None)` raises. */
  function PlaytimeOf(g: GameRaw): Option<int> {
    match g.playtimeForever
    case Absent => Some(0)
    case Null => None
    case Present(v) => PyInt(v)
  }

  /**
    The `OwnedGame` built from a kept entry (`int(appid)` with the name and
    playtime), or `None` when one of the `int` calls raises. Only kept entries are
    converted; an entry without an appid gives `None`.
   */
  function Convert(g: GameRaw): Option<OwnedGame> {
    match g.appid
    case Present(v) =>
      (match PlaytimeOf(g)
       case None => None
       case Some(p) =>
         match PyInt(v)
         case None => None
         case Some(a) => Some(OwnedGame(a, NameOf(g), p)))
    case _ => None
  }

  /** The loop over `games_raw`, stopping with `IntError` at the first entry whose conversion raises. */
  function Normalise(games: seq<GameRaw>): Result<seq<OwnedGame>, ApiError> {
    match Collect(HasAppid, Convert, games)
    case None => Err(IntError)
    case Some(xs) => Ok(xs)
  }

  /**
    Keeps the entries `keep` selects, converting each with `conv`; `None` as
    soon as a kept entry does not convert.
   */
  function Collect<A, B>(keep: A -> bool, conv: A -> Option<B>, xs: seq<A>): Option<seq<B>> {
    if xs == [] then Some([])
    else
      var x := xs[|xs| - 1];
      match Collect(keep, conv, xs[..|xs| - 1])
      case None => None
      case Some(ys) =>
        if !keep(x) then Some(ys)
        else match conv(x)
          case None => None
          case Some(y) => Some(ys + [y])
  }

  /** The games `get_owned_games` returns, or the exception it raises. */
  function OwnedGames(data: Envelope<OwnedGamesResponse>): Result<seq<OwnedGame>, ApiError> {
    match data
    case NoResponse => Ok([])
    case NotAnObject => Err(AttributeError)
    case Response(r) => Normalise(r.games.GetOr([]))
  }

  /** The response handling of `get_owned_games`, with its loop and `continue`. */
  method GetOwnedGames(data: Envelope<OwnedGamesResponse>) returns (r: Result<seq<OwnedGame>, ApiError>)
    ensures r == OwnedGames(data)
  {
    if data.NotAnObject? {
      return Err(AttributeError);
    }
    var gamesRaw := if data.Response? then data.body.games.GetOr([]) else [];
    assert OwnedGames(data) == Normalise(gamesRaw);
    var games := [];
    for i := 0 to |gamesRaw|
      invariant Collect(HasAppid, Convert, gamesRaw[..i]) == Some(games)
    {
      var g := gamesRaw[i];
      CollectSnoc(HasAppid, Convert, gamesRaw, i);
      if HasAppid(g) {
        var game := Convert(g);
        if game.None? {
          CollectErrPersists(HasAppid, Convert, gamesRaw, i + 1);
          return Err(IntError);
        }
        games := games + [game.value];
      }
    }
    assert gamesRaw[..|gamesRaw|] == gamesRaw;
    r := Ok(games);
  }

  // ---------------------------------------------------------------------------
  // Properties

  /** The entries `keep` selects, in input order. */
  function Kept<A>(keep: A -> bool, xs: seq<A>): (r: seq<A>)
    ensures |r| <= |xs|
    ensures forall k :: 0 <= k < |r| ==> keep(r[k])
  {
    if xs == [] then []
    else Kept(keep, xs[..|xs| - 1]) + if keep(xs[|xs| - 1]) then [xs[|xs| - 1]] else []
  }

  lemma CollectSnoc<A, B>(keep: A -> bool, conv: A -> Option<B>, xs: seq<A>, i: nat)
    requires i < |xs|
    ensures Collect(keep, conv, xs[..i + 1]) ==
      match Collect(keep, conv, xs[..i])
      case None => None
      case Some(ys) =>
        if !keep(xs[i]) then Some(ys)
        else match conv(xs[i])
          case None => None
          case Some(y) => Some(ys + [y])
  {
    var h := xs[..i + 1];
    assert h[..i] == xs[..i] && h[i] == xs[i];
  }

  /** Once the loop has raised, the call raises whatever follows. */
  lemma {:induction false} CollectErrPersists<A, B>(keep: A -> bool, conv: A -> Option<B>, xs: seq<A>, i: nat)
    requires i <= |xs| && Collect(keep, conv, xs[..i]).None?
    ensures Collect(keep, conv, xs).None?
    decreases |xs|
  {
    if i < |xs| {
      var init := xs[..|xs| - 1];
      assert init[..i] == xs[..i];
      CollectErrPersists(keep, conv, init, i);
    } else {
      assert xs[..i] == xs;
    }
  }

  /**
    `Collect` succeeds exactly when every kept entry converts, and then returns
    one converted entry per kept entry, in order.
   */
  lemma {:induction false} CollectKept<A, B>(keep: A -> bool, conv: A -> Option<B>, xs: seq<A>)
    ensures Collect(keep, conv, xs).Some? <==> forall k :: 0 <= k < |Kept(keep, xs)| ==> conv(Kept(keep, xs)[k]).Some?
    ensures Collect(keep, conv, xs).Some? ==>
      |Collect(keep, conv, xs).value| == |Kept(keep, xs)| &&
      forall k :: 0 <= k < |Kept(keep, xs)| ==> conv(Kept(keep, xs)[k]) == Some(Collect(keep, conv, xs).value[k])
  {
    if xs != [] {
      var init, x := xs[..|xs| - 1], xs[|xs| - 1];
      CollectKept(keep, conv, init);
      var ki := Kept(keep, init);
      var kx := Kept(keep, xs);
      assert kx == ki + if keep(x) then [x] else [];
      assert forall k :: 0 <= k < |ki| ==> kx[k] == ki[k];
      if Collect(keep, conv, init).None? {
        var k :| 0 <= k < |ki| && conv(ki[k]).None?;
        assert conv(kx[k]).None?;
        assert Collect(keep, conv, xs).None?;
        assert Collect(keep, conv, xs).Some? <==> forall j :: 0 <= j < |Kept(keep, xs)| ==> conv(Kept(keep, xs)[j]).Some?;
      } else if keep(x) {
        assert kx[|ki|] == x;
        if conv(x).Some? {
          var ys := Collect(keep, conv, init).value;
          assert Collect(keep, conv, xs).value == ys + [conv(x).value];
          assert Collect(keep, conv, xs).Some? <==> forall j :: 0 <= j < |Kept(keep, xs)| ==> conv(Kept(keep, xs)[j]).Some?;
        } else {
          assert Collect(keep, conv, xs).None?;
          assert Collect(keep, conv, xs).Some? <==> forall j :: 0 <= j < |Kept(keep, xs)| ==> conv(Kept(keep, xs)[j]).Some?;
        }
      } else {
        assert kx == ki;
        assert Collect(keep, conv, xs) == Collect(keep, conv, init);
        assert Collect(keep, conv, xs).Some? <==> forall j :: 0 <= j < |Kept(keep, xs)| ==> conv(Kept(keep, xs)[j]).Some?;
      }
    }
  }

  /**
    `get_owned_games` on a games list succeeds exactly when every entry with an
    appid converts, and then returns one game per such entry, in input order:
    entries with a missing or `null` appid are dropped and nothing else is.
   */
  lemma NormaliseKept(games: seq<GameRaw>)
    ensures Normalise(games).Ok? <==> forall k :: 0 <= k < |Kept(HasAppid, games)| ==> Convert(Kept(HasAppid, games)[k]).Some?
    ensures Normalise(games).Ok? ==>
      |Normalise(games).value| == |Kept(HasAppid, games)| <= |games| &&
      forall k :: 0 <= k < |Kept(HasAppid, games)| ==> Convert(Kept(HasAppid, games)[k]) == Some(Normalise(games).value[k])
  {
    CollectKept(HasAppid, Convert, games);
  }

  /** The fields of a converted game: the appid and playtime read as `int`, 0 for a missing playtime, the name only if it is a string. */
  lemma ConvertFields(g: GameRaw)
    requires Convert(g).Some?
    ensures HasAppid(g)
    ensures Some(Convert(g).value.appid) == PyInt(g.appid.v)
    ensures g.playtimeForever.Absent? ==> Convert(g).value.playtimeForever == 0
    ensures g.playtimeForever.Present? ==> Some(Convert(g).value.playtimeForever) == PyInt(g.playtimeForever.v)
    ensures Convert(g).value.name.Some? <==> g.name.Present? && g.name.v.VStr?
    ensures Convert(g).value.name.Some? ==> Convert(g).value.name.value == g.name.v.s
  {
    assert g.appid.Present?;
  }

  /** An absent, `null` or empty `games` list, like an absent `response`, gives no games. */
  lemma NoGames(data: Envelope<OwnedGamesResponse>)
    requires data.NoResponse? || (data.Response? && (data.body.games.None? || data.body.games == Some([])))
    ensures OwnedGames(data) == Ok([])
  {
  }

  /** An entry without an appid changes nothing, wherever it appears last. */
  lemma NoAppidDropped(games: seq<GameRaw>, g: GameRaw)
    requires !HasAppid(g)
    ensures Normalise(games + [g]) == Normalise(games)
  {
    CollectSnoc(HasAppid, Convert, games + [g], |games|);
    assert (games + [g])[..|games|] == games && (games + [g])[..|games| + 1] == games + [g];
  }

  /**
    `resolve_vanity_url` gives a steamid exactly when `success` is 1 and
    `steamid` is present and not `null`, and then gives `str(steamid)`.
   */
  lemma ResolveCharacterised(data: Envelope<VanityResponse>)
    ensures ResolveVanityUrl(data).Err? <==> data.NotAnObject?
    ensures ResolveVanityUrl(data).Ok? && ResolveVanityUrl(data).value.Some? <==>
      data.Response? && Succeeded(data.body.success) && data.body.steamid.Present?
    ensures ResolveVanityUrl(data).Ok? && ResolveVanityUrl(data).value.Some? ==>
      ResolveVanityUrl(data).value.value == PyStr(data.body.steamid.v)
  {
  }

  /** A numeric steamid in the response is returned as its decimal text, which reads back as the same number. */
  lemma ResolvedNumberReadsBack(n: int)
    ensures var r := ResolveVanityUrl(Response(VanityResponse(Present(VInt(1)), Present(VInt(n)))));
      r.Ok? && r.value.Some? && PyInt(VStr(r.value.value)) == Some(n)
  {
    assert ResolveVanityUrl(Response(VanityResponse(Present(VInt(1)), Present(VInt(n))))) == Ok(Some(IntToString(n)));
    PyIntOfPyStr(n);
  }

  /** Any `success` other than 1 (or `true`), such as the API's 42 for "no match", gives `None`. */
  lemma NoMatchIsNone(steamid: Field)
    ensures ResolveVanityUrl(Response(VanityResponse(Present(VInt(42)), steamid))) == Ok(None)
    ensures ResolveVanityUrl(Response(VanityResponse(Present(VStr("1")), steamid))) == Ok(None)
  {
  }
}
