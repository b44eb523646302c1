# Steam playtime collection and session inference, modelled in Dafny

The system polls the Steam Web API and the Steam Community site for the games a set
of players own and how many minutes each has been played, stores the
observations as snapshots, and turns consecutive snapshots into play sessions
and dashboard statistics. This project models the logic of that pipeline:

- **Session inference** (`Snapshots`, `Analyzer`, `FrontendApi`). The snapshots
  of a player are grouped per game in order of first appearance. A window of
  width two walks each group, and every strict increase of the cumulative
  counter becomes a session. The batch version concatenates the players' results.
  The HTTP variant takes the steamid of the later snapshot, sorts by
  (steamid, appid, window start) with a stable sort (`Sorting`), and truncates
  to the last `limit` sessions.
- **Dashboard statistics** (`Dashboard`). The playtime increases between
  adjacent snapshots, the per-game totals, the hour-of-day histogram, and the
  top-ten-plus-rest pie slices.
- **Change gate** (`ChangeGate`). The collector's test of whether a freshly
  scraped list of recent games differs from the stored one, within 0.01 hours.
- **Cookie strings** (`CookieString`, `CookieRefresh`, `SteamScraper`).
  Parsing `name=value; ...` strings into pairs, browser cookie objects or a
  dict. Writing the browser's cookies back as a string, with the round trip
  between the two. The profile URL and the `MM月DD日` date extraction of the
  scraper.
- **Configuration and API** (`ConfigLoader`, `SteamApi`, `Collector`).
  Loading `config.toml` (API key precedence, player filtering, polling
  interval). The two Web API calls' response handling. Resolving each
  configured player to a steamid.

`PyStrings` models the Python string operations these use: `str.isspace`,
`strip`, `split`, `join`, `str(v)` and `int(v)`. `Wrappers` holds `Option`
and `Result`.

Where the source loops and updates variables, the model is a `method` with the
same loop, proved equal to a specification function. The properties are then
lemmas about that function.

## Model

| member | source | states |
|---|---|---|
| Snapshots.SessionName | analyzer.py:37-39 | the name is never empty; it is the later snapshot's name when that is truthy, else the earlier one's when truthy, else `appid ` followed by the appid's decimal text |
| Snapshots.Group | analyzer.py:25-27 | a group holds only snapshots of its appid, is no longer than the input, and is empty exactly when no snapshot has that appid |
| Snapshots.AppOrder | analyzer.py:25-27 | the dict's key order lists every appid of the input, each once |
| Snapshots.AppOrderMembers | analyzer.py:25-27 | every key of the dict is the appid of some input snapshot |
| Snapshots.AppOrderFirstAppearance | analyzer.py:25-27 | keys are in order of first appearance: a key listed before another occurs in the input before any occurrence of the later one |
| Snapshots.GroupByApp | analyzer.py:25-27 | the `setdefault(...).append` loop builds exactly the key order `AppOrder` and maps each key to its `Group` |
| Snapshots.GroupMember | analyzer.py:25-27 | every member of a group is one of the input snapshots |
| Snapshots.GroupTimeOrdered | storage.py:82-103 | if the store returns each appid's snapshots in time order, grouping keeps every group time-ordered |
| Analyzer.SessionsFor | analyzer.py:20-51 | what `infer_sessions_for_steamid` returns: each appid's walk over its group, appids in first-appearance order; characterised by `WalkIsIncreasingPairs`, `PerAppIndependent`, `ShortGroupSilent` and `SessionsTimeOrdered` |
| Analyzer.Walk | analyzer.py:30-50 | fewer than two snapshots give no sessions; otherwise fewer sessions than snapshots; each session has the queried steamid and appid, a positive delta and a non-empty name |
| Analyzer.WalkGroup | analyzer.py:31-50 | the inner loop, with `prev` reassigned after every step, returns `Walk` of the group |
| Analyzer.InferSessionsForSteamid | analyzer.py:20-51 | the method (grouping, then a walk per appid in key order) returns the sessions `SessionsFor` specifies |
| Analyzer.InferSessionsForAll | analyzer.py:54-62 | the batch is each steamid's result concatenated in argument order |
| Analyzer.IncreasingPairs | analyzer.py:35 | lists only indices `i` with `g[i].playtime > g[i-1].playtime` |
| Analyzer.IncreasingPairsComplete | analyzer.py:35 | every strictly increasing adjacent pair is listed |
| Analyzer.IncreasingPairsSorted | analyzer.py:33-50 | pairs are listed in increasing position |
| Analyzer.WalkIsIncreasingPairs | analyzer.py:33-50 | the k-th session is exactly the session of the k-th increasing pair, and there is one per pair: a drop or a flat step emits nothing, and the next step is measured from the new value |
| Analyzer.WalkAt | analyzer.py:33-50 | pointwise form: session k is built from snapshots `i-1` and `i` of the k-th increasing pair |
| Analyzer.WalkWindowsOrdered | analyzer.py:45-46 | on a time-ordered group every window has start ≤ end and windows follow one another without overlap |
| Analyzer.PerAppIndependent | analyzer.py:30-50 | the sessions of one appid are that appid's own walk: other games never influence them |
| Analyzer.ShortGroupSilent | analyzer.py:31-32 | an appid observed fewer than twice produces no session |
| Analyzer.SessionsTimeOrdered | analyzer.py:20-51 | with the store's time ordering, each appid's sessions have ordered, non-overlapping windows |
| Analyzer.AllSessionsAppend | analyzer.py:54-62 | the batch for `xs + ys` is the batch for `xs` followed by the batch for `ys` |
| Analyzer.AllSessionsSnoc | analyzer.py:59-61 | one more steamid appends exactly that steamid's sessions |
| Analyzer.AllSessionsOwners | analyzer.py:54-62 | every session of a batch belongs to a requested steamid |
| Analyzer.ExampleOneIncrease | analyzer.py:35-49 | 100 then 130 minutes gives one 30-minute session over the two capture times |
| Analyzer.ExampleFlat | analyzer.py:35 | a flat counter yields nothing |
| Analyzer.ExampleCorrection | analyzer.py:35-50 | 100, 80, 150 skips the drop and measures 70 from 80 |
| FrontendApi.Walk | frontend_api.py:30-48 | same bounds as the analyzer's walk: no session below two snapshots, each session has its appid, a positive delta and a name |
| FrontendApi.WalkGroup | frontend_api.py:33-48 | the inner loop returns `Walk` of the group, the steamid taken from `current` |
| FrontendApi.InferSessionsFromSnapshots | frontend_api.py:19-50 | empty input gives `[]`; otherwise the emitted sessions, stably sorted by (steamid, appid, window start) |
| FrontendApi.KeyLe | frontend_api.py:49 | `key(x) <= key(y)` for the sort key (steamid, appid, window start), compared lexicographically with Python's string order; `KeyLeTotalPreorder` proves it a total preorder |
| FrontendApi.KeyLeTotalPreorder | frontend_api.py:49 | the tuple key order (Python string order, then int, then time) is a total preorder, so the sort is well defined |
| FrontendApi.StrLeTotal | frontend_api.py:49 | any two strings are comparable under Python's `<=` |
| FrontendApi.StrLeAntisymmetric | frontend_api.py:49 | two strings each `<=` the other are equal |
| FrontendApi.StrLeTransitive | frontend_api.py:49 | Python's string `<=` is transitive |
| FrontendApi.ResultSorted | frontend_api.py:49 | the returned list is sorted by the key |
| FrontendApi.ResultStable | frontend_api.py:49 | sessions with equal keys keep their emission order |
| FrontendApi.ApplyLimit | frontend_api.py:71-72 | a positive limit below the length keeps exactly the last `limit` sessions; a missing, non-positive or large limit keeps everything |
| FrontendApi.WalkAgrees | frontend_api.py:33-48 | on one steamid's snapshots the API's walk equals analyzer.py's walk |
| FrontendApi.EmittedAgrees | frontend_api.py:19-50 | for one steamid's snapshots the API emits exactly analyzer.py's sessions before sorting |
| Sorting.Insert | frontend_api.py:49 | inserting adds exactly one element, keeping the multiset |
| Sorting.SortBy | frontend_api.py:49 | the result is a permutation of the input |
| Sorting.InsertSorted | frontend_api.py:49 | insertion into a sorted list stays sorted |
| Sorting.SortBySorted | frontend_api.py:49 | the result is sorted for any total preorder |
| Sorting.SortByStable | frontend_api.py:49 | within each class of equal keys the input order is preserved |
| Dashboard.Index | frontend/app.py:137-144 | every key of the dict maps to a game with that appid |
| Dashboard.IndexLastWins | frontend/app.py:137-144 | every appid of the list is a key, and it maps to its last entry |
| Dashboard.IndexDomain | frontend/app.py:137-144 | the dict's keys are exactly the appids of the list |
| Dashboard.Keys | frontend/app.py:147 | the iteration order lists each key once and exactly the dict's keys |
| Dashboard.Changes | frontend/app.py:128-129 | fewer than two snapshots give no records |
| Dashboard.CalculatePlaytimeChanges | frontend/app.py:113-164 | the nested loops return `Changes`, the records of each adjacent pair in order |
| Dashboard.DiffPair | frontend/app.py:134-162 | one outer iteration returns that pair's records |
| Dashboard.DiffGames | frontend/app.py:147-162 | the inner loop returns the records of the keys in order |
| Dashboard.PairRecordsCharacterised | frontend/app.py:147-162 | one record per game of the later snapshot whose counter rose over the earlier value (0 when absent), with its times, increase and total; nothing else, no game twice |
| Dashboard.RecordsForCharacterised | frontend/app.py:147-162 | the same three facts for any list of distinct keys |
| Dashboard.RecordsForSound | frontend/app.py:153-162 | every record describes a risen game of the keys |
| Dashboard.RecordsForComplete | frontend/app.py:153-162 | every risen game gets a record |
| Dashboard.RecordsForDistinct | frontend/app.py:147-162 | distinct keys give records for distinct games |
| Dashboard.ChangesMember | frontend/app.py:133-162 | a record is in the result exactly when some adjacent pair produced it |
| Dashboard.ExampleNewGame | frontend/app.py:149 | a game new in the later snapshot counts from 0 |
| Dashboard.NameOrder | frontend/app.py:177-183 | the totals' key order has at most one name per record |
| Dashboard.NameOrderDistinct | frontend/app.py:177-183 | each name appears once in the totals |
| Dashboard.NameOrderMembers | frontend/app.py:177-183 | the totals hold exactly the names some record carries |
| Dashboard.AggregateByGame | frontend/app.py:167-183 | the loop returns each name's sum of increases, keyed in first-appearance order |
| Dashboard.NameTotalAbsent | frontend/app.py:181 | a name no record carries totals 0 |
| Dashboard.TotalsAddUp | frontend/app.py:177-183 | the per-game totals sum to the sum of all increases |
| Dashboard.Hour | frontend/app.py:199-200 | the hour of a timestamp is in 0..23 |
| Dashboard.AggregateByHour | frontend/app.py:186-207 | the dict has exactly the keys 0..23, each counting the records that start or end in that hour (once if both) |
| Dashboard.MarksBelow | frontend/app.py:202-204 | a record marks its start hour once, and its end hour only when that hour differs |
| Dashboard.HoursAddUp | frontend/app.py:196-207 | the 24 counters hold one mark per record plus one for each record crossing an hour, between `n` and `2n` in all |
| Dashboard.ByTotalDescTotalPreorder | frontend/app.py:297 | "larger total first" is a total preorder |
| Dashboard.Ranked | frontend/app.py:297 | the ranking is a permutation of the entries (same length, same multiset) |
| Dashboard.PieSlices | frontend/app.py:297-302 | at most 11 slices; up to ten games are shown as they are (same multiset); beyond ten the eleventh slice is "其他" |
| Dashboard.PieLargest | frontend/app.py:297-302 | the shown slices are the ten largest in descending order, every dropped total is ≤ every shown one, shown plus dropped is the input multiset, and "其他" carries the dropped sum |
| Dashboard.SumOfPermutation | frontend/app.py:297 | reordering does not change a sum |
| Dashboard.PieTotal | frontend/app.py:297-302 | the slices add up to the sum of all game totals |
| ChangeGate.IsDataChanged | backend/collector.py:120-163 | `is_data_changed`, with the exceptions it raises as `Err`; its outcomes are stated by `FirstCollection`, `NoOldGames` and `Characterised` |
| ChangeGate.OldGames | backend/collector.py:137-139 | `len(old_games)` raises `TypeError` exactly when the stored `recent_games` is null |
| ChangeGate.OldIndex | backend/collector.py:144 | the dict raises `KeyError` exactly when an old game lacks `appid`; otherwise its keys are exactly the old appids |
| ChangeGate.ScanFirstStop | backend/collector.py:146-163 | the loop returns `False` exactly when no new game stops it (a truthy appid absent from the old dict, an hours comparison with a null, or a move of more than 0.01 hours); otherwise it returns `TypeError` or `True` as the first stopping game calls for |
| ChangeGate.FirstCollection | backend/collector.py:133-134 | with no stored snapshot the data is always changed |
| ChangeGate.NoOldGames | backend/collector.py:137-139 | a non-dict snapshot and a dict without `recent_games` both behave as an empty old list; a null `recent_games` raises `TypeError` |
| ChangeGate.Characterised | backend/collector.py:133-163 | a null old list raises `TypeError`; different lengths are a change; equal lengths raise `KeyError` exactly when an old game lacks `appid`; otherwise `False` exactly when no counted new game stops the loop, and at the first that does, `TypeError` if its hours meet a null and `True` if not |
| ChangeGate.OldIndexOfDistinct | backend/collector.py:144 | with distinct appids each appid maps to its own entry |
| ChangeGate.SelfComparison | backend/collector.py:133-163 | a stored list of distinct games compared with itself is unchanged, unless a compared game's total is null, which raises `TypeError` |
| ChangeGate.ExampleTolerance | backend/collector.py:157-161 | a 0.01-hour drift is no change, a 0.02-hour drift is one, and a null old total raises `TypeError` |
| CookieString.ParseItem | backend/refresh_steam_cookies_udc.py:61-65 | a piece gives a pair exactly when its stripped text contains `=`; the name has no `=` and both sides are stripped |
| CookieString.Pairs | backend/refresh_steam_cookies_udc.py:58-74 | at most one pair per piece |
| CookieString.ParsedPairs | backend/refresh_steam_cookies_udc.py:58-74 | at most one pair per `;`-separated piece |
| CookieString.Render | backend/refresh_steam_cookies_udc.py:178-182 | one `name=value` part per pair |
| CookieString.JoinSpaced | backend/refresh_steam_cookies_udc.py:184 | splitting the `"; "` join at `;` gives the first part and then the others with a leading space |
| CookieString.ParseRendered | backend/refresh_steam_cookies_udc.py:61-65 | a written part, with or without leading whitespace, reads back as its pair |
| CookieString.RoundTrip | backend/refresh_steam_cookies_udc.py:58-74 | parsing the joined string of well-formed pairs gives back exactly those pairs |
| CookieRefresh.ParseCookieString | backend/refresh_steam_cookies_udc.py:58-74 | the loop returns one cookie object per parsed pair, in order, with the fixed domain and path |
| CookieRefresh.ParsedCookies | backend/refresh_steam_cookies_udc.py:58-74 | every cookie name is free of `=` and unpadded, and every value is unpadded |
| CookieRefresh.Kept | backend/refresh_steam_cookies_udc.py:178-182 | at most one part per browser cookie |
| CookieRefresh.KeptEmpty | backend/refresh_steam_cookies_udc.py:178-182 | no part is written exactly when no cookie has a truthy name and a non-null value |
| CookieRefresh.SerializeCookies | backend/refresh_steam_cookies_udc.py:175-186 | no cookies and no usable cookies raise their two errors; otherwise the string is the `"; "` join of the usable cookies' parts |
| CookieRefresh.WriteThenRead | backend/refresh_steam_cookies_udc.py:175-186 | the written string parses back to exactly the kept pairs, when they are well formed |
| SteamScraper.SetCookies | backend/steam_scraper.py:51-71 | the loop fills the dict that assigning each parsed pair in turn gives |
| SteamScraper.DictOfKeys | backend/steam_scraper.py:60-65 | the dict's keys are exactly the names of the pairs |
| SteamScraper.DictOfLastWins | backend/steam_scraper.py:60-65 | a name maps to the value of its last pair |
| SteamScraper.DictOfSize | backend/steam_scraper.py:60-65 | the dict has no more entries than pairs |
| SteamScraper.ProfileUrl | backend/steam_scraper.py:84-87 | the `/id/<vanity>/` URL for a truthy vanity name, else the `/profiles/<steamid>/` URL; `ProfileUrlNames` proves which one and that it reads back |
| SteamScraper.ProfileUrlNames | backend/steam_scraper.py:84-87 | the URL names the vanity name when it is truthy, else the steamid, and it can be read back |
| SteamScraper.MatchAt | backend/steam_scraper.py:140 | the two digit groups of the pattern `(\d+)\s*月\s*(\d+)\s*日` matched from one position, or none; `MatchAtSound` and `MatchAtComplete` tie it to the pattern |
| SteamScraper.Search | backend/steam_scraper.py:140 | `re.search`: the groups of the match at the first position, from the start position on, that has one; `SearchLeftmost` |
| SteamScraper.ParseDate | backend/steam_scraper.py:135-145 | `None` for empty text or no match, else `<month>月<day>日` from the groups; `ParseDateNoMatch` and `ParseDateLeftmost` |
| SteamScraper.DigitsEnd | backend/steam_scraper.py:140 | the greedy `\d+` run ends at the first non-digit |
| SteamScraper.SpacesEnd | backend/steam_scraper.py:140 | the greedy `\s*` run ends at the first non-space |
| SteamScraper.MatchAtSound | backend/steam_scraper.py:140 | what is found at a position is a match of the pattern there |
| SteamScraper.MatchAtComplete | backend/steam_scraper.py:140 | any match at a position is the one found there: matches are unique per position |
| SteamScraper.SearchLeftmost | backend/steam_scraper.py:140 | the search returns the match at the leftmost position that has one, and none when no position has one |
| SteamScraper.ParseDateNoMatch | backend/steam_scraper.py:135-145 | empty text gives `None`, and `None` means the pattern matches nowhere |
| SteamScraper.ParseDateLeftmost | backend/steam_scraper.py:135-145 | a result is `<month>月<day>日` built from the digits of the leftmost match |
| ConfigLoader.StrippedOrNone | config_loader.py:68-69 | `None` exactly when the key is absent or its text strips to empty; otherwise the stripped text |
| ConfigLoader.ApiKey | config_loader.py:55-59 | the key is stripped |
| ConfigLoader.ApiKeyPrecedence | config_loader.py:55-59 | a non-blank environment variable (the configured name or `STEAM_WEB_API_KEY`) wins; otherwise the file's stripped key |
| ConfigLoader.PlayersOf | config_loader.py:65-72 | at most one player per raw entry |
| ConfigLoader.FilterPlayers | config_loader.py:65-72 | the loop returns `PlayersOf` of the raw list |
| ConfigLoader.TargetsTargeted | config_loader.py:70-72 | every kept player has a truthy steamid or vanity name |
| ConfigLoader.TargetsSound | config_loader.py:65-72 | each kept player is an entry of the list, and they keep the list's order |
| ConfigLoader.TargetsComplete | config_loader.py:70-72 | an entry with a target is kept |
| ConfigLoader.PlayersKept | config_loader.py:65-72 | a raw entry is kept when its stripped steamid or vanity name is non-empty, and only then |
| ConfigLoader.BlankPlayerDropped | config_loader.py:68-71 | an entry with no steamid and a whitespace vanity name is dropped |
| ConfigLoader.Interval | config_loader.py:77-79 | an accepted interval is positive; 60 when absent |
| ConfigLoader.IntervalDefaults | config_loader.py:77-79 | absent gives 60; 0 is refused |
| ConfigLoader.LoadConfig | config_loader.py:40-88 | the errors in source order (missing file, no API key, no players, bad interval); a configuration that passes all four checks loads, giving the stripped key, the kept players, the positive interval and `str()` of the database path (default `data/playtime_log.sqlite`) |
| SteamApi.OwnedGames | steam_api.py:52-68 | what `get_owned_games` returns: `AttributeError` when `response` is not an object, else the normalised `games or []`; `NoGames`, `NormaliseKept`, `ConvertFields` and `NoAppidDropped` |
| SteamApi.GetOwnedGames | steam_api.py:51-68 | the response loop returns the games `OwnedGames` specifies, or the `int()` error |
| SteamApi.NormaliseKept | steam_api.py:53-67 | succeeds exactly when every entry with a non-null appid converts; then one game per such entry, in order, each its conversion |
| SteamApi.ConvertFields | steam_api.py:56-66 | a converted game has a non-null appid read by `int()`, playtime 0 when absent and `int()` otherwise, and a name exactly when the entry's name is a string |
| SteamApi.NoGames | steam_api.py:52-53 | an absent `response`, or an absent, `null` or empty `games`, gives no games |
| SteamApi.NoAppidDropped | steam_api.py:56-58 | an entry without appid changes nothing |
| SteamApi.Kept | steam_api.py:55-58 | the selected entries all have an appid and are no more than the input |
| SteamApi.ResolveVanityUrl | steam_api.py:34-38 | what `resolve_vanity_url` returns: `AttributeError` when `response` is not an object, else `str(steamid)` when `success == 1` and `steamid` is not null, else `None`; `ResolveCharacterised` |
| SteamApi.ResolveCharacterised | steam_api.py:34-38 | a steamid is returned exactly when `success == 1` and `steamid` is present and non-null, and it is `str(steamid)` |
| SteamApi.ResolvedNumberReadsBack | steam_api.py:37-38 | a numeric steamid is returned as decimal text that `int()` reads back to the same number |
| SteamApi.NoMatchIsNone | steam_api.py:35-36 | `success` 42 or the string `"1"` gives `None` |
| Collector.Steamids | collector.py:22-35 | what `_ensure_steamids` returns: each player's own steamid or resolved vanity name, mapped to itself, the first unresolved vanity name's error, or "no steamid" when nothing was found; `ResolvedMembers`, `FirstFailureRaises`, `NoSteamidsExactly` |
| Collector.EnsureSteamids | collector.py:22-35 | the loop and the final check return the dict `Steamids` specifies, or its error (backend_run_once_pg.py:11-24 is an identical copy) |
| Collector.PutWellFormed | collector.py:26 | assigning a key keeps the dict's key list and entries in step, adding the key once |
| Collector.ResolvedShape | collector.py:23-32 | each key maps to itself, and there are no more keys than players |
| Collector.ResolvedMembers | collector.py:23-32 | the dict holds exactly the steamids some player contributes |
| Collector.FirstFailureRaises | collector.py:28-31 | the first vanity name that does not resolve decides the error |
| Collector.NoFailureResolves | collector.py:24-32 | when every looked-up vanity name resolves the loop completes |
| Collector.ResolvedErrIsUnresolved | collector.py:30-31 | the loop raises only for an unresolved vanity name |
| Collector.NoSteamidsExactly | collector.py:33-34 | "no steamid" is raised exactly when no player has a truthy steamid or vanity name |
| Collector.ResolverOnlyForVanity | collector.py:25-29 | the resolver is consulted only for players without a steamid |
| Collector.SteamidPlayerKept | collector.py:25-26 | a player's own steamid is in the result, mapped to itself |
| PyStrings.Strip | config_loader.py:56-57 | the result is a slice of the input with only whitespace before and after it, and has no whitespace at either end |
| PyStrings.LStripMargin | config_loader.py:56-57 | what `lstrip` removes is whitespace |
| PyStrings.RStripMargin | config_loader.py:56-57 | what `rstrip` removes is whitespace |
| PyStrings.StripBlank | config_loader.py:68-69 | whitespace-only text strips to the empty string |
| PyStrings.StripUnpadded | config_loader.py:56-57 | unpadded text is its own strip |
| PyStrings.Split | backend/refresh_steam_cookies_udc.py:61 | at least one piece, none contains the separator, and joining them gives back the input |
| PyStrings.SplitJoin | backend/refresh_steam_cookies_udc.py:61 | splitting a join of separator-free parts gives the parts |
| PyStrings.SplitFirst | backend/refresh_steam_cookies_udc.py:64 | `split('=', 1)` cuts at the first separator |
| PyStrings.IntToString | steam_api.py:38 | `str(i)`: an optional minus sign and the decimal digits, never empty; `IntToStringInjective`, `PyIntOfPyStr` |
| PyStrings.PyStr | config_loader.py:57 | `str(v)` of a TOML or JSON scalar: a string as is, an integer in decimal, a boolean as `True`/`False` |
| PyStrings.PyInt | steam_api.py:60-63 | `int(v)`: an integer as is, a boolean as 1 or 0, a string by `ParseInt` of its strip, `None` where Python raises; `PyIntOfPyStr` |
| PyStrings.ParseInt | config_loader.py:77 | an optionally signed run of decimal digits read as a number, `None` for anything else |
| PyStrings.IntToStringInjective | steam_api.py:38 | different integers print differently |
| PyStrings.PyIntOfPyStr | steam_api.py:38 | `int(str(i)) == i` |

## Left out

- Network, database, file and browser I/O are not modelled. HTTP requests, `raise_for_status`, SQL queries, TOML and JSON decoding, the Selenium driver and cookie files are inputs given as values.
- Timestamps are integers (seconds, UTC) rather than `datetime`.
- FrontendApi.InferSessionsFromSnapshots sorts by the integer window start. The source sorts on the ISO text of the timestamp, which orders the same way only when all timestamps share a format and offset.
- The store's time ordering (`ORDER BY captured_at_utc`) is a precondition of the ordering lemmas, not something the model computes.
- `fetch_snapshots_ordered` is a function parameter of `Analyzer.InferSessionsForAll`.
- The resolver of `Collector.EnsureSteamids` is a total function. An exception it raises is not modelled.
- The scraper's HTML parsing and `parse_playtime` (floating point) are not modelled.
- Chart rendering, colours (MD5) and HTML generation are not modelled.
- The change gate's hours are exact reals, not floating point.
- Dashboard.CalculatePlaytimeChanges: a game dict without `appid` raises `KeyError` at frontend/app.py:138 and :142, and a null `playtime_forever` raises `TypeError` at :148-151. The model's games always carry an appid and a number, so it does not represent either error.
- Dashboard.Hour takes the hour of the UTC timestamp. The source's `.hour` at frontend/app.py:199-200 is in the time zone the database session returns, so the histogram can be shifted by that offset.
- In `frontend/app.py`, a game's name present but `null` is not modelled. `game.get('name', ...)` would return `None` there, and the model only has a name string or an absent key.
- `\d` is modelled as ASCII digits. Python also matches other Unicode decimal digits.
- PyStrings.PyInt: `int()` on strings with underscores, on floats, or on other bases is not modelled.
- PyStrings.PyInt: `int()` also accepts non-ASCII Unicode decimal digits (`int("١٢") == 12`); `ParseInt` accepts only ASCII digits.
- SteamApi.ResolveVanityUrl: a JSON float `success` such as `1.0` equals `1` in Python, so the source returns the steamid; `Value` has no float, so the model cannot represent it. A float, list or object `success` or `steamid` (the latter reaching `str()` at steam_api.py:38) is not modelled either.
- ConfigLoader.LoadConfig: TOML floats, dates, arrays and tables reaching `str(...)` at config_loader.py:57, :68 and :69 (and `int(...)` at :77) are not modelled; `Value` holds only strings, integers and booleans.
- SteamApi.GetOwnedGames: the two ways `int()` can fail (`TypeError` on `null`, `ValueError` on text) are one `IntError`.
- SteamApi.GetOwnedGames: JSON floats, lists and objects inside game fields are not modelled.
- SteamApi.GetOwnedGames: a `games` value that is truthy but not a list is not modelled.
- A `response` value that is present but not an object gives an attribute error (`NotAnObject`). Its finer distinctions are not modelled. A top-level JSON body that is not an object, on which `data.get` at steam_api.py:34 and :52 would itself fail, has no input in the model.
- ConfigLoader.LoadConfig: the database path is the unresolved text; joining it to the configuration file's directory and `.resolve()` (config_loader.py:81) are not modelled.
- ConfigLoader.LoadConfig: the environment is a total function (`os.getenv(name, "")`).
- In-place list updates (`append`, `sort`, dict assignment) are modelled as reassignment of sequence and map values. Aliasing is not modelled.
