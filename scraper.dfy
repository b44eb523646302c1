/**
  The pure parts of the profile scraper (backend/steam_scraper.py): the cookie
  dict built from a cookie string, the profile URL for a player, and the
  "M月D日" date taken out of a last-played text by the pattern
  `(\d+)\s*月\s*(\d+)\s*日`.
 */
module SteamScraper {
  import opened Wrappers
  import opened PyStrings
  import opened CookieString

  // ---------------------------------------------------------------------------
  // `_set_cookies`: the cookie dict

  /** The dict `cookies` after assigning each pair in turn: a later pair of the same name wins. */
  function DictOf(pairs: seq<(string, string)>): map<string, string> {
    if pairs == [] then map[]
    else
      var p := pairs[|pairs| - 1];
      DictOf(pairs[..|pairs| - 1])[p.0 := p.1]
  }

  /**
    The cookies set on the session. A piece without `=` is skipped; a piece with
    one cannot be empty, so this is the same test as in the refresher.
   */
  method SetCookies(cookieString: string) returns (cookies: map<string, string>)
    ensures cookies == DictOf(ParsedPairs(cookieString))
  {
    var items := Split(cookieString, ';');
    cookies := map[];
    for i := 0 to |items|
      invariant cookies == DictOf(Pairs(items[..i]))
    {
      PairsSnoc(items, i);
      var parsed := ParseItem(items[i]);
      if parsed.Some? {
        var key := parsed.value.0;
        var value := parsed.value.1;
        assert Pairs(items[..i + 1]) == Pairs(items[..i]) + [(key, value)];
        DictOfSnoc(Pairs(items[..i]), (key, value));
        cookies := cookies[key := value];
      } else {
        assert Pairs(items[..i + 1]) == Pairs(items[..i]);
      }
    }
    assert items[..|items|] == items;
  }

  lemma DictOfSnoc(pairs: seq<(string, string)>, p: (string, string))
    ensures DictOf(pairs + [p]) == DictOf(pairs)[p.0 := p.1]
  {
    assert (pairs + [p])[..|pairs|] == pairs;
  }

  /** The dict holds exactly the names of the pairs. */
  lemma {:induction false} DictOfKeys(pairs: seq<(string, string)>, n: string)
    ensures n in DictOf(pairs) <==> exists k :: 0 <= k < |pairs| && pairs[k].0 == n
  {
    if pairs != [] {
      var init, p := pairs[..|pairs| - 1], pairs[|pairs| - 1];
      DictOfKeys(init, n);
      if n in DictOf(init) {
        var k :| 0 <= k < |init| && init[k].0 == n;
        assert pairs[k] == init[k];
      }
      if exists k :: 0 <= k < |pairs| && pairs[k].0 == n {
        var k :| 0 <= k < |pairs| && pairs[k].0 == n;
        if k < |init| {
          assert init[k] == pairs[k];
        }
      }
    }
  }

  /** Each name maps to the value of its last pair. */
  lemma {:induction false} DictOfLastWins(pairs: seq<(string, string)>, k: nat)
    requires k < |pairs|
    requires forall j :: k < j < |pairs| ==> pairs[j].0 != pairs[k].0
    ensures pairs[k].0 in DictOf(pairs) && DictOf(pairs)[pairs[k].0] == pairs[k].1
  {
    var init, p := pairs[..|pairs| - 1], pairs[|pairs| - 1];
    if k < |init| {
      assert init[k] == pairs[k];
      assert forall j :: k < j < |init| ==> init[j] == pairs[j];
      DictOfLastWins(init, k);
    }
  }

  /** The dict has at most as many entries as there are pairs. */
  lemma {:induction false} DictOfSize(pairs: seq<(string, string)>)
    ensures |DictOf(pairs)| <= |pairs|
  {
    if pairs != [] {
      var init, p := pairs[..|pairs| - 1], pairs[|pairs| - 1];
      DictOfSize(init);
      assert DictOf(pairs).Keys == DictOf(init).Keys + {p.0};
    }
  }

  // ---------------------------------------------------------------------------
  // `get_profile_url`

  const VanityPrefix: string := "https://steamcommunity.com/id/"
  const ProfilesPrefix: string := "https://steamcommunity.com/profiles/"

  function ProfileUrl(steamid: string, vanityUrl: Option<string>): string {
    if vanityUrl.Some? && vanityUrl.value != [] then VanityPrefix + vanityUrl.value + "/"
    else ProfilesPrefix + steamid + "/"
  }

  /** Which profile a URL names. */
  datatype ProfileRef = ByVanity(name: string) | BySteamid(steamid: string)

  /** Reads a profile URL back: the text between the prefix and the final `/`. */
  function ProfileOf(url: string): Option<ProfileRef> {
    if |url| > |VanityPrefix| && url[..|VanityPrefix|] == VanityPrefix && url[|url| - 1] == '/' then
      Some(ByVanity(url[|VanityPrefix|..|url| - 1]))
    else if |url| > |ProfilesPrefix| && url[..|ProfilesPrefix|] == ProfilesPrefix && url[|url| - 1] == '/' then
      Some(BySteamid(url[|ProfilesPrefix|..|url| - 1]))
    else None
  }

  /** The URL names the vanity name when one is given and non-empty, the steamid otherwise. */
  lemma ProfileUrlNames(steamid: string, vanityUrl: Option<string>)
    ensures ProfileOf(ProfileUrl(steamid, vanityUrl))
         == Some(if vanityUrl.Some? && vanityUrl.value != [] then ByVanity(vanityUrl.value) else BySteamid(steamid))
  {
    var url := ProfileUrl(steamid, vanityUrl);
    if vanityUrl.Some? && vanityUrl.value != [] {
      assert url[..|VanityPrefix|] == VanityPrefix;
      assert url[|VanityPrefix|..|url| - 1] == vanityUrl.value;
    } else {
      assert url[..|ProfilesPrefix|] == ProfilesPrefix;
      assert url[|ProfilesPrefix|..|url| - 1] == steamid;
      assert url[..|VanityPrefix|] != VanityPrefix by {
        assert url[27] == 'p' && VanityPrefix[27] == 'i';
      }
    }
  }

  // ---------------------------------------------------------------------------
  // `parse_date`: `re.search(r'(\d+)\s*月\s*(\d+)\s*日', text)`

  const Month: char := '\U{6708}'
  const Day: char := '\U{65e5}'

  predicate AllSpaces(s: string) {
    forall k :: 0 <= k < |s| ==> IsSpace(s[k])
  }

  /**
    The pattern matches `s` from position `i`: digits `s[i..j]`, spaces, 月 at `k`,
    spaces, digits `s[l..m]`, spaces, 日 at `n`.
   */
  ghost predicate IsMatch(s: string, i: int, j: int, k: int, l: int, m: int, n: int) {
    && 0 <= i < j <= k < |s| && AllDigits(s[i..j]) && AllSpaces(s[j..k]) && s[k] == Month
    && k + 1 <= l < m <= n < |s| && AllSpaces(s[k + 1..l]) && AllDigits(s[l..m]) && AllSpaces(s[m..n])
    && s[n] == Day
  }

  /** The end of the run of digits starting at `i`. */
  function DigitsEnd(s: string, i: nat): (j: nat)
    requires i <= |s|
    ensures i <= j <= |s| && AllDigits(s[i..j]) && (j == |s| || !IsDigit(s[j]))
    decreases |s| - i
  {
    if i < |s| && IsDigit(s[i]) then
      var j := DigitsEnd(s, i + 1);
      assert s[i..j] == [s[i]] + s[i + 1..j];
      j
    else i
  }

  /** The end of the run of whitespace starting at `i`. */
  function SpacesEnd(s: string, i: nat): (j: nat)
    requires i <= |s|
    ensures i <= j <= |s| && AllSpaces(s[i..j]) && (j == |s| || !IsSpace(s[j]))
    decreases |s| - i
  {
    if i < |s| && IsSpace(s[i]) then
      var j := SpacesEnd(s, i + 1);
      assert s[i..j] == [s[i]] + s[i + 1..j];
      j
    else i
  }

  /** The two groups of the match starting at `i`, if there is one. */
  function MatchAt(s: string, i: nat): Option<(string, string)>
    requires i <= |s|
  {
    var j := DigitsEnd(s, i);
    var k := SpacesEnd(s, j);
    if j == i || k == |s| || s[k] != Month then None
    else
      var l := SpacesEnd(s, k + 1);
      var m := DigitsEnd(s, l);
      var n := SpacesEnd(s, m);
      if m == l || n == |s| || s[n] != Day then None
      else Some((s[i..j], s[l..m]))
  }

  /** `re.search`: the match at the leftmost position where there is one. */
  function Search(s: string, i: nat): Option<(string, string)>
    requires i <= |s|
    decreases |s| - i
  {
    if i == |s| then None
    else match MatchAt(s, i)
      case Some(g) => Some(g)
      case None => Search(s, i + 1)
  }

  function ParseDate(text: string): Option<string> {
    if text == [] then None
    else match Search(text, 0)
      case None => None
      case Some(g) => Some(g.0 + [Month] + g.1 + [Day])
  }

  // ---------------------------------------------------------------------------
  // The search agrees with the pattern

  lemma {:induction false} DigitsEndUnique(s: string, i: nat, j: nat)
    requires i <= j <= |s| && AllDigits(s[i..j]) && (j == |s| || !IsDigit(s[j]))
    ensures DigitsEnd(s, i) == j
    decreases j - i
  {
    if i < j {
      assert IsDigit(s[i]) by { assert s[i..j][0] == s[i]; }
      assert AllDigits(s[i + 1..j]) by {
        var rest := s[i + 1..j];
        forall t | 0 <= t < |rest| ensures IsDigit(rest[t]) {
          assert rest[t] == s[i..j][t + 1];
        }
      }
      DigitsEndUnique(s, i + 1, j);
    }
  }

  lemma {:induction false} SpacesEndUnique(s: string, i: nat, j: nat)
    requires i <= j <= |s| && AllSpaces(s[i..j]) && (j == |s| || !IsSpace(s[j]))
    ensures SpacesEnd(s, i) == j
    decreases j - i
  {
    if i < j {
      assert IsSpace(s[i]) by { assert s[i..j][0] == s[i]; }
      assert AllSpaces(s[i + 1..j]) by {
        var rest := s[i + 1..j];
        forall t | 0 <= t < |rest| ensures IsSpace(rest[t]) {
          assert rest[t] == s[i..j][t + 1];
        }
      }
      SpacesEndUnique(s, i + 1, j);
    }
  }

  /** What `MatchAt` returns is a match of the pattern. */
  lemma MatchAtSound(s: string, i: nat)
    requires i <= |s| && MatchAt(s, i).Some?
    ensures exists j, k, l, m, n :: IsMatch(s, i, j, k, l, m, n) && MatchAt(s, i).value == (s[i..j], s[l..m])
  {
    var j := DigitsEnd(s, i);
    var k := SpacesEnd(s, j);
    var l := SpacesEnd(s, k + 1);
    var m := DigitsEnd(s, l);
    var n := SpacesEnd(s, m);
    assert IsMatch(s, i, j, k, l, m, n);
  }

  /** Any match of the pattern at `i` is the one `MatchAt` finds: the match at a position is unique. */
  lemma MatchAtComplete(s: string, i: nat, j: int, k: int, l: int, m: int, n: int)
    requires IsMatch(s, i, j, k, l, m, n)
    ensures MatchAt(s, i) == Some((s[i..j], s[l..m]))
  {
    MonthRuns(s, i, j, k);
    DayRuns(s, k, l, m, n);
  }

  /** The runs before 月: the digits end at `j` and the spaces at `k`. */
  lemma MonthRuns(s: string, i: nat, j: int, k: int)
    requires 0 <= i < j <= k < |s| && AllDigits(s[i..j]) && AllSpaces(s[j..k]) && s[k] == Month
    ensures DigitsEnd(s, i) == j && SpacesEnd(s, j) == k
  {
    assert !IsDigit(s[j]) by { if j < k { assert s[j..k][0] == s[j]; } }
    DigitsEndUnique(s, i, j);
    SpacesEndUnique(s, j, k);
  }

  /** The runs after 月: spaces end at `l`, digits at `m`, spaces at `n`. */
  lemma DayRuns(s: string, k: int, l: int, m: int, n: int)
    requires 0 <= k && k + 1 <= l < m <= n < |s| && AllSpaces(s[k + 1..l]) && AllDigits(s[l..m]) && AllSpaces(s[m..n])
    requires s[n] == Day
    ensures SpacesEnd(s, k + 1) == l && DigitsEnd(s, l) == m && SpacesEnd(s, m) == n
  {
    assert !IsSpace(s[l]) by { assert s[l..m][0] == s[l]; }
    assert !IsDigit(s[m]) by { if m < n { assert s[m..n][0] == s[m]; } }
    SpacesEndUnique(s, k + 1, l);
    DigitsEndUnique(s, l, m);
    SpacesEndUnique(s, m, n);
  }

  lemma {:induction false} SearchLeftmost(s: string, i: nat)
    requires i <= |s|
    ensures Search(s, i).Some? ==>
      exists p :: i <= p < |s| && MatchAt(s, p) == Search(s, i) && forall q :: i <= q < p ==> MatchAt(s, q).None?
    ensures Search(s, i).None? ==> forall p :: i <= p < |s| ==> MatchAt(s, p).None?
    decreases |s| - i
  {
    if i < |s| {
      if MatchAt(s, i).Some? {
        assert Search(s, i) == MatchAt(s, i);
      } else {
        assert Search(s, i) == Search(s, i + 1);
        SearchLeftmost(s, i + 1);
        if Search(s, i).Some? {
          var p :| i + 1 <= p < |s| && MatchAt(s, p) == Search(s, i + 1) && forall q :: i + 1 <= q < p ==> MatchAt(s, q).None?;
          assert forall q :: i <= q < p ==> MatchAt(s, q).None?;
        }
      }
    }
  }

  /**
    `parse_date` gives `None` for the empty text, and whenever it gives `None` the
    pattern matches nowhere in the text.
   */
  lemma ParseDateNoMatch(text: string)
    ensures text == [] ==> ParseDate(text).None?
    ensures ParseDate(text).None? ==> forall p, j, k, l, m, n :: !IsMatch(text, p, j, k, l, m, n)
  {
    if ParseDate(text).None? {
      SearchLeftmost(text, 0);
      forall p, j, k, l, m, n | IsMatch(text, p, j, k, l, m, n) ensures false {
        MatchAtComplete(text, p, j, k, l, m, n);
      }
    }
  }

  /**
    When `parse_date` gives a result, it is "<month>月<day>日" built from the leftmost
    match of the pattern, the digits copied as written.
   */
  lemma ParseDateLeftmost(text: string)
    requires ParseDate(text).Some?
    ensures exists p, j, k, l, m, n ::
        && IsMatch(text, p, j, k, l, m, n)
        && (forall q, j', k', l', m', n' :: q < p ==> !IsMatch(text, q, j', k', l', m', n'))
        && ParseDate(text).value == text[p..j] + [Month] + text[l..m] + [Day]
  {
    SearchLeftmost(text, 0);
    var p :| 0 <= p < |text| && MatchAt(text, p) == Search(text, 0) && forall q :: 0 <= q < p ==> MatchAt(text, q).None?;
    MatchAtSound(text, p);
    var j, k, l, m, n :| IsMatch(text, p, j, k, l, m, n) && MatchAt(text, p).value == (text[p..j], text[l..m]);
    forall q, j', k', l', m', n' | q < p ensures !IsMatch(text, q, j', k', l', m', n') {
      if IsMatch(text, q, j', k', l', m', n') {
        MatchAtComplete(text, q, j', k', l', m', n');
      }
    }
  }
}
