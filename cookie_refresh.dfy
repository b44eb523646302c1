/**
  The cookie handling of the browser-based cookie refresher
  (backend/refresh_steam_cookies_udc.py): reading a stored cookie string into
  browser cookie objects, and writing the cookies a browser returned back into
  one cookie string.
 */
module CookieRefresh {
  import opened Wrappers
  import opened PyStrings
  import opened CookieString

  /** A cookie object as the browser driver takes it. */
  datatype BrowserCookie = BrowserCookie(name: string, value: string, domain: string, path: string)

  const SteamDomain: string := ".steamcommunity.com"

  /** The browser cookie for one parsed pair. */
  function ToBrowser(p: (string, string)): BrowserCookie {
    BrowserCookie(p.0, p.1, SteamDomain, "/")
  }

  function ToBrowserAll(pairs: seq<(string, string)>): (r: seq<BrowserCookie>)
    ensures |r| == |pairs|
  {
    seq(|pairs|, k requires 0 <= k < |pairs| => ToBrowser(pairs[k]))
  }

  /** `_parse_cookie_string`. */
  method ParseCookieString(cookieString: string) returns (result: seq<BrowserCookie>)
    ensures result == ToBrowserAll(ParsedPairs(cookieString))
  {
    var items := Split(cookieString, ';');
    result := [];
    for i := 0 to |items|
      invariant result == ToBrowserAll(Pairs(items[..i]))
    {
      PairsSnoc(items, i);
      var parsed := ParseItem(items[i]);
      if parsed.None? {
        continue;
      }
      var cookie := BrowserCookie(parsed.value.0, parsed.value.1, SteamDomain, "/");
      ToBrowserSnoc(Pairs(items[..i]), parsed.value);
      result := result + [cookie];
    }
    assert items[..|items|] == items;
  }

  lemma ToBrowserSnoc(pairs: seq<(string, string)>, p: (string, string))
    ensures ToBrowserAll(pairs + [p]) == ToBrowserAll(pairs) + [ToBrowser(p)]
  {
  }

  /**
    What the parsed cookies are: one per piece of the string that has an `=`, in
    order, duplicates kept, each the stripped text before and after the piece's
    first `=`, all for the Steam community domain and the root path.
   */
  lemma {:induction false} ParsedCookies(cookieString: string)
    ensures var r := ToBrowserAll(ParsedPairs(cookieString));
      && |r| <= |Split(cookieString, ';')|
      && (forall k :: 0 <= k < |r| ==> r[k].domain == SteamDomain && r[k].path == "/")
      && (forall k :: 0 <= k < |r| ==> '=' !in r[k].name && Unpadded(r[k].name) && Unpadded(r[k].value))
  {
    var pairs := ParsedPairs(cookieString);
    PairsShape(Split(cookieString, ';'));
    var r := ToBrowserAll(pairs);
    forall k | 0 <= k < |r| ensures '=' !in r[k].name && Unpadded(r[k].name) && Unpadded(r[k].value) {
      assert r[k] == ToBrowser(pairs[k]);
    }
  }

  /** Each pair has a name without `=` and no surrounding whitespace on either side. */
  lemma PairsShape(items: seq<string>)
    ensures forall k :: 0 <= k < |Pairs(items)| ==>
      '=' !in Pairs(items)[k].0 && Unpadded(Pairs(items)[k].0) && Unpadded(Pairs(items)[k].1)
  {
    var opts := Parsed(items);
    forall k | 0 <= k < |opts| && opts[k].Some?
      ensures '=' !in opts[k].value.0 && Unpadded(opts[k].value.0) && Unpadded(opts[k].value.1)
    {
      assert opts[k] == ParseItem(items[k]);
    }
    PresentShape(opts);
  }

  lemma {:induction false} PresentShape(opts: seq<Option<(string, string)>>)
    requires forall k :: 0 <= k < |opts| && opts[k].Some? ==> '=' !in opts[k].value.0 && Unpadded(opts[k].value.0) && Unpadded(opts[k].value.1)
    ensures forall k :: 0 <= k < |Present(opts)| ==> '=' !in Present(opts)[k].0 && Unpadded(Present(opts)[k].0) && Unpadded(Present(opts)[k].1)
  {
    if opts != [] {
      PresentShape(opts[..|opts| - 1]);
    }
  }

  // ---------------------------------------------------------------------------
  // Writing the cookie string (`refresh_cookies_with_udc`)

  /** A cookie returned by the browser: `c.get("name")` and `c.get("value")`. */
  datatype RawCookie = RawCookie(name: Option<string>, value: Option<string>)

  /** The two `RuntimeError`s the writer raises. */
  datatype RefreshError = NoCookiesReturned | NoUsableCookies

  /** A cookie is written when its name is truthy and its value is not `None`. */
  predicate Usable(c: RawCookie) {
    c.name.Some? && c.name.value != [] && c.value.Some?
  }

  /** The (name, value) pairs of the cookies that are written, in order. */
  function Kept(cookies: seq<RawCookie>): (r: seq<(string, string)>)
    ensures |r| <= |cookies|
  {
    if cookies == [] then []
    else
      var c := cookies[|cookies| - 1];
      Kept(cookies[..|cookies| - 1]) + if Usable(c) then [(c.name.value, c.value.value)] else []
  }

  lemma {:induction false} KeptEmpty(cookies: seq<RawCookie>)
    ensures Kept(cookies) == [] <==> forall k :: 0 <= k < |cookies| ==> !Usable(cookies[k])
  {
    if cookies != [] {
      var init := cookies[..|cookies| - 1];
      KeptEmpty(init);
      assert forall k :: 0 <= k < |init| ==> init[k] == cookies[k];
    }
  }

  /** The lines that turn `driver.get_cookies()` into the saved cookie string. */
  method SerializeCookies(cookies: seq<RawCookie>) returns (r: Result<string, RefreshError>)
    ensures cookies == [] ==> r == Err(NoCookiesReturned)
    ensures cookies != [] && Kept(cookies) == [] ==> r == Err(NoUsableCookies)
    ensures cookies != [] && Kept(cookies) != [] ==> r == Ok(Header(Render(Kept(cookies))))
  {
    if cookies == [] {
      return Err(NoCookiesReturned);
    }
    var parts := [];
    for i := 0 to |cookies|
      invariant parts == Render(Kept(cookies[..i]))
    {
      var c := cookies[i];
      assert cookies[..i + 1][..i] == cookies[..i];
      var name := c.name;
      var value := c.value;
      if name.None? || name.value == [] || value.None? {
        continue;
      }
      parts := parts + [name.value + "=" + value.value];
    }
    assert cookies[..|cookies|] == cookies;
    if parts == [] {
      return Err(NoUsableCookies);
    }
    return Ok(Header(parts));
  }

  /**
    Reading back a written cookie string gives the written cookies' names and
    values in order, when each is well formed (a non-empty name without `=`, no
    `;` in either part, no whitespace around either part).
   */
  lemma WriteThenRead(cookies: seq<RawCookie>)
    requires Kept(cookies) != []
    requires forall k :: 0 <= k < |Kept(cookies)| ==> WellFormed(Kept(cookies)[k])
    ensures ParsedPairs(Header(Render(Kept(cookies)))) == Kept(cookies)
  {
    RoundTrip(Kept(cookies));
  }
}
