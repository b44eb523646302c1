/**
  The `name=value; name=value` form of the HTTP Cookie header (section 4.2.1 of
  RFC 6265) as both cookie readers in the repository take it apart: split at
  every `;`, strip each piece, skip a piece without `=`, split the rest at its
  first `=` and strip both halves. Writing goes the other way: `name=value`
  pieces joined with `"; "`.
 */
module CookieString {
  import opened Wrappers
  import opened PyStrings

  /** One `;`-separated piece: `None` when, stripped, it is empty or has no `=`. */
  function ParseItem(item: string): (r: Option<(string, string)>)
    ensures r.None? <==> '=' !in Strip(item)
    ensures r.Some? ==> '=' !in r.value.0
    ensures r.Some? ==> Unpadded(r.value.0) && Unpadded(r.value.1)
  {
    var t := Strip(item);
    if t == [] || '=' !in t then None
    else
      var nv := SplitFirst(t, '=');
      StripKeepsAbsent(nv.0, '=');
      Some((Strip(nv.0), Strip(nv.1)))
  }

  /** No whitespace at either end. */
  predicate Unpadded(s: string) {
    s != [] ==> !IsSpace(s[0]) && !IsSpace(s[|s| - 1])
  }

  /** The pair of each piece, or `None`. */
  function Parsed(items: seq<string>): (r: seq<Option<(string, string)>>)
    ensures |r| == |items|
  {
    seq(|items|, k requires 0 <= k < |items| => ParseItem(items[k]))
  }

  /** The present values, in order. */
  function Present(opts: seq<Option<(string, string)>>): (r: seq<(string, string)>)
    ensures |r| <= |opts|
  {
    if opts == [] then []
    else
      Present(opts[..|opts| - 1])
      + match opts[|opts| - 1] case None => [] case Some(p) => [p]
  }

  /** The pairs of the pieces that have one, in order. */
  function Pairs(items: seq<string>): (r: seq<(string, string)>)
    ensures |r| <= |items|
  {
    Present(Parsed(items))
  }

  /** One more piece adds its pair, if it has one. */
  lemma PairsSnoc(items: seq<string>, i: nat)
    requires i < |items|
    ensures Pairs(items[..i + 1]) == Pairs(items[..i]) + match ParseItem(items[i]) case None => [] case Some(p) => [p]
  {
    var opts := Parsed(items[..i + 1]);
    assert opts[..i] == Parsed(items[..i]);
    assert opts[i] == ParseItem(items[i]);
  }

  /** The (name, value) pairs of a cookie string. */
  function ParsedPairs(cookieString: string): (r: seq<(string, string)>)
    ensures |r| <= |Split(cookieString, ';')|
  {
    Pairs(Split(cookieString, ';'))
  }

  /** `f"{name}={value}"` for each pair. */
  function Render(pairs: seq<(string, string)>): (parts: seq<string>)
    ensures |parts| == |pairs|
  {
    seq(|pairs|, k requires 0 <= k < |pairs| => pairs[k].0 + "=" + pairs[k].1)
  }

  /** `"; ".join(parts)`. */
  function Header(parts: seq<string>): string {
    Join(parts, "; ")
  }

  // ---------------------------------------------------------------------------
  // Round trip

  /** A pair that survives writing and reading back unchanged. */
  predicate WellFormed(p: (string, string)) {
    && p.0 != [] && '=' !in p.0 && ';' !in p.0 && ';' !in p.1
    && Unpadded(p.0) && Unpadded(p.1)
  }

  /** The pieces `parts[0]`, `" " + parts[1]`, ... that splitting a `"; "` join at `;` gives. */
  function Prefixed(q: seq<string>): (r: seq<string>)
    ensures |r| == |q|
  {
    seq(|q|, k requires 0 <= k < |q| => " " + q[k])
  }

  lemma {:induction false} PrefixedJoin(q: seq<string>)
    requires q != []
    ensures " " + Join(q, "; ") == Join(Prefixed(q), ";")
  {
    if |q| > 1 {
      PrefixedJoin(q[1..]);
      assert Prefixed(q)[1..] == Prefixed(q[1..]);
      assert " " + Join(q, "; ") == (" " + q[0]) + ";" + (" " + Join(q[1..], "; "));
    }
  }

  lemma JoinSpaced(parts: seq<string>)
    requires parts != []
    ensures Header(parts) == Join([parts[0]] + Prefixed(parts[1..]), ";")
  {
    var r := [parts[0]] + Prefixed(parts[1..]);
    if |parts| > 1 {
      PrefixedJoin(parts[1..]);
      assert r[1..] == Prefixed(parts[1..]);
      assert Join(parts, "; ") == parts[0] + ";" + (" " + Join(parts[1..], "; "));
    }
  }

  lemma NoSemicolon(w: string, n: string, v: string)
    requires w == "" || w == " "
    requires ';' !in n && ';' !in v
    ensures ';' !in w + (n + "=" + v)
  {
  }

  /** A written piece, with or without the space before it, reads back as its pair. */
  lemma ParseRendered(w: string, p: (string, string))
    requires forall k :: 0 <= k < |w| ==> IsSpace(w[k])
    requires WellFormed(p)
    ensures ParseItem(w + (p.0 + "=" + p.1)) == Some(p)
  {
    var item := p.0 + "=" + p.1;
    RenderedUnpadded(p);
    StripLeadingSpaces(w, item);
    ParseStripped(w + item, p);
  }

  /** A written piece has no whitespace at either end. */
  lemma RenderedUnpadded(p: (string, string))
    requires WellFormed(p)
    ensures var item := p.0 + "=" + p.1;
      item != [] && !IsSpace(item[0]) && !IsSpace(item[|item| - 1])
  {
    var item := p.0 + "=" + p.1;
    assert item == p.0 + ['='] + p.1;
    assert item[0] == p.0[0];
    assert item[|item| - 1] == if p.1 == [] then '=' else p.1[|p.1| - 1];
  }

  /** A piece that strips to a written pair parses as that pair. */
  lemma ParseStripped(s: string, p: (string, string))
    requires WellFormed(p)
    requires Strip(s) == p.0 + "=" + p.1
    ensures ParseItem(s) == Some(p)
  {
    var item := p.0 + "=" + p.1;
    assert item == p.0 + ['='] + p.1;
    SplitFirstOf(p.0, '=', p.1);
    StripUnpadded(p.0);
    StripUnpadded(p.1);
    assert item != [] && '=' in item;
  }

  lemma {:induction false} PresentOf(opts: seq<Option<(string, string)>>, pairs: seq<(string, string)>)
    requires |opts| == |pairs|
    requires forall k :: 0 <= k < |opts| ==> opts[k] == Some(pairs[k])
    ensures Present(opts) == pairs
  {
    if opts != [] {
      PresentOf(opts[..|opts| - 1], pairs[..|pairs| - 1]);
      assert pairs == pairs[..|pairs| - 1] + [pairs[|pairs| - 1]];
    }
  }

  /**
    Writing well-formed pairs as a header and reading the header back gives the
    same pairs in the same order.
   */
  lemma RoundTrip(pairs: seq<(string, string)>)
    requires pairs != []
    requires forall k :: 0 <= k < |pairs| ==> WellFormed(pairs[k])
    ensures ParsedPairs(Header(Render(pairs))) == pairs
  {
    var parts := Render(pairs);
    var segments := [parts[0]] + Prefixed(parts[1..]);
    JoinSpaced(parts);
    SegmentsParse(pairs, segments);
    SplitJoin(segments, ';');
    PresentOf(Parsed(segments), pairs);
  }

  lemma SegmentsParse(pairs: seq<(string, string)>, segments: seq<string>)
    requires pairs != []
    requires forall k :: 0 <= k < |pairs| ==> WellFormed(pairs[k])
    requires segments == [Render(pairs)[0]] + Prefixed(Render(pairs)[1..])
    ensures |segments| == |pairs|
    ensures forall k :: 0 <= k < |segments| ==> ';' !in segments[k]
    ensures forall k :: 0 <= k < |segments| ==> Parsed(segments)[k] == Some(pairs[k])
  {
    forall k | 0 <= k < |segments| ensures segments[k] == (if k == 0 then "" else " ") + (pairs[k].0 + "=" + pairs[k].1) {
    }
    forall k | 0 <= k < |segments| ensures ';' !in segments[k] {
      var p := pairs[k];
      assert WellFormed(p);
      NoSemicolon(if k == 0 then "" else " ", p.0, p.1);
    }
    forall k | 0 <= k < |segments| ensures ParseItem(segments[k]) == Some(pairs[k]) {
      ParseRendered(if k == 0 then "" else " ", pairs[k]);
    }
  }
}
