/**
  The few Python string built-ins the modelled code relies on, as functions over
  `string` (a sequence of Unicode scalar values): `str.isspace`, `str.strip`,
  `str.split(sep)`, `str.split(sep, 1)`, `sep.join(parts)`, `str(v)` and `int(v)`.
 */
module PyStrings {
  import opened Wrappers

  /** Python's `str.isspace()` for one character: exactly the characters it treats as whitespace. */
  predicate IsSpace(c: char) {
    || ('\t' <= c <= '\r')
    || ('\U{1c}' <= c <= ' ')
    || c == '\U{85}' || c == '\U{a0}' || c == '\U{1680}'
    || ('\U{2000}' <= c <= '\U{200a}')
    || c == '\U{2028}' || c == '\U{2029}' || c == '\U{202f}' || c == '\U{205f}' || c == '\U{3000}'
  }

  predicate IsDigit(c: char) {
    '0' <= c <= '9'
  }

  predicate AllDigits(s: string) {
    forall k :: 0 <= k < |s| ==> IsDigit(s[k])
  }

  /** Nothing but whitespace. */
  predicate AllSpace(t: string) {
    forall k :: 0 <= k < |t| ==> IsSpace(t[k])
  }

  /** `s.lstrip()`: the longest suffix of `s` that does not start with whitespace. */
  function LStrip(s: string): (r: string)
    ensures |r| <= |s| && r == s[|s| - |r|..]
    ensures r != [] ==> !IsSpace(r[0])
  {
    if s != [] && IsSpace(s[0]) then LStrip(s[1..]) else s
  }

  /** What `lstrip` removes is whitespace. */
  lemma {:induction false} LStripMargin(s: string)
    ensures AllSpace(s[..|s| - |LStrip(s)|])
  {
    if s != [] && IsSpace(s[0]) {
      LStripMargin(s[1..]);
      AllSpaceCons(s, |s| - |LStrip(s)|);
    }
  }

  /** `s.rstrip()`: the longest prefix of `s` that does not end with whitespace. */
  function RStrip(s: string): (r: string)
    ensures |r| <= |s| && r == s[..|r|]
    ensures r != [] ==> !IsSpace(r[|r| - 1])
  {
    if s != [] && IsSpace(s[|s| - 1]) then RStrip(s[..|s| - 1]) else s
  }

  /** What `rstrip` removes is whitespace. */
  lemma {:induction false} RStripMargin(s: string)
    ensures AllSpace(s[|RStrip(s)|..])
  {
    if s != [] && IsSpace(s[|s| - 1]) {
      RStripMargin(s[..|s| - 1]);
      AllSpaceSnoc(s, |RStrip(s)|);
    }
  }

  lemma AllSpaceCons(s: string, n: nat)
    requires 0 < n <= |s| && IsSpace(s[0]) && AllSpace(s[1..][..n - 1])
    ensures AllSpace(s[..n])
  {
    assert forall k :: 1 <= k < n ==> s[..n][k] == s[1..][..n - 1][k - 1];
  }

  lemma AllSpaceSnoc(s: string, n: nat)
    requires n < |s| && IsSpace(s[|s| - 1]) && AllSpace(s[..|s| - 1][n..])
    ensures AllSpace(s[n..])
  {
    assert forall k :: 0 <= k < |s| - 1 - n ==> s[n..][k] == s[..|s| - 1][n..][k];
  }

  /** `r` is the slice of `s` at `lo`, and every character of `s` outside it is whitespace. */
  predicate Margins(s: string, r: string, lo: int) {
    && 0 <= lo <= |s| - |r|
    && r == s[lo..lo + |r|]
    && AllSpace(s[..lo])
    && AllSpace(s[lo + |r|..])
  }

  /**
    `s.strip()`: `s` without its leading and trailing whitespace, that is a slice
    of `s` with only whitespace around it and none at its own ends.
   */
  function Strip(s: string): (r: string)
    ensures r != [] ==> !IsSpace(r[0]) && !IsSpace(r[|r| - 1])
    ensures |r| <= |s|
    ensures exists lo :: Margins(s, r, lo)
  {
    StripMargins(s);
    RStrip(LStrip(s))
  }

  lemma StripMargins(s: string)
    ensures Margins(s, RStrip(LStrip(s)), |s| - |LStrip(s)|)
  {
    LStripMargin(s);
    RStripMargin(LStrip(s));
    MarginsOfParts(s, LStrip(s), RStrip(LStrip(s)));
  }

  /** A prefix `r` of a suffix `l` of `s`, with whitespace cut off on both sides, has `Margins`. */
  lemma MarginsOfParts(s: string, l: string, r: string)
    requires |l| <= |s| && l == s[|s| - |l|..] && AllSpace(s[..|s| - |l|])
    requires |r| <= |l| && r == l[..|r|] && AllSpace(l[|r|..])
    ensures Margins(s, r, |s| - |l|)
  {
    SliceOfSuffix(s, |s| - |l|, |r|);
  }

  lemma SliceOfSuffix<T>(s: seq<T>, lo: nat, n: nat)
    requires lo + n <= |s|
    ensures s[lo..][..n] == s[lo..lo + n] && s[lo..][n..] == s[lo + n..]
  {
  }

  /** Stripping only removes characters: a character absent before is absent after. */
  lemma StripKeepsAbsent(s: string, c: char)
    requires c !in s
    ensures c !in Strip(s)
  {
    var l := LStrip(s);
    forall i | 0 <= i < |l| ensures l[i] != c {
      assert l[i] == s[|s| - |l| + i];
    }
    var r := RStrip(l);
    forall i | 0 <= i < |r| ensures r[i] != c {
      assert r[i] == l[i];
    }
  }

  /** A string of whitespace only strips to the empty string. */
  lemma {:induction false} StripBlank(s: string)
    requires forall k :: 0 <= k < |s| ==> IsSpace(s[k])
    ensures Strip(s) == []
  {
    if s != [] {
      StripBlank(s[1..]);
      assert LStrip(s) == LStrip(s[1..]);
    }
  }

  /** A string with no whitespace at either end is its own strip. */
  lemma StripUnpadded(s: string)
    requires s != [] ==> !IsSpace(s[0]) && !IsSpace(s[|s| - 1])
    ensures Strip(s) == s
  {
  }

  /** Whitespace characters only at the front: stripping drops exactly them. */
  lemma StripLeadingSpaces(w: string, s: string)
    requires forall k :: 0 <= k < |w| ==> IsSpace(w[k])
    requires s != [] ==> !IsSpace(s[0]) && !IsSpace(s[|s| - 1])
    ensures Strip(w + s) == s
  {
    LStripLeading(w, s);
    RStripUnpadded(s);
  }

  lemma RStripUnpadded(s: string)
    requires s != [] ==> !IsSpace(s[|s| - 1])
    ensures RStrip(s) == s
  {
  }

  lemma {:induction false} LStripLeading(w: string, s: string)
    requires forall k :: 0 <= k < |w| ==> IsSpace(w[k])
    requires s != [] ==> !IsSpace(s[0])
    ensures LStrip(w + s) == s
  {
    if w == [] {
      assert w + s == s;
    } else {
      assert (w + s)[0] == w[0];
      assert (w + s)[1..] == w[1..] + s;
      LStripLeading(w[1..], s);
    }
  }

  /** `sep.join(parts)`. */
  function Join(parts: seq<string>, sep: string): string {
    if parts == [] then []
    else if |parts| == 1 then parts[0]
    else parts[0] + sep + Join(parts[1..], sep)
  }

  /** `s.split(c)` for a one-character separator: the pieces between the separators, at least one. */
  function Split(s: string, c: char): (r: seq<string>)
    ensures |r| >= 1
    ensures forall k :: 0 <= k < |r| ==> c !in r[k]
    ensures Join(r, [c]) == s
  {
    if s == [] then [[]]
    else
      var rest := Split(s[1..], c);
      if s[0] == c then
        assert Join([[]] + rest, [c]) == [c] + Join(rest, [c]);
        [[]] + rest
      else
        var r := [[s[0]] + rest[0]] + rest[1..];
        assert Join(r, [c]) == [s[0]] + Join(rest, [c]) by {
          if |rest| > 1 {
            assert rest == [rest[0]] + rest[1..];
          }
        }
        r
  }

  /** A string without the separator splits into itself alone. */
  lemma {:induction false} SplitNoSeparator(p: string, c: char)
    requires c !in p
    ensures Split(p, c) == [p]
  {
    if p != [] {
      SplitNoSeparator(p[1..], c);
    }
  }

  /** A piece without the separator, then the separator: the piece comes off the front of the split. */
  lemma {:induction false} SplitCons(p: string, c: char, t: string)
    requires c !in p
    ensures Split(p + [c] + t, c) == [p] + Split(t, c)
  {
    if p == [] {
      assert p + [c] + t == [c] + t;
      assert ([c] + t)[1..] == t;
    } else {
      assert (p + [c] + t)[1..] == p[1..] + [c] + t;
      SplitCons(p[1..], c, t);
      assert [p[0]] + p[1..] == p;
    }
  }

  /** Splitting a join undoes it when no part contains the separator. */
  lemma {:induction false} SplitJoin(parts: seq<string>, c: char)
    requires parts != []
    requires forall k :: 0 <= k < |parts| ==> c !in parts[k]
    ensures Split(Join(parts, [c]), c) == parts
  {
    if |parts| == 1 {
      SplitNoSeparator(parts[0], c);
    } else {
      SplitJoin(parts[1..], c);
      SplitCons(parts[0], c, Join(parts[1..], [c]));
    }
  }

  /** The index of the first `c` in `s`. */
  function FirstIndex(s: string, c: char): (i: nat)
    requires c in s
    ensures i < |s| && s[i] == c && c !in s[..i]
  {
    if s[0] == c then 0 else 1 + FirstIndex(s[1..], c)
  }

  /** `s.split(c, 1)` when `c in s`: the text before and after the first `c`. */
  function SplitFirst(s: string, c: char): (r: (string, string))
    requires c in s
    ensures s == r.0 + [c] + r.1 && c !in r.0
  {
    var i := FirstIndex(s, c);
    assert s == s[..i] + [c] + s[i + 1..];
    (s[..i], s[i + 1..])
  }

  /** The first separator is the one after a separator-free prefix. */
  lemma SplitFirstOf(a: string, c: char, b: string)
    requires c !in a
    ensures c in a + [c] + b
    ensures SplitFirst(a + [c] + b, c) == (a, b)
  {
    var s := a + [c] + b;
    assert s[|a|] == c;
    assert s[..|a|] == a && s[|a| + 1..] == b;
  }

  function DigitChar(d: nat): (c: char)
    requires d < 10
    ensures IsDigit(c)
  {
    ('0' as int + d) as char
  }

  function DigitValue(c: char): nat
    requires IsDigit(c)
  {
    (c as int) - ('0' as int)
  }

  /** The decimal digits of `n`, no leading zero. */
  function NatToString(n: nat): (s: string)
    ensures s != [] && AllDigits(s)
  {
    if n < 10 then [DigitChar(n)] else NatToString(n / 10) + [DigitChar(n % 10)]
  }

  /** `str(i)` for a Python `int`. */
  function IntToString(i: int): (s: string)
    ensures s != []
  {
    if i < 0 then "-" + NatToString(-i) else NatToString(i)
  }

  /** The value of a string of decimal digits, the inverse of `NatToString`. */
  function ParseNat(s: string): nat
    requires AllDigits(s)
  {
    if s == [] then 0 else 10 * ParseNat(s[..|s| - 1]) + DigitValue(s[|s| - 1])
  }

  lemma {:induction false} ParseNatToString(n: nat)
    ensures ParseNat(NatToString(n)) == n
  {
    if n >= 10 {
      var s := NatToString(n);
      assert s[..|s| - 1] == NatToString(n / 10);
      ParseNatToString(n / 10);
    }
  }

  /** `str(i)` is injective: different integers print differently. */
  lemma IntToStringInjective(i: int, j: int)
    requires IntToString(i) == IntToString(j)
    ensures i == j
  {
    if i < 0 && j < 0 {
      assert NatToString(-i) == IntToString(i)[1..];
      ParseNatToString(-i);
      ParseNatToString(-j);
    } else if i >= 0 && j >= 0 {
      ParseNatToString(i);
      ParseNatToString(j);
    } else {
      LeadingMinus(i);
      LeadingMinus(j);
      assert false;
    }
  }

  /** `str(i)` starts with a minus sign exactly when `i` is negative. */
  lemma LeadingMinus(i: int)
    ensures IntToString(i)[0] == '-' <==> i < 0
  {
    if i >= 0 {
      assert IsDigit(IntToString(i)[0]);
    }
  }

  /** A scalar read from TOML or JSON, as far as the modelled code inspects it. */
  datatype Value = VStr(s: string) | VInt(i: int) | VBool(b: bool)

  /** Python's `str(v)`. */
  function PyStr(v: Value): string {
    match v
    case VStr(s) => s
    case VInt(i) => IntToString(i)
    case VBool(b) => if b then "True" else "False"
  }

  /**
    Python's `int(v)`: a string must hold an optionally signed decimal number,
    with surrounding whitespace allowed; `None` where Python raises.
   */
  function PyInt(v: Value): Option<int> {
    match v
    case VInt(i) => Some(i)
    case VBool(b) => Some(if b then 1 else 0)
    case VStr(s) => ParseInt(Strip(s))
  }

  /** The number an already stripped string spells, optionally signed; `None` if it spells none. */
  function ParseInt(t: string): Option<int> {
    if t != [] && AllDigits(t) then Some(ParseNat(t))
    else if |t| > 1 && (t[0] == '-' || t[0] == '+') && AllDigits(t[1..]) then
      var n: int := ParseNat(t[1..]);
      Some(if t[0] == '-' then -n else n)
    else None
  }

  /** `int(str(i)) == i`: printing an integer and reading it back gives the integer. */
  lemma PyIntOfPyStr(i: int)
    ensures PyInt(VStr(IntToString(i))) == Some(i)
  {
    if i < 0 {
      ReadNegative(NatToString(-i), -i);
    } else {
      ReadDigits(NatToString(i), i);
    }
  }

  lemma ReadDigits(d: string, n: nat)
    requires d == NatToString(n)
    ensures PyInt(VStr(d)) == Some(n)
  {
    assert IsDigit(d[0]) && IsDigit(d[|d| - 1]);
    StripUnpadded(d);
    ParseNatToString(n);
  }

  lemma ReadNegative(d: string, n: nat)
    requires d == NatToString(n)
    ensures PyInt(VStr("-" + d)) == Some(0 - n)
  {
    var t := "-" + d;
    assert IsDigit(d[|d| - 1]) && t[|t| - 1] == d[|d| - 1];
    StripUnpadded(t);
    ParseNegative(d, n);
  }

  lemma ParseNegative(d: string, n: nat)
    requires d == NatToString(n)
    ensures ParseInt("-" + d) == Some(0 - n)
  {
    var t := "-" + d;
    assert t[1..] == d;
    assert !AllDigits(t) by { assert !IsDigit(t[0]); }
    ParseNatToString(n);
  }
}
