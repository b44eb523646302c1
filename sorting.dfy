/**
  Python's `list.sort(key=...)` and `sorted(...)`: a stable sort by a key. The
  comparison `le` stands for "key of the first <= key of the second"; the sort is
  a stable insertion sort, and the lemmas show it sorts, permutes and keeps the
  relative order of elements with equal keys, which is all Python promises.
 */
module Sorting {

  ghost predicate TotalPreorder<T(!new)>(le: (T, T) -> bool) {
    && (forall x, y :: le(x, y) || le(y, x))
    && (forall x, y, z :: le(x, y) && le(y, z) ==> le(x, z))
  }

  ghost predicate Sorted<T>(s: seq<T>, le: (T, T) -> bool) {
    forall i, j :: 0 <= i < j < |s| ==> le(s[i], s[j])
  }

  /** Equal keys. */
  predicate Equivalent<T>(le: (T, T) -> bool, a: T, b: T) {
    le(a, b) && le(b, a)
  }

  /** The elements of `s` whose key equals the key of `x`, in their order in `s`. */
  function KeyClass<T>(s: seq<T>, x: T, le: (T, T) -> bool): seq<T> {
    if s == [] then []
    else KeyClass(s[..|s| - 1], x, le) + (if Equivalent(le, s[|s| - 1], x) then [s[|s| - 1]] else [])
  }

  /** Put `x` after every element of `t` whose key is not greater than its own. */
  function Insert<T>(t: seq<T>, x: T, le: (T, T) -> bool): (r: seq<T>)
    ensures multiset(r) == multiset(t) + multiset{x}
    ensures |r| == |t| + 1
  {
    if t == [] then [x]
    else if le(t[|t| - 1], x) then t + [x]
    else
      assert t == t[..|t| - 1] + [t[|t| - 1]];
      Insert(t[..|t| - 1], x, le) + [t[|t| - 1]]
  }

  /** The sorted permutation of `s`; `sorted(s, key=...)`. */
  function SortBy<T>(s: seq<T>, le: (T, T) -> bool): (r: seq<T>)
    ensures multiset(r) == multiset(s)
    ensures |r| == |s|
  {
    if s == [] then []
    else
      assert s == s[..|s| - 1] + [s[|s| - 1]];
      Insert(SortBy(s[..|s| - 1], le), s[|s| - 1], le)
  }

  lemma {:induction false} InsertSorted<T(!new)>(t: seq<T>, x: T, le: (T, T) -> bool)
    requires TotalPreorder(le) && Sorted(t, le)
    ensures Sorted(Insert(t, x, le), le)
  {
    if t != [] && !le(t[|t| - 1], x) {
      var init := t[..|t| - 1];
      InsertSorted(init, x, le);
      var u := Insert(init, x, le);
      var r := u + [t[|t| - 1]];
      assert multiset(u) == multiset(init) + multiset{x};
      forall i | 0 <= i < |u|
        ensures le(u[i], t[|t| - 1])
      {
        assert u[i] in multiset(u);
        if u[i] == x {
        } else {
          assert u[i] in multiset(init);
          var k :| 0 <= k < |init| && init[k] == u[i];
        }
      }
    }
  }

  lemma {:induction false} SortBySorted<T(!new)>(s: seq<T>, le: (T, T) -> bool)
    requires TotalPreorder(le)
    ensures Sorted(SortBy(s, le), le)
  {
    if s != [] {
      SortBySorted(s[..|s| - 1], le);
      InsertSorted(SortBy(s[..|s| - 1], le), s[|s| - 1], le);
    }
  }

  lemma {:induction false} KeyClassAppend<T>(s: seq<T>, t: seq<T>, x: T, le: (T, T) -> bool)
    ensures KeyClass(s + t, x, le) == KeyClass(s, x, le) + KeyClass(t, x, le)
    decreases |t|
  {
    if t == [] {
      assert s + t == s;
    } else {
      assert (s + t)[..|s + t| - 1] == s + t[..|t| - 1];
      KeyClassAppend(s, t[..|t| - 1], x, le);
    }
  }

  lemma {:induction false} InsertStable<T(!new)>(t: seq<T>, y: T, x: T, le: (T, T) -> bool)
    requires TotalPreorder(le)
    ensures KeyClass(Insert(t, y, le), x, le)
         == KeyClass(t, x, le) + (if Equivalent(le, y, x) then [y] else [])
  {
    if t == [] {
    } else if le(t[|t| - 1], y) {
      InsertStableLast(t, y, x, le);
    } else {
      InsertStable(t[..|t| - 1], y, x, le);
      NotBothEquivalent(y, t[|t| - 1], x, le);
      InsertStableStep(t, y, x, le);
    }
  }

  /** `y` goes last: its key class gains it at the end. */
  lemma InsertStableLast<T>(t: seq<T>, y: T, x: T, le: (T, T) -> bool)
    requires t != [] && le(t[|t| - 1], y)
    ensures KeyClass(Insert(t, y, le), x, le)
         == KeyClass(t, x, le) + (if Equivalent(le, y, x) then [y] else [])
  {
    KeyClassAppend(t, [y], x, le);
    assert KeyClass([y], x, le) == (if Equivalent(le, y, x) then [y] else []) by {
      assert [y][..0] == [];
    }
  }

  /** `y` goes before `last`, which is not in `y`'s key class when `y` is in `x`'s. */
  lemma InsertStableStep<T>(t: seq<T>, y: T, x: T, le: (T, T) -> bool)
    requires t != [] && !le(t[|t| - 1], y)
    requires !(Equivalent(le, y, x) && Equivalent(le, t[|t| - 1], x))
    requires KeyClass(Insert(t[..|t| - 1], y, le), x, le)
          == KeyClass(t[..|t| - 1], x, le) + (if Equivalent(le, y, x) then [y] else [])
    ensures KeyClass(Insert(t, y, le), x, le)
         == KeyClass(t, x, le) + (if Equivalent(le, y, x) then [y] else [])
  {
    var init, last := t[..|t| - 1], t[|t| - 1];
    var u := Insert(init, y, le);
    assert Insert(t, y, le) == u + [last];
    KeyClassAppend(u, [last], x, le);
    KeyClassSingleton(last, x, le);
    KeyClassSingleton(y, x, le);
    InsertAmong(KeyClass(init, x, le), KeyClass(u, x, le), KeyClass([y], x, le), KeyClass([last], x, le));
  }

  /** The key class of a one-element sequence. */
  lemma KeyClassSingleton<T>(y: T, x: T, le: (T, T) -> bool)
    ensures KeyClass([y], x, le) == if Equivalent(le, y, x) then [y] else []
  {
    assert [y][..0] == [];
  }

  /** Appending `ll` after `ly` or before it is the same when one of them is empty. */
  lemma InsertAmong<T>(a: seq<T>, b: seq<T>, ly: seq<T>, ll: seq<T>)
    requires b == a + ly
    requires ly == [] || ll == []
    ensures b + ll == a + ll + ly
  {
    if ly == [] {
      assert b == a;
    } else {
      assert ll == [];
    }
  }

  /** An element placed after `y` with a greater key cannot share a key class with `y`. */
  lemma NotBothEquivalent<T(!new)>(y: T, last: T, x: T, le: (T, T) -> bool)
    requires TotalPreorder(le) && !le(last, y)
    ensures !(Equivalent(le, y, x) && Equivalent(le, last, x))
  {
    if Equivalent(le, y, x) {
      assert le(x, y);
      assert !le(last, x);
    }
  }

  /** Elements with equal keys keep their relative order. */
  lemma {:induction false} SortByStable<T(!new)>(s: seq<T>, x: T, le: (T, T) -> bool)
    requires TotalPreorder(le)
    ensures KeyClass(SortBy(s, le), x, le) == KeyClass(s, x, le)
  {
    if s != [] {
      SortByStable(s[..|s| - 1], x, le);
      InsertStable(SortBy(s[..|s| - 1], le), s[|s| - 1], x, le);
    }
  }
}
