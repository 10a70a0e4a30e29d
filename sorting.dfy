/** The two sorts the controllers use: Laravel's `sortBy('display_order')`,
    a stable sort by an integer key, and PHP's `sort()` on a list of
    strings, modelled with the lexicographic order on characters. */
module Sorting {

  // ------------------------------------------------ stable sort by a key

  ghost predicate SortedBy<T>(s: seq<T>, key: T -> int)
  {
    forall i, j :: 0 <= i < j < |s| ==> key(s[i]) <= key(s[j])
  }

  /** The elements of `s` whose key is `k`, in their order in `s`. */
  function WithKey<T>(s: seq<T>, key: T -> int, k: int): seq<T>
  {
    if s == [] then []
    else (if key(s[0]) == k then [s[0]] else []) + WithKey(s[1..], key, k)
  }

  /** An element whose key is no larger than the head's can go in front of
      a sorted list. */
  lemma SortedByCons<T>(h: T, t: seq<T>, key: T -> int)
    requires SortedBy(t, key) && (t != [] ==> key(h) <= key(t[0]))
    ensures SortedBy([h] + t, key)
  {
    var r := [h] + t;
    forall i, j | 0 <= i < j < |r| ensures key(r[i]) <= key(r[j]) {
      if i == 0 && j > 1 {
        assert key(t[0]) <= key(t[j - 1]);
      }
    }
  }

  lemma SortedByTail<T>(t: seq<T>, key: T -> int)
    requires SortedBy(t, key) && t != []
    ensures SortedBy(t[1..], key)
  {
    forall i, j | 0 <= i < j < |t| - 1 ensures key(t[1..][i]) <= key(t[1..][j]) {
      assert t[1..][i] == t[i + 1] && t[1..][j] == t[j + 1];
    }
  }

  /** Puts `x` into the sorted `t` after every element whose key is not
      larger than its own. */
  function InsertBy<T>(t: seq<T>, x: T, key: T -> int): (r: seq<T>)
    requires SortedBy(t, key)
    ensures SortedBy(r, key)
    ensures multiset(r) == multiset(t) + multiset{x}
    ensures |r| == |t| + 1
    ensures r[0] == x || (t != [] && r[0] == t[0])
  {
    if t == [] then [x]
    else if key(x) < key(t[0]) then
      SortedByCons(x, t, key);
      [x] + t
    else
      SortedByTail(t, key);
      var rest := InsertBy(t[1..], x, key);
      assert t == [t[0]] + t[1..];
      assert key(t[0]) <= key(rest[0]);
      SortedByCons(t[0], rest, key);
      [t[0]] + rest
  }

  /** `sortBy`: sorted by `key`, a permutation of `s`. */
  function SortBy<T>(s: seq<T>, key: T -> int): (r: seq<T>)
    ensures SortedBy(r, key)
    ensures multiset(r) == multiset(s)
    ensures |r| == |s|
  {
    if s == [] then []
    else
      assert s == s[..|s| - 1] + [s[|s| - 1]];
      InsertBy(SortBy(s[..|s| - 1], key), s[|s| - 1], key)
  }

  lemma {:induction false} WithKeyAppend<T>(a: seq<T>, b: seq<T>, key: T -> int, k: int)
    ensures WithKey(a + b, key, k) == WithKey(a, key, k) + WithKey(b, key, k)
  {
    if a == [] {
      assert a + b == b;
    } else {
      var head := if key(a[0]) == k then [a[0]] else [];
      assert (a + b)[0] == a[0];
      assert (a + b)[1..] == a[1..] + b;
      assert WithKey(a + b, key, k) == head + WithKey(a[1..] + b, key, k);
      assert WithKey(a, key, k) == head + WithKey(a[1..], key, k);
      WithKeyAppend(a[1..], b, key, k);
    }
  }

  lemma {:induction false} WithKeyAbove<T>(t: seq<T>, key: T -> int, k: int)
    requires forall j :: 0 <= j < |t| ==> k < key(t[j])
    ensures WithKey(t, key, k) == []
  {
    if t != [] {
      WithKeyAbove(t[1..], key, k);
    }
  }

  /** Putting `x` in front of a list whose keys all exceed its own. */
  lemma WithKeyFront<T>(t: seq<T>, x: T, key: T -> int, k: int)
    requires SortedBy(t, key) && (t == [] || key(x) < key(t[0]))
    ensures WithKey([x] + t, key, k) == WithKey(t, key, k) + (if key(x) == k then [x] else [])
  {
    var r := [x] + t;
    assert r[0] == x && r[1..] == t;
    assert WithKey(r, key, k) == (if key(x) == k then [x] else []) + WithKey(t, key, k);
    if key(x) == k {
      assert forall j :: 0 <= j < |t| ==> k < key(t[j]) by {
        forall j | 0 <= j < |t| ensures k < key(t[j]) {
          if j > 0 { assert key(t[0]) <= key(t[j]); }
        }
      }
      WithKeyAbove(t, key, k);
    }
  }

  lemma {:induction false} WithKeyInsert<T>(t: seq<T>, x: T, key: T -> int, k: int)
    requires SortedBy(t, key)
    ensures WithKey(InsertBy(t, x, key), key, k)
         == WithKey(t, key, k) + (if key(x) == k then [x] else [])
  {
    if t == [] || key(x) < key(t[0]) {
      assert InsertBy(t, x, key) == [x] + t;
      WithKeyFront(t, x, key, k);
    } else {
      var rest := InsertBy(t[1..], x, key);
      WithKeyInsert(t[1..], x, key, k);
      var r := [t[0]] + rest;
      assert InsertBy(t, x, key) == r;
      assert r[0] == t[0] && r[1..] == rest;
      var head := if key(t[0]) == k then [t[0]] else [];
      assert WithKey(r, key, k) == head + WithKey(rest, key, k);
      assert WithKey(t, key, k) == head + WithKey(t[1..], key, k);
    }
  }

  /** Stability: among the elements that share a key, `SortBy` keeps the
      order they had in the input. */
  lemma {:induction false} SortByStable<T>(s: seq<T>, key: T -> int, k: int)
    ensures WithKey(SortBy(s, key), key, k) == WithKey(s, key, k)
  {
    if s != [] {
      var init := s[..|s| - 1];
      var last := s[|s| - 1];
      assert s == init + [last];
      var sortedInit := SortBy(init, key);
      assert SortBy(s, key) == InsertBy(sortedInit, last, key);
      SortByStable(init, key, k);
      WithKeyInsert(sortedInit, last, key, k);
      WithKeyAppend(init, [last], key, k);
      assert WithKey([last], key, k) == (if key(last) == k then [last] else []) + WithKey([last][1..], key, k);
    }
  }

  // ------------------------------------------- sort() on a list of strings

  /** Lexicographic order on strings. */
  predicate LexLe(a: string, b: string)
  {
    a == [] || (b != [] && (a[0] < b[0] || (a[0] == b[0] && LexLe(a[1..], b[1..]))))
  }

  lemma {:induction false} LexLeTotal(a: string, b: string)
    ensures LexLe(a, b) || LexLe(b, a)
  {
    if a != [] && b != [] && a[0] == b[0] {
      LexLeTotal(a[1..], b[1..]);
    }
  }

  lemma {:induction false} LexLeAntisymmetric(a: string, b: string)
    requires LexLe(a, b) && LexLe(b, a)
    ensures a == b
  {
    if a != [] && b != [] {
      LexLeAntisymmetric(a[1..], b[1..]);
      assert a == [a[0]] + a[1..] && b == [b[0]] + b[1..];
    }
  }

  lemma {:induction false} LexLeTransitive(a: string, b: string, c: string)
    requires LexLe(a, b) && LexLe(b, c)
    ensures LexLe(a, c)
  {
    if a != [] && b != [] && c != [] && a[0] == b[0] == c[0] {
      LexLeTransitive(a[1..], b[1..], c[1..]);
    }
  }

  ghost predicate SortedLex(s: seq<string>)
  {
    forall i, j :: 0 <= i < j < |s| ==> LexLe(s[i], s[j])
  }

  /** A string no larger than the head of a sorted list can go in front. */
  lemma SortedLexCons(h: string, t: seq<string>)
    requires SortedLex(t) && (t != [] ==> LexLe(h, t[0]))
    ensures SortedLex([h] + t)
  {
    var r := [h] + t;
    forall i, j | 0 <= i < j < |r| ensures LexLe(r[i], r[j]) {
      if i == 0 && j > 1 {
        LexLeTransitive(h, t[0], t[j - 1]);
      }
    }
  }

  function InsertLex(t: seq<string>, x: string): (r: seq<string>)
    requires SortedLex(t)
    ensures SortedLex(r)
    ensures multiset(r) == multiset(t) + multiset{x}
    ensures |r| == |t| + 1
    ensures r[0] == x || (t != [] && r[0] == t[0])
  {
    if t == [] then [x]
    else if LexLe(x, t[0]) then
      SortedLexCons(x, t);
      [x] + t
    else
      LexLeTotal(x, t[0]);
      SortedLexTail(t);
      var rest := InsertLex(t[1..], x);
      assert t == [t[0]] + t[1..];
      assert LexLe(t[0], rest[0]);
      SortedLexCons(t[0], rest);
      [t[0]] + rest
  }

  /** PHP `sort()` on strings: sorted, a permutation of the input. */
  function SortStrings(s: seq<string>): (r: seq<string>)
    ensures SortedLex(r)
    ensures multiset(r) == multiset(s)
  {
    if s == [] then []
    else
      assert s == s[..|s| - 1] + [s[|s| - 1]];
      InsertLex(SortStrings(s[..|s| - 1]), s[|s| - 1])
  }

  lemma {:induction false} SortedLexHeadIsLeast(s: seq<string>, x: string)
    requires SortedLex(s) && x in multiset(s)
    ensures s != [] && LexLe(s[0], x)
  {
    var m :| 0 <= m < |s| && s[m] == x;
    if m > 0 {
    } else {
      LexLeTotal(x, x);
    }
  }

  lemma SortedLexTail(s: seq<string>)
    requires SortedLex(s) && s != []
    ensures SortedLex(s[1..])
  {
    forall i, j | 0 <= i < j < |s| - 1 ensures LexLe(s[1..][i], s[1..][j]) {
      assert s[1..][i] == s[i + 1] && s[1..][j] == s[j + 1];
    }
  }

  /** Two sorted lists holding the same strings are the same list. */
  lemma {:induction false} SortedLexUnique(a: seq<string>, b: seq<string>)
    requires SortedLex(a) && SortedLex(b) && multiset(a) == multiset(b)
    ensures a == b
    decreases |a|
  {
    if a == [] {
      assert |multiset(b)| == 0;
    } else {
      assert b != [] by { assert a[0] in multiset(b); }
      assert a[0] == b[0] by {
        assert b[0] in multiset(a) && a[0] in multiset(b);
        SortedLexHeadIsLeast(a, b[0]);
        SortedLexHeadIsLeast(b, a[0]);
        LexLeAntisymmetric(a[0], b[0]);
      }
      assert multiset(a[1..]) == multiset(b[1..]) by {
        assert a == [a[0]] + a[1..] && b == [b[0]] + b[1..];
        assert multiset(a[1..]) == multiset(a) - multiset{a[0]};
        assert multiset(b[1..]) == multiset(b) - multiset{b[0]};
      }
      SortedLexTail(a);
      SortedLexTail(b);
      SortedLexUnique(a[1..], b[1..]);
      assert a == [a[0]] + a[1..] && b == [b[0]] + b[1..];
    }
  }

  /** Sorting both lists and comparing them decides whether they hold the
      same strings, whatever their order. */
  lemma SortStringsEqualIff(a: seq<string>, b: seq<string>)
    ensures SortStrings(a) == SortStrings(b) <==> multiset(a) == multiset(b)
  {
    if multiset(a) == multiset(b) {
      SortedLexUnique(SortStrings(a), SortStrings(b));
    }
  }
}
