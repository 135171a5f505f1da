/**
 * The order Java's `String.compareTo` puts strings in, the sorting done by
 * `Collections.sort` with a comparator on a string key, and an enumeration of
 * a map's keys in ascending order, which stands for `HashMap` iteration order.
 */
module Ordering {
  import opened SeqFacts

  /**
   * The place of `c` in the order of its UTF-16 encoding: characters below the
   * surrogate range first, then the supplementary characters (whose leading code
   * unit is a high surrogate), then the rest of the basic multilingual plane.
   */
  function Utf16Rank(c: char): int
  {
    var n := c as int;
    if n < 0xD800 then n
    else if n >= 0x1_0000 then n - 0x1_0000 + 0xD800
    else n + 0x10_0000
  }

  /** `a.compareTo(b) <= 0`: lexicographic by UTF-16 code unit, a proper prefix first. */
  predicate LexLe(a: string, b: string)
  {
    if a == [] then true
    else if b == [] then false
    else if a[0] != b[0] then Utf16Rank(a[0]) < Utf16Rank(b[0])
    else LexLe(a[1..], b[1..])
  }

  /** The UTF-16 code units of `c`: one below U+10000, otherwise a high and a low surrogate. */
  function CodeUnits(c: char): (r: seq<int>)
    ensures 1 <= |r| <= 2
  {
    var n := c as int;
    if n < 0x1_0000 then [n]
    else [0xD800 + (n - 0x1_0000) / 0x400, 0xDC00 + (n - 0x1_0000) % 0x400]
  }

  /** The UTF-16 encoding of a string, as a Java `String` holds it. */
  function Utf16(s: string): seq<int>
  {
    if s == [] then [] else CodeUnits(s[0]) + Utf16(s[1..])
  }

  /** `String.compareTo` on the code units: the first differing unit decides, a proper prefix first. */
  predicate UnitsLe(a: seq<int>, b: seq<int>)
  {
    if a == [] then true
    else if b == [] then false
    else if a[0] != b[0] then a[0] < b[0]
    else UnitsLe(a[1..], b[1..])
  }

  lemma {:induction false} UnitsLeCommonPrefix(u: seq<int>, x: seq<int>, y: seq<int>)
    ensures UnitsLe(u + x, u + y) == UnitsLe(x, y)
  {
    if u != [] {
      assert (u + x)[0] == u[0] == (u + y)[0];
      assert (u + x)[1..] == u[1..] + x && (u + y)[1..] == u[1..] + y;
      UnitsLeCommonPrefix(u[1..], x, y);
    } else {
      assert u + x == x && u + y == y;
    }
  }

  /** Two different characters are ordered by their code units as by their rank, whatever follows. */
  lemma CodeUnitsDecide(c: char, d: char, x: seq<int>, y: seq<int>)
    requires c != d
    ensures UnitsLe(CodeUnits(c) + x, CodeUnits(d) + y) == (Utf16Rank(c) < Utf16Rank(d))
  {
    var u, v := CodeUnits(c) + x, CodeUnits(d) + y;
    assert u[0] == CodeUnits(c)[0] && v[0] == CodeUnits(d)[0];
    if c as int >= 0x1_0000 && d as int >= 0x1_0000 && u[0] == v[0] {
      assert u[1..][0] == CodeUnits(c)[1] && v[1..][0] == CodeUnits(d)[1];
    }
  }

  /** `LexLe` is exactly the order of the UTF-16 encodings. */
  lemma {:induction false} LexLeIsUtf16Order(a: string, b: string)
    ensures LexLe(a, b) == UnitsLe(Utf16(a), Utf16(b))
  {
    if a != [] && b != [] {
      if a[0] == b[0] {
        LexLeIsUtf16Order(a[1..], b[1..]);
        UnitsLeCommonPrefix(CodeUnits(a[0]), Utf16(a[1..]), Utf16(b[1..]));
      } else {
        CodeUnitsDecide(a[0], b[0], Utf16(a[1..]), Utf16(b[1..]));
      }
    }
  }

  lemma {:induction false} LexLeReflexive(a: string)
    ensures LexLe(a, a)
  {
    if a != [] {
      LexLeReflexive(a[1..]);
    }
  }

  lemma {:induction false} LexLeAntisymmetric(a: string, b: string)
    requires LexLe(a, b) && LexLe(b, a)
    ensures a == b
  {
    if a != [] && b != [] {
      LexLeAntisymmetric(a[1..], b[1..]);
      assert a == [a[0]] + a[1..] && b == [b[0]] + b[1..];
    }
  }

  lemma LexLeAntisymmetricAll()
    ensures forall a, b :: LexLe(a, b) && LexLe(b, a) ==> a == b
  {
    forall a, b | LexLe(a, b) && LexLe(b, a)
      ensures a == b
    {
      LexLeAntisymmetric(a, b);
    }
  }

  lemma {:induction false} LexLeTransitive(a: string, b: string, c: string)
    requires LexLe(a, b) && LexLe(b, c)
    ensures LexLe(a, c)
  {
    if a != [] && b != [] && c != [] && a[0] == b[0] && b[0] == c[0] {
      LexLeTransitive(a[1..], b[1..], c[1..]);
    }
  }

  lemma {:induction false} LexLeTotal(a: string, b: string)
    ensures LexLe(a, b) || LexLe(b, a)
  {
    if a != [] && b != [] && a[0] == b[0] {
      LexLeTotal(a[1..], b[1..]);
    }
  }

  /** Ascending with no repeats. */
  predicate StrictlySorted(s: seq<string>)
  {
    forall i, j :: 0 <= i < j < |s| ==> LexLe(s[i], s[j]) && s[i] != s[j]
  }

  lemma {:induction false} MinimumExists(s: set<string>)
    requires s != {}
    ensures exists m :: m in s && forall x :: x in s ==> LexLe(m, x)
  {
    var x :| x in s;
    if s == {x} {
      LexLeReflexive(x);
      assert forall y :: y in s ==> y == x;
    } else {
      MinimumExists(s - {x});
      var m :| m in s - {x} && forall y :: y in s - {x} ==> LexLe(m, y);
      var b := MinimumAdd(s - {x}, m, x);
      assert s == (s - {x}) + {x};
    }
  }

  /** Adding `x` to a set whose least element is `m` gives the smaller of the two as least element. */
  lemma {:induction false} MinimumAdd(s: set<string>, m: string, x: string) returns (b: string)
    requires m in s && forall y :: y in s ==> LexLe(m, y)
    ensures b in s + {x} && forall y :: y in s + {x} ==> LexLe(b, y)
  {
    LexLeTotal(m, x);
    if LexLe(m, x) {
      b := m;
    } else {
      b := x;
      forall y | y in s + {x}
        ensures LexLe(x, y)
      {
        if y == x {
          LexLeReflexive(x);
        } else {
          LexLeTransitive(x, m, y);
        }
      }
    }
  }

  /** The least element of a non-empty set of strings. */
  function Minimum(s: set<string>): (m: string)
    requires s != {}
    ensures m in s
    ensures forall x :: x in s ==> LexLe(m, x)
  {
    MinimumExists(s);
    LexLeAntisymmetricAll();
    var m :| m in s && forall x :: x in s ==> LexLe(m, x);
    m
  }

  /** The elements of `s` in ascending order (see SortedKeysAscending), each once. */
  function SortedKeys(s: set<string>): (r: seq<string>)
    ensures |r| == |s|
    ensures forall k :: k in r <==> k in s
    ensures forall i, j :: 0 <= i < j < |r| ==> r[i] != r[j]
    decreases |s|
  {
    if s == {} then []
    else
      var m := Minimum(s);
      var rest := SortedKeys(s - {m});
      assert forall j :: 0 <= j < |rest| ==> rest[j] in rest;
      [m] + rest
  }

  lemma {:induction false} SortedKeysAscending(s: set<string>)
    ensures StrictlySorted(SortedKeys(s))
    decreases |s|
  {
    if s != {} {
      var m := Minimum(s);
      var rest := SortedKeys(s - {m});
      SortedKeysAscending(s - {m});
      var all := SortedKeys(s);
      assert all == [m] + rest;
      forall i, j | 0 <= i < j < |all|
        ensures LexLe(all[i], all[j]) && all[i] != all[j]
      {
        assert all[j] == rest[j - 1] && rest[j - 1] in rest;
        if i > 0 {
          assert all[i] == rest[i - 1];
        }
      }
    }
  }

  /** Ordered by `key`, as `Collections.sort` leaves a list with a comparator on `key`. */
  predicate SortedBy<T>(s: seq<T>, key: T -> string)
  {
    forall i, j :: 0 <= i < j < |s| ==> LexLe(key(s[i]), key(s[j]))
  }

  /** Places `x` before the first element whose key is not smaller, keeping ties in input order. */
  function Insert<T(==)>(x: T, s: seq<T>, key: T -> string): (r: seq<T>)
    requires SortedBy(s, key)
    ensures |r| == |s| + 1
    ensures multiset(r) == multiset(s) + multiset{x}
    ensures SortedBy(r, key)
  {
    if s == [] then [x]
    else if LexLe(key(x), key(s[0])) then
      forall j | 0 <= j < |s| ensures LexLe(key(x), key(s[j])) {
        if j > 0 { LexLeTransitive(key(x), key(s[0]), key(s[j])); }
      }
      [x] + s
    else
      var rest := Insert(x, s[1..], key);
      LexLeTotal(key(x), key(s[0]));
      assert s == [s[0]] + s[1..];
      forall j | 0 <= j < |rest|
        ensures LexLe(key(s[0]), key(rest[j]))
      {
        assert rest[j] in multiset(rest);
        if rest[j] != x {
          assert rest[j] in multiset(s[1..]);
          var i :| 0 <= i < |s[1..]| && s[1..][i] == rest[j];
          assert s[i + 1] == rest[j];
        }
      }
      [s[0]] + rest
  }

  /** A stable sort by a string key (see SortByStable). */
  function SortBy<T(==)>(s: seq<T>, key: T -> string): (r: seq<T>)
    ensures |r| == |s|
    ensures multiset(r) == multiset(s)
    ensures SortedBy(r, key)
  {
    if s == [] then []
    else
      assert s == [s[0]] + s[1..];
      Insert(s[0], SortBy(s[1..], key), key)
  }

  /** The elements of `s` whose key is `k`, in their order in `s`. */
  function WithKey<T>(s: seq<T>, key: T -> string, k: string): seq<T>
  {
    if s == [] then [] else (if key(s[0]) == k then [s[0]] else []) + WithKey(s[1..], key, k)
  }

  /** Inserting `x` puts it before every element with the same key. */
  lemma {:induction false} InsertWithKey<T>(x: T, s: seq<T>, key: T -> string, k: string)
    requires SortedBy(s, key)
    ensures WithKey(Insert(x, s, key), key, k) == (if key(x) == k then [x] else []) + WithKey(s, key, k)
  {
    InsertUnfold(x, s, key);
    var own := if key(x) == k then [x] else [];
    if s != [] && !LexLe(key(x), key(s[0])) {
      var rest := Insert(x, s[1..], key);
      var head := if key(s[0]) == k then [s[0]] else [];
      var tail := WithKey(s[1..], key, k);
      assert SortedBy(s[1..], key);
      InsertWithKey(x, s[1..], key, k);
      assert WithKey(rest, key, k) == own + tail;
      LexLeReflexive(key(x));
      assert head == [] || own == [];
      WithKeyCons(s[0], rest, key, k);
      assert WithKey(Insert(x, s, key), key, k) == head + (own + tail);
      WithKeyCons(s[0], s[1..], key, k);
      assert [s[0]] + s[1..] == s;
      assert WithKey(s, key, k) == head + tail;
      if head == [] {
        assert head + (own + tail) == own + tail && head + tail == tail;
      } else {
        assert own + tail == tail && own + (head + tail) == head + tail;
      }
    } else if s != [] {
      WithKeyCons(x, s, key, k);
    }
  }

  lemma InsertUnfold<T>(x: T, s: seq<T>, key: T -> string)
    requires SortedBy(s, key)
    ensures s == [] ==> Insert(x, s, key) == [x]
    ensures s != [] && LexLe(key(x), key(s[0])) ==> Insert(x, s, key) == [x] + s
    ensures s != [] && !LexLe(key(x), key(s[0])) ==> Insert(x, s, key) == [s[0]] + Insert(x, s[1..], key)
  {
  }

  lemma WithKeyCons<T>(x: T, s: seq<T>, key: T -> string, k: string)
    ensures WithKey([x] + s, key, k) == (if key(x) == k then [x] else []) + WithKey(s, key, k)
  {
    assert ([x] + s)[0] == x && ([x] + s)[1..] == s;
  }

  /** `SortBy` is stable: the elements with any one key keep their input order. */
  lemma {:induction false} SortByStable<T>(s: seq<T>, key: T -> string, k: string)
    ensures WithKey(SortBy(s, key), key, k) == WithKey(s, key, k)
  {
    if s != [] {
      SortByStable(s[1..], key, k);
      InsertWithKey(s[0], SortBy(s[1..], key), key, k);
    }
  }
}
