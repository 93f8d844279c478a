/** Python's list.sort(key=..., reverse=...) and sorted(): a stable sort on a key.
    A key is a number followed by a text, compared lexicographically; that covers the
    float keys, the text keys and the (time, id) tuples the core sorts by. */
module Sorting {

  /** Python's `<=` on str: code point by code point, a prefix first. */
  predicate StrLe(a: string, b: string)
    decreases |a|
  {
    a == [] || (b != [] && (a[0] < b[0] || (a[0] == b[0] && StrLe(a[1..], b[1..]))))
  }

  lemma {:induction false} StrLeReflexive(a: string)
    ensures StrLe(a, a)
    decreases |a|
  {
    if a != [] {
      StrLeReflexive(a[1..]);
    }
  }

  lemma {:induction false} StrLeTotal(a: string, b: string)
    ensures StrLe(a, b) || StrLe(b, a)
    decreases |a|
  {
    if a != [] && b != [] && a[0] == b[0] {
      StrLeTotal(a[1..], b[1..]);
    }
  }

  lemma {:induction false} StrLeTransitive(a: string, b: string, c: string)
    requires StrLe(a, b) && StrLe(b, c)
    ensures StrLe(a, c)
    decreases |a|
  {
    if a != [] && a[0] == b[0] && b[0] == c[0] {
      StrLeTransitive(a[1..], b[1..], c[1..]);
    }
  }

  datatype Key = Key(num: real, text: string)

  predicate KeyLe(a: Key, b: Key) {
    a.num < b.num || (a.num == b.num && StrLe(a.text, b.text))
  }

  /** a may come before b: ascending order, or descending when `desc` (reverse=True). */
  predicate InOrder(a: Key, b: Key, desc: bool) {
    if desc then KeyLe(b, a) else KeyLe(a, b)
  }

  predicate Sorted<T>(s: seq<T>, key: T -> Key, desc: bool) {
    forall i, j :: 0 <= i < j < |s| ==> InOrder(key(s[i]), key(s[j]), desc)
  }

  /** x placed before the first element it may precede; equal keys keep x first. */
  function Insert<T>(x: T, s: seq<T>, key: T -> Key, desc: bool): (r: seq<T>)
    ensures |r| == |s| + 1
    ensures multiset(r) == multiset(s) + multiset{x}
  {
    if s == [] || InOrder(key(x), key(s[0]), desc) then [x] + s
    else
      var r := [s[0]] + Insert(x, s[1..], key, desc);
      assert s == [s[0]] + s[1..];
      r
  }

  /** The stable sort: each element is inserted, from the back, ahead of its equals. */
  function SortBy<T>(s: seq<T>, key: T -> Key, desc: bool): (r: seq<T>)
    ensures |r| == |s|
  {
    if s == [] then [] else Insert(s[0], SortBy(s[1..], key, desc), key, desc)
  }

  /** The elements of s whose key is k, in their order in s. */
  function WithKey<T>(s: seq<T>, key: T -> Key, k: Key): (r: seq<T>)
    ensures |r| <= |s|
  {
    if s == [] then []
    else (if key(s[0]) == k then [s[0]] else []) + WithKey(s[1..], key, k)
  }

  lemma InOrderTotal(a: Key, b: Key, desc: bool)
    ensures InOrder(a, b, desc) || InOrder(b, a, desc)
  {
    StrLeTotal(a.text, b.text);
  }

  lemma InOrderReflexive(a: Key, desc: bool)
    ensures InOrder(a, a, desc)
  {
    StrLeReflexive(a.text);
  }

  lemma InOrderTransitive(a: Key, b: Key, c: Key, desc: bool)
    requires InOrder(a, b, desc) && InOrder(b, c, desc)
    ensures InOrder(a, c, desc)
  {
    if desc {
      if c.num == b.num && b.num == a.num {
        StrLeTransitive(c.text, b.text, a.text);
      }
    } else if a.num == b.num && b.num == c.num {
      StrLeTransitive(a.text, b.text, c.text);
    }
  }

  lemma {:induction false} InsertSorted<T>(x: T, s: seq<T>, key: T -> Key, desc: bool)
    requires Sorted(s, key, desc)
    ensures Sorted(Insert(x, s, key, desc), key, desc)
  {
    if s == [] || InOrder(key(x), key(s[0]), desc) {
      var r := [x] + s;
      forall i, j | 0 <= i < j < |r| ensures InOrder(key(r[i]), key(r[j]), desc) {
        if i == 0 && j > 1 {
          InOrderTransitive(key(x), key(s[0]), key(s[j - 1]), desc);
        }
      }
    } else {
      var t := Insert(x, s[1..], key, desc);
      InsertSorted(x, s[1..], key, desc);
      InOrderTotal(key(x), key(s[0]), desc);
      var r := [s[0]] + t;
      forall j | 0 < j < |r| ensures InOrder(key(s[0]), key(r[j]), desc) {
        assert r[j] in multiset(t);
        assert r[j] in multiset(s[1..]) + multiset{x};
        if r[j] != x || r[j] in multiset(s[1..]) {
          if r[j] in multiset(s[1..]) {
            var k :| 0 <= k < |s[1..]| && s[1..][k] == r[j];
            assert s[k + 1] == r[j];
          }
        }
      }
    }
  }

  lemma {:induction false} SortBySorted<T>(s: seq<T>, key: T -> Key, desc: bool)
    ensures Sorted(SortBy(s, key, desc), key, desc)
  {
    if s != [] {
      SortBySorted(s[1..], key, desc);
      InsertSorted(s[0], SortBy(s[1..], key, desc), key, desc);
    }
  }

  lemma {:induction false} SortByPermutes<T>(s: seq<T>, key: T -> Key, desc: bool)
    ensures multiset(SortBy(s, key, desc)) == multiset(s)
  {
    if s != [] {
      SortByPermutes(s[1..], key, desc);
      assert s == [s[0]] + s[1..];
    }
  }

  lemma {:induction false} WithKeyInsert<T>(x: T, s: seq<T>, key: T -> Key, desc: bool, k: Key)
    ensures WithKey(Insert(x, s, key, desc), key, k)
         == (if key(x) == k then [x] else []) + WithKey(s, key, k)
  {
    if s == [] || InOrder(key(x), key(s[0]), desc) {
      assert ([x] + s)[1..] == s;
    } else {
      WithKeyInsert(x, s[1..], key, desc, k);
      var r := [s[0]] + Insert(x, s[1..], key, desc);
      assert r[1..] == Insert(x, s[1..], key, desc);
      InOrderReflexive(key(x), desc);
      assert key(s[0]) != key(x);
    }
  }

  /** Stability: among elements with the same key, the sort keeps their original order. */
  lemma {:induction false} SortByStable<T>(s: seq<T>, key: T -> Key, desc: bool, k: Key)
    ensures WithKey(SortBy(s, key, desc), key, k) == WithKey(s, key, k)
  {
    if s != [] {
      SortByStable(s[1..], key, desc, k);
      WithKeyInsert(s[0], SortBy(s[1..], key, desc), key, desc, k);
    }
  }
}
