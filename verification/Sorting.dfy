/** A stable sort by a real-valued key, as Python's sorted gives it. */
module Sorting {
  import opened Basics

  ghost predicate Ordered<T>(items: seq<T>, key: T -> real) {
    forall i, j :: 0 <= i < j < |items| ==> key(items[i]) <= key(items[j])
  }

  /** Places x behind every element whose key is not greater. */
  function Insert<T>(x: T, items: seq<T>, key: T -> real): (r: seq<T>)
    ensures multiset(r) == multiset(items) + multiset{x}
  {
    if items == [] || key(items[|items| - 1]) <= key(x) then items + [x]
    else
      var n := |items| - 1;
      assert items == items[..n] + [items[n]];
      Insert(x, items[..n], key) + [items[n]]
  }

  function SortBy<T>(items: seq<T>, key: T -> real): (r: seq<T>)
    ensures multiset(r) == multiset(items)
    ensures |r| == |items|
  {
    if items == [] then []
    else
      var n := |items| - 1;
      assert items == items[..n] + [items[n]];
      var r := Insert(items[n], SortBy(items[..n], key), key);
      assert |multiset(r)| == |multiset(items)|;
      r
  }

  lemma {:induction false} InsertOrdered<T>(x: T, items: seq<T>, key: T -> real)
    requires Ordered(items, key)
    ensures Ordered(Insert(x, items, key), key)
  {
    if items != [] && key(items[|items| - 1]) > key(x) {
      var n := |items| - 1;
      InsertOrdered(x, items[..n], key);
      var r := Insert(x, items[..n], key);
      forall i | 0 <= i < |r| ensures key(r[i]) <= key(items[n]) {
        assert r[i] in multiset(r);
        assert r[i] == x || r[i] in items[..n];
      }
    }
  }

  lemma {:induction false} SortOrdered<T>(items: seq<T>, key: T -> real)
    ensures Ordered(SortBy(items, key), key)
  {
    if items != [] {
      var n := |items| - 1;
      SortOrdered(items[..n], key);
      InsertOrdered(items[n], SortBy(items[..n], key), key);
    }
  }

  /** The elements of one key keep their order. */
  function WithKey<T>(items: seq<T>, key: T -> real, k: real): seq<T> {
    if items == [] then []
    else
      var n := |items| - 1;
      WithKey(items[..n], key, k) + Only(items[n], key, k)
  }

  function Only<T>(x: T, key: T -> real, k: real): seq<T> {
    if key(x) == k then [x] else []
  }

  lemma WithKeyLast<T>(items: seq<T>, x: T, key: T -> real, k: real)
    ensures WithKey(items + [x], key, k) == WithKey(items, key, k) + Only(x, key, k)
  {
    assert (items + [x])[..|items|] == items;
  }

  lemma Swap<T>(a: seq<T>, b: seq<T>, c: seq<T>)
    requires b == [] || c == []
    ensures (a + b) + c == (a + c) + b
  {}

  lemma {:induction false} InsertStable<T>(x: T, items: seq<T>, key: T -> real, k: real)
    requires Ordered(items, key)
    ensures WithKey(Insert(x, items, key), key, k) == WithKey(items, key, k) + Only(x, key, k)
  {
    hide WithKey;
    if items == [] || key(items[|items| - 1]) <= key(x) {
      WithKeyLast(items, x, key, k);
    } else {
      var n := |items| - 1;
      var rest, y := items[..n], items[n];
      assert items == rest + [y];
      InsertStable(x, rest, key, k);
      WithKeyLast(Insert(x, rest, key), y, key, k);
      WithKeyLast(rest, y, key, k);
      Swap(WithKey(rest, key, k), Only(x, key, k), Only(y, key, k));
    }
  }

  lemma {:induction false} SortStable<T>(items: seq<T>, key: T -> real, k: real)
    ensures WithKey(SortBy(items, key), key, k) == WithKey(items, key, k)
  {
    if items != [] {
      var n := |items| - 1;
      SortStable(items[..n], key, k);
      SortOrdered(items[..n], key);
      InsertStable(items[n], SortBy(items[..n], key), key, k);
    }
  }

  lemma {:induction false} InsertSame<T>(x: T, items: seq<T>, key: T -> real, key': T -> real)
    requires key(x) == key'(x) && forall y :: y in items ==> key(y) == key'(y)
    ensures Insert(x, items, key) == Insert(x, items, key')
  {
    if items != [] {
      InsertSame(x, items[..|items| - 1], key, key');
    }
  }

  /** Only the keys of the elements themselves matter. */
  lemma {:induction false} SortSame<T>(items: seq<T>, key: T -> real, key': T -> real)
    requires forall x :: x in items ==> key(x) == key'(x)
    ensures SortBy(items, key) == SortBy(items, key')
  {
    if items != [] {
      var n := |items| - 1;
      SortSame(items[..n], key, key');
      var r := SortBy(items[..n], key);
      forall y | y in r ensures key(y) == key'(y) {
        assert y in multiset(r);
        assert y in items[..n];
      }
      InsertSame(items[n], r, key, key');
    }
  }

  /** x stands somewhere before y. */
  ghost predicate Before<T(!new)>(s: seq<T>, x: T, y: T) {
    exists i, j :: 0 <= i < j < |s| && s[i] == x && s[j] == y
  }

  lemma BeforeLast<T(!new)>(s: seq<T>, z: T, x: T, y: T)
    ensures Before(s + [z], x, y) <==> Before(s, x, y) || (y == z && x in s)
  {
    var t := s + [z];
    if Before(s, x, y) {
      var i, j :| 0 <= i < j < |s| && s[i] == x && s[j] == y;
      assert t[i] == x && t[j] == y;
    }
    if y == z && x in s {
      var i :| 0 <= i < |s| && s[i] == x;
      assert t[i] == x && t[|s|] == y;
    }
  }

  lemma {:induction false} BeforeWithKey<T(!new)>(s: seq<T>, key: T -> real, x: T, y: T)
    requires key(x) == key(y)
    ensures Before(WithKey(s, key, key(x)), x, y) <==> Before(s, x, y)
    ensures x in WithKey(s, key, key(x)) <==> x in s
  {
    if s != [] {
      var n := |s| - 1;
      var rest, z, k := s[..n], s[n], key(x);
      assert s == rest + [z];
      BeforeWithKey(rest, key, x, y);
      BeforeLast(rest, z, x, y);
      hide Before;
      WithKeyLast(rest, z, key, k);
      if key(z) == k {
        BeforeLast(WithKey(rest, key, k), z, x, y);
      } else {
        assert WithKey(rest, key, k) + [] == WithKey(rest, key, k);
      }
    }
  }

  /** Elements with equal keys keep their order. */
  lemma SortKeepsOrder<T(!new)>(items: seq<T>, key: T -> real, x: T, y: T)
    requires key(x) == key(y)
    ensures Before(SortBy(items, key), x, y) <==> Before(items, x, y)
  {
    hide Before, SortBy;
    SortStable(items, key, key(x));
    BeforeWithKey(items, key, x, y);
    BeforeWithKey(SortBy(items, key), key, x, y);
  }

  lemma {:induction false} BeforeSelected<T(!new)>(s: seq<T>, keep: set<T>, x: T, y: T)
    requires Before(Select(s, keep), x, y)
    ensures Before(s, x, y)
  {
    if s != [] {
      var n := |s| - 1;
      var rest := s[..n];
      assert s == rest + [s[n]];
      BeforeLast(rest, s[n], x, y);
      BeforeLast(Select(rest, keep), s[n], x, y);
      hide Before, NoDup;
      if Before(Select(rest, keep), x, y) {
        BeforeSelected(rest, keep, x, y);
      }
    }
  }
}
