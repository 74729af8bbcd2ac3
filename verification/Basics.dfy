/** Small definitions shared by the other modules. */
module Basics {

  datatype Option<+T> = None | Some(value: T)

  function Max(a: int, b: int): int {
    if a < b then b else a
  }

  function Min(a: int, b: int): int {
    if a < b then a else b
  }

  function MaxReal(a: real, b: real): real {
    if a < b then b else a
  }

  function MinReal(a: real, b: real): real {
    if a < b then a else b
  }

  /** The sequence without the element at position i. */
  function RemoveAt<T>(s: seq<T>, i: nat): (r: seq<T>)
    requires i < |s|
    ensures |r| == |s| - 1
    ensures forall k :: 0 <= k < |r| ==> r[k] == if k < i then s[k] else s[k + 1]
  {
    s[..i] + s[i + 1..]
  }

  /** The total of the values of a map. */
  ghost function SumValues<K>(m: map<K, nat>): nat
    decreases |m|
  {
    if m == map[] then 0
    else
      var k :| k in m;
      assert |m - {k}| < |m| by {
        assert (m - {k}).Keys == m.Keys - {k};
      }
      m[k] + SumValues(m - {k})
  }

  lemma {:induction false} SumValuesRemove<K>(m: map<K, nat>, k: K)
    requires k in m
    ensures SumValues(m) == m[k] + SumValues(m - {k})
    decreases |m|
  {
    var c :| c in m && SumValues(m) == m[c] + SumValues(m - {c});
    if c != k {
      assert (m - {c}).Keys == m.Keys - {c};
      assert (m - {k}).Keys == m.Keys - {k};
      assert (m - {c}) - {k} == (m - {k}) - {c};
      SumValuesRemove(m - {c}, k);
      SumValuesRemove(m - {k}, c);
    }
  }

  /** The characters str.strip removes. */
  predicate IsSpace(c: char) {
    || '\t' <= c <= '\r'
    || '\U{1C}' <= c <= ' '
    || c == '\U{85}' || c == '\U{A0}' || c == '\U{1680}'
    || '\U{2000}' <= c <= '\U{200A}'
    || c == '\U{2028}' || c == '\U{2029}' || c == '\U{202F}' || c == '\U{205F}' || c == '\U{3000}'
  }

  // ---------- Sequences and sets ----------

  predicate NoDup<T(==)>(s: seq<T>) {
    forall i, j :: 0 <= i < j < |s| ==> s[i] != s[j]
  }

  /** The elements that are in the set, in their order. */
  function Select<T(==,!new)>(s: seq<T>, keep: set<T>): (r: seq<T>)
    ensures forall x :: x in r <==> x in s && x in keep
    ensures NoDup(s) ==> NoDup(r)
    ensures |r| <= |s|
  {
    if s == [] then []
    else
      var n := |s| - 1;
      assert s == s[..n] + [s[n]];
      assert NoDup(s) ==> NoDup(s[..n]) && s[n] !in s[..n];
      if s[n] in keep then Select(s[..n], keep) + [s[n]] else Select(s[..n], keep)
  }

  lemma Assoc<T>(a: seq<T>, b: seq<T>, c: seq<T>)
    ensures (a + b) + c == a + (b + c)
  {}

  lemma SelectLast<T(!new)>(s: seq<T>, x: T, keep: set<T>)
    ensures Select(s + [x], keep) == Select(s, keep) + if x in keep then [x] else []
  {
    assert (s + [x])[..|s|] == s;
  }

  lemma {:induction false} SelectPlus<T(!new)>(a: seq<T>, b: seq<T>, keep: set<T>)
    ensures Select(a + b, keep) == Select(a, keep) + Select(b, keep)
  {
    if b == [] {
      assert a + b == a;
    } else {
      hide Select, NoDup;
      var n := |b| - 1;
      var rest, last := b[..n], [b[n]];
      assert b == rest + last;
      Assoc(a, rest, last);
      SelectPlus(a, rest, keep);
      SelectLast(a + rest, b[n], keep);
      SelectLast(rest, b[n], keep);
      Assoc(Select(a, keep), Select(rest, keep), if b[n] in keep then last else []);
    }
  }

  lemma {:induction false} SelectAll<T(!new)>(s: seq<T>, keep: set<T>)
    requires forall x :: x in s ==> x in keep
    ensures Select(s, keep) == s
  {
    hide NoDup;
    if s != [] {
      SelectAll(s[..|s| - 1], keep);
    }
  }

  /** Only the elements of the list matter to a selection. */
  lemma {:induction false} SelectSame<T(!new)>(s: seq<T>, keep: set<T>, keep': set<T>)
    requires forall x :: x in s ==> (x in keep <==> x in keep')
    ensures Select(s, keep) == Select(s, keep')
  {
    hide NoDup;
    if s != [] {
      SelectSame(s[..|s| - 1], keep, keep');
    }
  }

  lemma {:induction false} SelectTwice<T(!new)>(s: seq<T>, a: set<T>, b: set<T>)
    ensures Select(Select(s, a), b) == Select(s, a * b)
  {
    hide NoDup;
    if s != [] {
      var n := |s| - 1;
      SelectTwice(s[..n], a, b);
      var r := Select(s[..n], a);
      assert (r + [s[n]])[..|r|] == r;
    }
  }

  lemma SubsetSize<T>(a: set<T>, b: set<T>)
    requires a <= b
    ensures |a| <= |b|
  {
    assert b == a + (b - a);
  }

  /** Some natural number is not in the set. */
  lemma {:induction false} FreshNat(s: set<nat>) returns (n: nat)
    ensures forall m :: m in s ==> m < n
    decreases s
  {
    if s == {} {
      return 0;
    }
    var m :| m in s;
    var k := FreshNat(s - {m});
    n := Max(k, m + 1);
    assert forall x :: x in s ==> x == m || x in s - {m};
  }

  function Concat<T>(parts: seq<seq<T>>): seq<T> {
    if parts == [] then [] else parts[0] + Concat(parts[1..])
  }

  lemma {:induction false} ConcatPlus<T>(a: seq<seq<T>>, b: seq<seq<T>>)
    ensures Concat(a + b) == Concat(a) + Concat(b)
  {
    if a == [] {
      assert a + b == b;
    } else {
      assert (a + b)[1..] == a[1..] + b;
      ConcatPlus(a[1..], b);
    }
  }

  lemma ConcatOne<T>(s: seq<T>, parts: seq<seq<T>>)
    ensures Concat([s] + parts) == s + Concat(parts)
    ensures Concat([s]) == s
  {
    assert ([s] + parts)[1..] == parts;
    assert [s][1..] == [];
  }
}
