/** The rate limiter as the object that keeps one mutable bucket per client (app/middleware.py). */
module TokenBucket {
  import opened Basics
  import opened Sorting
  import T = TokenSpec

  class Bucket {
    var tokens: real
    var last: real

    function View(): T.Bucket
      reads this
    {
      T.Bucket(tokens, last)
    }

    constructor (tokens: real, last: real)
      ensures View() == T.Bucket(tokens, last)
    {
      this.tokens, this.last := tokens, last;
    }
  }

  /** An entry of the dictionary as prune sorts it. */
  datatype Item = Item(key: T.Key, last: real)

  const AGE: Item -> real := (i: Item) => i.last

  /** The dictionary's items in insertion order. */
  function Items(keys: seq<T.Key>, buckets: map<T.Key, T.Bucket>): (r: seq<Item>)
    requires forall k :: k in keys ==> k in buckets
    ensures |r| == |keys|
  {
    seq(|keys|, i requires 0 <= i < |keys| => Item(keys[i], buckets[keys[i]].last))
  }

  /** The keys prune removes: of too many, the half that has been idle for longest. */
  function Idle(keys: seq<T.Key>, buckets: map<T.Key, T.Bucket>, maxEntries: nat): seq<Item>
    requires forall k :: k in keys ==> k in buckets
  {
    if |keys| <= maxEntries then [] else SortBy(Items(keys, buckets), AGE)[..|keys| / 2]
  }

  predicate DistinctItems(items: seq<Item>) {
    forall i, j :: 0 <= i < j < |items| ==> items[i].key != items[j].key
  }

  function KeySet(items: seq<Item>): set<T.Key> {
    set i | i in items :: i.key
  }

  /** Prune leaves a small table alone; of a large one it removes half, and nobody it keeps has
      been idle for longer than anybody it removes. */
  lemma PruneTakesTheOldestHalf(keys: seq<T.Key>, buckets: map<T.Key, T.Bucket>, maxEntries: nat)
    requires NoDup(keys) && forall k :: k in keys ==> k in buckets
    ensures var gone := KeySet(Idle(keys, buckets, maxEntries));
            && (forall g :: g in gone ==> g in keys)
            && |gone| == (if |keys| <= maxEntries then 0 else |keys| / 2)
            && (forall g, k :: g in gone && k in keys && k !in gone ==> buckets[g].last <= buckets[k].last)
  {
    if |keys| > maxEntries {
      var items := Items(keys, buckets);
      var sorted := SortBy(items, AGE);
      var half := |keys| / 2;
      SortOrdered(items, AGE);
      SortedItems(keys, buckets);
      KeysOfDistinct(sorted, half);
      var gone := KeySet(sorted[..half]);
      hide SortBy, Items, KeySet, DistinctItems;
      forall g, k | g in gone && k in keys && k !in gone
        ensures g in keys && buckets[g].last <= buckets[k].last
      {
        FrontBeforeBack(sorted, half, g, k);
      }
      forall g | g in gone ensures g in keys {
        InFront(sorted, half, g);
      }
    } else {
      assert KeySet([]) == {};
    }
  }

  lemma InFront(sorted: seq<Item>, half: nat, g: T.Key)
    requires half <= |sorted| && g in KeySet(sorted[..half])
    ensures exists i :: 0 <= i < half && sorted[i].key == g && sorted[i] in sorted
  {
    var i :| 0 <= i < half && sorted[..half][i].key == g;
    assert sorted[i].key == g;
  }

  lemma FrontBeforeBack(sorted: seq<Item>, half: nat, g: T.Key, k: T.Key)
    requires half <= |sorted| && Ordered(sorted, AGE)
    requires g in KeySet(sorted[..half]) && k !in KeySet(sorted[..half]) && exists x :: x in sorted && x.key == k
    ensures exists x, y :: x in sorted && y in sorted && x.key == g && y.key == k && x.last <= y.last
  {
    InFront(sorted, half, g);
    var i :| 0 <= i < half && sorted[i].key == g;
    var y :| y in sorted && y.key == k;
    var j :| 0 <= j < |sorted| && sorted[j] == y;
    assert forall h :: 0 <= h < half ==> sorted[..half][h] == sorted[h] && sorted[..half][h] in sorted[..half];
    assert AGE(sorted[i]) <= AGE(sorted[j]);
  }

  /** The items carry keys of the list with their times. */
  ghost predicate Timed(items: seq<Item>, keys: seq<T.Key>, buckets: map<T.Key, T.Bucket>)
    requires forall k :: k in keys ==> k in buckets
  {
    forall x :: x in items ==> x.key in keys && x.last == buckets[x.key].last
  }

  ghost predicate Covers(items: seq<Item>, keys: seq<T.Key>) {
    forall k :: k in keys ==> exists x :: x in items && x.key == k
  }

  lemma ItemsFacts(keys: seq<T.Key>, buckets: map<T.Key, T.Bucket>)
    requires forall k :: k in keys ==> k in buckets
    ensures Timed(Items(keys, buckets), keys, buckets) && Covers(Items(keys, buckets), keys)
  {
    var items := Items(keys, buckets);
    forall k | k in keys ensures exists x :: x in items && x.key == k {
      var n :| 0 <= n < |keys| && keys[n] == k;
      assert items[n] in items;
    }
  }

  /** Sorting keeps every key once, with its time. */
  lemma SortedItems(keys: seq<T.Key>, buckets: map<T.Key, T.Bucket>)
    requires NoDup(keys) && forall k :: k in keys ==> k in buckets
    ensures var sorted := SortBy(Items(keys, buckets), AGE);
            Timed(sorted, keys, buckets) && Covers(sorted, keys) && DistinctItems(sorted)
  {
    SortedDistinct(keys, buckets);
    ItemsFacts(keys, buckets);
    hide SortBy, DistinctItems, AGE, NoDup, Items;
    SameMembers(Items(keys, buckets), SortBy(Items(keys, buckets), AGE));
  }

  lemma SortedDistinct(keys: seq<T.Key>, buckets: map<T.Key, T.Bucket>)
    requires NoDup(keys) && forall k :: k in keys ==> k in buckets
    ensures DistinctItems(SortBy(Items(keys, buckets), AGE))
  {
    assert DistinctItems(Items(keys, buckets));
    hide SortBy, AGE;
    DistinctAfterSort(Items(keys, buckets), SortBy(Items(keys, buckets), AGE));
  }

  lemma SameMembers(a: seq<Item>, b: seq<Item>)
    requires multiset(a) == multiset(b)
    ensures forall x :: x in a <==> x in b
  {
    forall x ensures x in a <==> x in b {
      assert x in a <==> x in multiset(a);
      assert x in b <==> x in multiset(b);
    }
  }

  lemma DistinctAfterSort(items: seq<Item>, sorted: seq<Item>)
    requires multiset(items) == multiset(sorted)
    requires DistinctItems(items)
    ensures DistinctItems(sorted)
  {
    forall i, j | 0 <= i < j < |sorted| ensures sorted[i].key != sorted[j].key {
      assert sorted[i] in multiset(items) && sorted[j] in multiset(items);
      var a :| 0 <= a < |items| && items[a] == sorted[i];
      var b :| 0 <= b < |items| && items[b] == sorted[j];
      if a == b {
        Twice(sorted, i, j);
        Once(items, a);
      }
    }
  }

  lemma Twice(s: seq<Item>, i: nat, j: nat)
    requires i < j < |s| && s[i] == s[j]
    ensures multiset(s)[s[i]] >= 2
  {
    assert s == s[..i] + [s[i]] + s[i + 1..];
    assert s[j] in s[i + 1..] by {
      assert s[i + 1..][j - i - 1] == s[j];
    }
  }

  lemma Once(s: seq<Item>, i: nat)
    requires i < |s| && DistinctItems(s)
    ensures multiset(s)[s[i]] == 1
  {
    assert s == s[..i] + [s[i]] + s[i + 1..];
    assert s[i] !in s[..i];
    assert s[i] !in s[i + 1..];
  }

  lemma {:induction false} KeysOfDistinct(items: seq<Item>, n: nat)
    requires n <= |items| && DistinctItems(items)
    ensures |KeySet(items[..n])| == n
  {
    if n > 0 {
      KeySetGrows(items, n - 1);
      hide KeySet, DistinctItems;
      KeysOfDistinct(items, n - 1);
    } else {
      assert KeySet(items[..n]) == {};
    }
  }

  lemma KeySetGrows(items: seq<Item>, n: nat)
    requires n < |items| && DistinctItems(items)
    ensures KeySet(items[..n + 1]) == KeySet(items[..n]) + {items[n].key}
    ensures items[n].key !in KeySet(items[..n])
  {
    assert items[..n + 1] == items[..n] + [items[n]];
    forall i | i in items[..n] ensures i.key != items[n].key {
      var k :| 0 <= k < n && items[k] == i;
    }
  }

  function Remaining(buckets: map<T.Key, T.Bucket>, items: seq<Item>, n: nat): map<T.Key, T.Bucket>
    requires n <= |items|
  {
    buckets - KeySet(items[..n])
  }

  lemma RemainingEnds(buckets: map<T.Key, T.Bucket>, items: seq<Item>)
    ensures Remaining(buckets, items, 0) == buckets
    ensures Remaining(buckets, items, |items|) == buckets - KeySet(items)
  {
    assert KeySet(items[..0]) == {};
    assert items[..|items|] == items;
  }

  lemma RemainingStep(buckets: map<T.Key, T.Bucket>, items: seq<Item>, i: nat)
    requires i < |items|
    ensures Remaining(buckets, items, i + 1) == Remaining(buckets, items, i) - {items[i].key}
  {
    assert items[..i + 1] == items[..i] + [items[i]];
    assert KeySet(items[..i + 1]) == KeySet(items[..i]) + {items[i].key};
  }

  function Without(keys: seq<T.Key>, key: T.Key): (r: seq<T.Key>)
    ensures forall k :: k in r <==> k in keys && k != key
    ensures NoDup(keys) ==> NoDup(r)
  {
    if keys == [] then []
    else
      var n := |keys| - 1;
      assert keys == keys[..n] + [keys[n]];
      assert NoDup(keys) ==> NoDup(keys[..n]) && keys[n] !in keys[..n];
      if keys[n] == key then Without(keys[..n], key) else Without(keys[..n], key) + [keys[n]]
  }

  ghost function Views(buckets: map<T.Key, Bucket>): (r: map<T.Key, T.Bucket>)
    reads buckets.Values
    ensures r.Keys == buckets.Keys
  {
    map k | k in buckets :: buckets[k].View()
  }

  class TokenBucketLimiter {
    const limits: T.Limits
    var keys: seq<T.Key>
    var buckets: map<T.Key, Bucket>

    ghost function State(): map<T.Key, T.Bucket>
      reads this, buckets.Values
    {
      Views(buckets)
    }

    ghost predicate Valid()
      reads this
    {
      && limits.Ok()
      && NoDup(keys) && (forall k :: k in keys <==> k in buckets)
      && (forall j, k :: j in buckets && k in buckets && j != k ==> buckets[j] != buckets[k])
    }

    constructor (perMinute: nat, burst: nat)
      requires perMinute >= 1
      ensures Valid() && State() == map[] && limits == T.MakeLimits(perMinute, burst)
    {
      limits := T.MakeLimits(perMinute, burst);
      keys, buckets := [], map[];
    }

    method Allow(key: T.Key, now: real) returns (allowed: bool)
      requires Valid()
      modifies this, buckets.Values
      ensures State() == T.AllowSpec(limits, old(State()), key, now).buckets
      ensures allowed == T.AllowSpec(limits, old(State()), key, now).allowed
      ensures allowed <==> T.Available(limits, old(State()), key, now) >= 1.0
      ensures Valid()
    {
      hide Views, T.Refilled;
      T.AllowedExactly(limits, State(), key, now);
      if key !in buckets {
        AddBucket(key, now);
        return true;
      }
      allowed := Draw(key, now);
    }

    method AddBucket(key: T.Key, now: real)
      requires Valid() && key !in buckets
      modifies `keys, `buckets
      ensures State() == old(State())[key := T.Bucket(limits.capacity - 1.0, now)]
      ensures Valid()
    {
      var bucket := new Bucket(limits.capacity - 1.0, now);
      keys := keys + [key];
      buckets := buckets[key := bucket];
      assert State() == old(State())[key := bucket.View()];
    }

    /** Refills the bucket up to now and takes a token out if there is one. */
    method Draw(key: T.Key, now: real) returns (allowed: bool)
      requires Valid() && key in buckets
      modifies buckets[key]
      ensures var tokens := T.Refilled(limits, old(State())[key], now);
              && allowed == (tokens >= 1.0)
              && State() == old(State())[key := T.Bucket(if tokens < 1.0 then tokens else tokens - 1.0, now)]
      ensures Valid()
    {
      var bucket := buckets[key];
      var tokens := MinReal(limits.capacity, bucket.tokens + (now - bucket.last) * limits.rate);
      ghost var before := State();
      assert tokens == T.Refilled(limits, before[key], now);
      if tokens < 1.0 {
        bucket.tokens, bucket.last := tokens, now;
        assert State() == before[key := bucket.View()];
        return false;
      }
      bucket.tokens, bucket.last := tokens - 1.0, now;
      assert State() == before[key := bucket.View()];
      return true;
    }

    method Pop(key: T.Key)
      requires Valid()
      modifies `keys, `buckets
      ensures State() == old(State()) - {key}
      ensures Valid()
    {
      keys := Without(keys, key);
      buckets := buckets - {key};
    }

    method PopAll(items: seq<Item>)
      requires Valid()
      modifies `keys, `buckets
      ensures State() == old(State()) - KeySet(items)
      ensures Valid()
    {
      var i := 0;
      hide Valid, Views, Remaining;
      ghost var before := State();
      RemainingEnds(before, items);
      while i < |items|
        invariant 0 <= i <= |items|
        invariant State() == Remaining(before, items, i)
        invariant Valid()
      {
        RemainingStep(before, items, i);
        Pop(items[i].key);
        i := i + 1;
      }
    }

    /** Throws away the half of the buckets idle for longest once there are too many. */
    method Prune(maxEntries: nat)
      requires Valid()
      modifies `keys, `buckets
      ensures State() == old(State()) - KeySet(Idle(old(keys), old(State()), maxEntries))
      ensures Valid()
    {
      if |keys| <= maxEntries {
        return;
      }
      var items := [];
      ghost var views := State();
      var i := 0;
      while i < |keys|
        invariant 0 <= i <= |keys|
        invariant |items| == i && forall k :: 0 <= k < i ==> items[k] == Item(keys[k], views[keys[k]].last)
      {
        assert keys[i] in buckets;
        items := items + [Item(keys[i], buckets[keys[i]].last)];
        i := i + 1;
      }
      assert items == Items(keys, views);
      items := SortBy(items, AGE);
      PopAll(items[..|keys| / 2]);
    }
  }
}
