/** Picking a node for a request (router/kerneldock_router.py): least load first, ties broken
    by a rotating key. */
module Scheduler {
  import opened Basics

  /** What the choice depends on: the load and the hash of the name. */
  datatype Candidate = Candidate(load: int, hash: int)

  /** The tie-break key when k nodes are healthy. */
  function Turn(c: Candidate, counter: int, k: nat): (r: nat)
    requires k > 0
    ensures r < k
  {
    (c.hash + counter) % k
  }

  /** The order min() uses: load, then turn. */
  predicate Before(a: Candidate, b: Candidate, counter: int, k: nat)
    requires k > 0
  {
    a.load < b.load || (a.load == b.load && Turn(a, counter, k) < Turn(b, counter, k))
  }

  /** The index min() returns: the first candidate no other comes before. */
  function Pick(cs: seq<Candidate>, counter: int): (r: nat)
    requires cs != []
    ensures r < |cs|
    ensures forall j :: 0 <= j < |cs| ==> !Before(cs[j], cs[r], counter, |cs|)
    ensures forall j :: 0 <= j < r ==> Before(cs[r], cs[j], counter, |cs|)
  {
    PickUpTo(cs, counter, |cs|)
  }

  function PickUpTo(cs: seq<Candidate>, counter: int, n: nat): (r: nat)
    requires 1 <= n <= |cs|
    ensures r < n
    ensures forall j :: 0 <= j < n ==> !Before(cs[j], cs[r], counter, |cs|)
    ensures forall j :: 0 <= j < r ==> Before(cs[r], cs[j], counter, |cs|)
  {
    if n == 1 then 0
    else
      var b := PickUpTo(cs, counter, n - 1);
      if Before(cs[n - 1], cs[b], counter, |cs|) then n - 1 else b
  }

  ghost predicate Minimal(cs: seq<Candidate>, i: int) {
    0 <= i < |cs| && forall j :: 0 <= j < |cs| ==> cs[i].load <= cs[j].load
  }

  /** The pick has minimal load, and among those the smallest turn. */
  lemma PickIsMinimal(cs: seq<Candidate>, counter: int)
    requires cs != []
    ensures Minimal(cs, Pick(cs, counter))
    ensures forall j :: Minimal(cs, j) ==>
              Turn(cs[Pick(cs, counter)], counter, |cs|) <= Turn(cs[j], counter, |cs|)
  {
    var r := Pick(cs, counter);
    forall j | 0 <= j < |cs| ensures cs[r].load <= cs[j].load {
      assert !Before(cs[j], cs[r], counter, |cs|);
    }
    forall j | Minimal(cs, j) ensures Turn(cs[r], counter, |cs|) <= Turn(cs[j], counter, |cs|) {
      assert !Before(cs[j], cs[r], counter, |cs|);
    }
  }

  // ---------- Fairness over k consecutive picks ----------

  /** Candidates of minimal load have pairwise distinct hashes modulo their number. */
  ghost predicate Spread(cs: seq<Candidate>) {
    forall i, j :: Minimal(cs, i) && Minimal(cs, j) && i != j ==> cs[i].hash % |cs| != cs[j].hash % |cs|
  }

  /** The t-th pick after the counter stood at start. */
  function Round(cs: seq<Candidate>, start: int, t: int): (r: nat)
    requires cs != []
    ensures r < |cs|
  {
    Pick(cs, start + t)
  }

  /** One of the next k picks is candidate i. */
  ghost predicate PickedWithin(cs: seq<Candidate>, start: int, i: int)
    requires cs != []
  {
    exists t :: 1 <= t <= |cs| && Round(cs, start, t) == i
  }

  lemma ModShift(a: int, b: int, c: int, k: nat)
    requires k > 0 && a % k == b % k
    ensures (a + c) % k == (b + c) % k
  {
    var d := a / k - b / k;
    assert a - b == d * k;
    ModPlusMultiple(b + c, d, k);
    assert a + c == (b + c) + d * k;
  }

  lemma {:induction false} ModPlusMultiple(x: int, d: int, k: nat)
    requires k > 0
    ensures (x + d * k) % k == x % k
    decreases if d < 0 then -d else d
  {
    if d > 0 {
      ModPlusMultiple(x, d - 1, k);
      assert x + d * k == (x + (d - 1) * k) + k;
      ModPlusOnce(x + (d - 1) * k, k);
    } else if d < 0 {
      ModPlusMultiple(x, d + 1, k);
      assert x + (d + 1) * k == (x + d * k) + k;
      ModPlusOnce(x + d * k, k);
    }
  }

  lemma ModPlusOnce(y: int, k: nat)
    requires k > 0
    ensures (y + k) % k == y % k
  {
    DivUnique(y + k, k, y / k + 1, y % k);
  }

  lemma DivUnique(y: int, k: nat, q: int, r: int)
    requires k > 0 && y == q * k + r && 0 <= r < k
    ensures y / k == q && y % k == r
  {
    var p := y / k;
    assert y == p * k + y % k;
    if p > q {
      assert (p - q) * k == p * k - q * k;
      Bigger(p - q, k);
    } else if q > p {
      assert (q - p) * k == q * k - p * k;
      Bigger(q - p, k);
    }
  }

  lemma Bigger(d: int, k: nat)
    requires d >= 1
    ensures d * k >= k
  {}

  /** Distinct hashes stay distinct under the rotation, equal ones equal. */
  lemma TurnsAgree(a: Candidate, b: Candidate, counter: int, k: nat)
    requires k > 0
    ensures Turn(a, counter, k) == Turn(b, counter, k) <==> a.hash % k == b.hash % k
  {
    if a.hash % k == b.hash % k {
      ModShift(a.hash, b.hash, counter, k);
    }
    if Turn(a, counter, k) == Turn(b, counter, k) {
      ModShift(a.hash + counter, b.hash + counter, -counter, k);
    }
  }

  /** The counter value in start + 1 .. start + k at which a candidate's turn is zero. */
  function SlotOf(c: Candidate, start: int, k: nat): (t: int)
    requires k > 0
    ensures 1 <= t <= k
    ensures Turn(c, start + t, k) == 0
  {
    var x := (c.hash + start) % k;
    var t := k - x;
    SlotTurn(c.hash + start, k);
    t
  }

  lemma SlotTurn(h: int, k: nat)
    requires k > 0
    ensures (h + (k - h % k)) % k == 0
  {
    assert h == h / k * k + h % k;
    assert h + (k - h % k) == 0 + (h / k + 1) * k;
    ModPlusMultiple(0, h / k + 1, k);
  }

  lemma ZeroTurnIsPicked(cs: seq<Candidate>, counter: int, i: int)
    requires cs != [] && Spread(cs) && Minimal(cs, i) && Turn(cs[i], counter, |cs|) == 0
    ensures Pick(cs, counter) == i
  {
    var r := Pick(cs, counter);
    PickIsMinimal(cs, counter);
    if r != i {
      TurnsAgree(cs[r], cs[i], counter, |cs|);
    }
  }

  /** The later of two candidates with the same load and the same hash is never picked. */
  lemma CollisionStarves(cs: seq<Candidate>, counter: int, i: int, j: int)
    requires i < j && Minimal(cs, i) && Minimal(cs, j) && cs[i].hash % |cs| == cs[j].hash % |cs|
    ensures Pick(cs, counter) != j
  {
    TurnsAgree(cs[i], cs[j], counter, |cs|);
    assert !Before(cs[j], cs[i], counter, |cs|);
  }

  lemma SpreadReaches(cs: seq<Candidate>, start: int, i: int)
    requires cs != [] && Spread(cs) && Minimal(cs, i)
    ensures PickedWithin(cs, start, i)
  {
    var t := SlotOf(cs[i], start, |cs|);
    ZeroTurnIsPicked(cs, start + t, i);
    assert Round(cs, start, t) == i;
  }

  lemma CollisionMisses(cs: seq<Candidate>, start: int, i: int, j: int)
    requires i < j && Minimal(cs, i) && Minimal(cs, j) && cs[i].hash % |cs| == cs[j].hash % |cs|
    ensures !PickedWithin(cs, start, j)
  {
    forall t | 1 <= t <= |cs| ensures Round(cs, start, t) != j {
      CollisionStarves(cs, start + t, i, j);
    }
  }

  /** While candidates and loads stay fixed, any k consecutive picks reach every candidate of
      minimal load exactly when their hashes are pairwise distinct modulo k. */
  lemma EveryMinimalNodePickedExactly(cs: seq<Candidate>, start: int)
    requires cs != []
    ensures (forall i :: Minimal(cs, i) ==> PickedWithin(cs, start, i)) <==> Spread(cs)
  {
    if Spread(cs) {
      forall i | Minimal(cs, i) ensures PickedWithin(cs, start, i) {
        SpreadReaches(cs, start, i);
      }
    } else {
      hide PickedWithin;
      var i, j :| Minimal(cs, i) && Minimal(cs, j) && i != j && cs[i].hash % |cs| == cs[j].hash % |cs|;
      if i < j {
        CollisionMisses(cs, start, i, j);
      } else {
        CollisionMisses(cs, start, j, i);
      }
    }
  }

  ghost predicate AllTied(cs: seq<Candidate>) {
    forall i :: 0 <= i < |cs| ==> Minimal(cs, i)
  }

  /** With all candidates tied and spread hashes a round of k picks picks each exactly once. */
  lemma TiedRoundPicksEachOnce(cs: seq<Candidate>, start: int, i: int)
    requires cs != [] && Spread(cs) && AllTied(cs) && 0 <= i < |cs|
    ensures exists t :: 1 <= t <= |cs| && Round(cs, start, t) == i
                        && forall u :: 1 <= u <= |cs| && Round(cs, start, u) == i ==> u == t
  {
    var t := SlotOf(cs[i], start, |cs|);
    ZeroTurnIsPicked(cs, start + t, i);
    assert Round(cs, start, t) == i;
    forall u | 1 <= u <= |cs| && Round(cs, start, u) == i ensures u == t {
      RoundIsSlots(cs, start, u);
    }
  }

  /** The t-th pick of a round is the candidate whose slot is t. */
  lemma RoundIsSlots(cs: seq<Candidate>, start: int, t: int)
    requires cs != [] && Spread(cs) && AllTied(cs)
    requires 1 <= t <= |cs|
    ensures SlotOf(cs[Round(cs, start, t)], start, |cs|) == t
  {
    var k := |cs|;
    var slots := Slots(cs, start);
    forall i, j | 0 <= i < j < k ensures slots[i] != slots[j] {
      if slots[i] == slots[j] {
        TurnsAgree(cs[i], cs[j], start + slots[i] + 1, k);
      }
    }
    Surjective(slots, t - 1);
    var i :| 0 <= i < k && slots[i] == t - 1;
    ZeroTurnIsPicked(cs, start + t, i);
  }

  function Slots(cs: seq<Candidate>, start: int): (s: seq<int>)
    requires cs != []
    ensures |s| == |cs|
    ensures forall i :: 0 <= i < |s| ==> 0 <= s[i] < |s| && s[i] == SlotOf(cs[i], start, |cs|) - 1
  {
    seq(|cs|, i requires 0 <= i < |cs| => SlotOf(cs[i], start, |cs|) - 1)
  }

  /** k distinct numbers below k include every number below k. */
  lemma Surjective(s: seq<int>, x: int)
    requires forall i :: 0 <= i < |s| ==> 0 <= s[i] < |s|
    requires forall i, j :: 0 <= i < j < |s| ==> s[i] != s[j]
    requires 0 <= x < |s|
    ensures x in s
  {
    var got := set i | 0 <= i < |s| :: s[i];
    ImageSize(s, |s|);
    if x !in s {
      assert got <= Range(|s|) - {x};
      SubsetSize(got, Range(|s|) - {x});
    }
  }

  function Range(n: nat): (r: set<int>)
    ensures |r| == n
    ensures forall i :: i in r <==> 0 <= i < n
  {
    if n == 0 then {} else Range(n - 1) + {n - 1}
  }

  function Firsts(s: seq<int>, n: nat): set<int>
    requires n <= |s|
  {
    set i | 0 <= i < n :: s[i]
  }

  lemma {:induction false} ImageSize(s: seq<int>, n: nat)
    requires n <= |s| && forall i, j :: 0 <= i < j < |s| ==> s[i] != s[j]
    ensures |Firsts(s, n)| == n
  {
    if n > 0 {
      ImageSize(s, n - 1);
      assert Firsts(s, n) == Firsts(s, n - 1) + {s[n - 1]};
    } else {
      assert Firsts(s, n) == {};
    }
  }
}
