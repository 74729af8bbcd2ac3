/** The pool as the object that owns the tables and updates them in place
    (app/infrastructure/container_pool.py). Each method is one section run under the pool
    lock; its contract equates the new tables with the function of PoolSpec. */
module ContainerPool {
  import opened Basics
  import opened PoolSpec

  class ContainerPool {
    const cfg: Config
    var available: seq<Container>
    var all: map<ContainerId, Container>
    var leased: map<ContainerId, Container>
    var sharedInflight: map<ContainerId, nat>
    var target: int
    var lastDemandAt: real

    ghost function State(): PoolState
      reads this
    {
      PoolState(available, all, leased, sharedInflight, target, lastDemandAt)
    }

    ghost predicate Valid()
      reads this
    {
      TableOk(State())
    }

    constructor (cfg: Config, now: real)
      ensures Valid() && this.cfg == cfg
      ensures State() == PoolState([], map[], map[], map[], cfg.poolSize, now)
    {
      this.cfg := cfg;
      available, all, leased, sharedInflight := [], map[], map[], map[];
      target, lastDemandAt := cfg.poolSize, now;
    }

    /** The first healthy, unexpired container nobody shares. */
    method GetAvailableContainer(now: real) returns (index: Option<nat>)
      ensures index == FirstFree(available, sharedInflight, now, cfg.maxAge)
    {
      index := None;
      var i := 0;
      while i < |available|
        invariant 0 <= i <= |available|
        invariant forall j :: 0 <= j < i ==> !Free(available[j], sharedInflight, now, cfg.maxAge)
      {
        var c := available[i];
        if !Expired(c, now, cfg.maxAge) && c.healthy && Inflight(sharedInflight, c.id) == 0 {
          return Some(i);
        }
        i := i + 1;
      }
    }

    method ScaleUp()
      modifies `target
      ensures State() == ScaleUpOnMiss(cfg, old(State()))
    {
      if target < cfg.maxSize {
        target := target + 1;
      }
    }

    /** Hands out a container exclusively: `acquire_for_execution`, and `acquire`, which
        differs only in scheduling a replenish afterwards. */
    method AcquireForExecution(now: real) returns (container: Option<Container>)
      requires Valid()
      modifies this
      ensures (State(), container) == AcquireSpec(cfg, old(State()), now)
      ensures Valid()
    {
      hide TableOk;
      AcquireKeepsTable(cfg, State(), now);
      lastDemandAt := now;
      var index := GetAvailableContainer(now);
      if index.Some? {
        var c := available[index.value];
        available := RemoveAt(available, index.value);
        all := all - {c.id};
        leased := leased[c.id := c];
        container := Some(c);
      } else {
        ScaleUp();
        container := None;
      }
    }

    /** The usable container with the fewest shared requests, if one is below the limit. */
    method GetLeastLoaded(limit: int, now: real) returns (best: Option<nat>)
      ensures best == LeastLoaded(available, sharedInflight, now, cfg.maxAge, limit)
      ensures best.Some? ==> best.value < |available|
    {
      best := None;
      var bestInflight := limit;
      var i := 0;
      while i < |available|
        invariant 0 <= i <= |available|
        invariant best == LeastLoaded(available[..i], sharedInflight, now, cfg.maxAge, limit)
        invariant bestInflight == if best.Some? then Inflight(sharedInflight, available[best.value].id) else limit
      {
        var c := available[i];
        assert available[..i + 1][..i] == available[..i];
        if Usable(c, now, cfg.maxAge) {
          var inflight := Inflight(sharedInflight, c.id);
          if inflight < bestInflight {
            best, bestInflight := Some(i), inflight;
          }
        }
        i := i + 1;
      }
      assert available[..i] == available;
    }

    /** Counts one more request on the least loaded container. */
    method AcquireShared(limit: int, now: real) returns (id: Option<ContainerId>)
      requires Valid()
      modifies this
      ensures State() == AcquireSharedSpec(cfg, old(State()), limit, now).0
      ensures id == AcquireSharedSpec(cfg, old(State()), limit, now).1
      ensures Valid()
    {
      hide TableOk, IsLeastLoaded, AllFull, LeastLoaded;
      AcquireSharedKeepsTable(cfg, State(), limit, now);
      lastDemandAt := now;
      var best := GetLeastLoaded(limit, now);
      if best.None? {
        ScaleUp();
        return None;
      }
      id := Some(available[best.value].id);
      sharedInflight := sharedInflight[id.value := Inflight(sharedInflight, id.value) + 1];
    }

    method ReleaseShared(id: ContainerId)
      requires Valid()
      modifies `sharedInflight
      ensures State() == ReleaseSharedSpec(old(State()), id)
      ensures Valid()
    {
      var inflight := Inflight(sharedInflight, id);
      if inflight <= 1 {
        sharedInflight := sharedInflight - {id};
      } else {
        sharedInflight := sharedInflight[id := inflight - 1];
      }
    }

    /** Takes a leased container back, or reports that it has to be destroyed. */
    method Release(id: ContainerId, healthy: bool, now: real) returns (destroyed: bool)
      requires Valid()
      modifies this
      ensures State() == ReleaseSpec(old(State()), id, healthy, now)
      ensures destroyed <==> id in old(leased) && (!healthy || |old(available)| >= old(target))
      ensures Valid()
    {
      hide TableOk;
      ReleaseKeepsTable(State(), id, healthy, now);
      if id !in leased {
        return false;
      }
      var lease := leased[id];
      leased := leased - {id};
      if healthy && |available| < target {
        var c := Container(id, lease.createdAt, true, now);
        available := available + [c];
        all := all[id := c];
        destroyed := false;
      } else {
        destroyed := true;
      }
    }

    /** Adds what the creation attempts delivered; a failed attempt adds nothing. */
    method Replenish(results: seq<Option<Container>>)
      requires Valid()
      requires |results| == Needed(State()) && FreshFor(State(), Successes(results))
      modifies `available, `all
      ensures State() == ReplenishSpec(old(State()), Successes(results))
      ensures |available| <= Basics.Max(target, |old(available)|)
      ensures Valid()
    {
      hide TableOk;
      ReplenishKeepsTable(State(), Successes(results));
      var i := 0;
      assert results[..0] == [];
      while i < |results|
        invariant 0 <= i <= |results|
        invariant available == old(available) + Successes(results[..i])
        invariant all == AddAll(old(all), Successes(results[..i]))
      {
        assert results[..i + 1][..i] == results[..i];
        if results[i].Some? {
          var c := results[i].value;
          ghost var made := Successes(results[..i]);
          assert (made + [c])[..|made|] == made;
          available := available + [c];
          all := all[c.id := c];
        }
        i := i + 1;
      }
      assert results[..i] == results;
    }

    method RemovePooled(id: ContainerId)
      modifies `available, `all
      ensures available == Without(old(available), {id}) && all == old(all) - {id}
    {
      var kept := [];
      var i := 0;
      while i < |available|
        invariant 0 <= i <= |available|
        invariant kept == Without(available[..i], {id})
      {
        assert available[..i + 1][..i] == available[..i];
        if available[i].id != id {
          kept := kept + [available[i]];
        }
        i := i + 1;
      }
      assert available[..i] == available;
      available := kept;
      all := all - {id};
    }

    /** The first half of a sweep: refreshes the health records and lists what has to go. */
    method ProbeAll(probe: ContainerId -> Probe) returns (unhealthy: seq<ContainerId>, expired: seq<ContainerId>)
      modifies `available, `all
      ensures available == CheckedAll(old(available), sharedInflight, probe, cfg.maxAge)
      ensures all == RefreshAll(old(all), old(available), sharedInflight, probe, cfg.maxAge)
      ensures SetOf(unhealthy + expired) == SweptIds(old(available), sharedInflight, probe, cfg.maxAge)
    {
      unhealthy, expired := [], [];
      ghost var a := available;
      var i := 0;
      ProbeStarts(a, all, sharedInflight, probe, cfg.maxAge);
      hide CheckedUpTo, RefreshAll, SweptIds, SetOf;
      while i < |available|
        invariant 0 <= i <= |available| == |a|
        invariant available == CheckedUpTo(a, i, sharedInflight, probe, cfg.maxAge)
        invariant all == RefreshAll(old(all), a[..i], sharedInflight, probe, cfg.maxAge)
        invariant SetOf(unhealthy + expired) == SweptIds(a[..i], sharedInflight, probe, cfg.maxAge)
      {
        var c := available[i];
        SweptIdsStep(a, i, sharedInflight, probe, cfg.maxAge);
        CheckedUpToStep(a, i, sharedInflight, probe, cfg.maxAge);
        SetOfAppend(unhealthy, expired, c.id);
        RefreshOne(old(all), a, i, sharedInflight, probe, cfg.maxAge);
        if Inflight(sharedInflight, c.id) > 0 {
        } else if Expired(c, probe(c.id).now, cfg.maxAge) {
          expired := expired + [c.id];
        } else {
          var marked := c.(healthy := probe(c.id).healthy, checkedAt := probe(c.id).now);
          available := available[i := marked];
          all := all[c.id := marked];
          if !marked.healthy {
            unhealthy := unhealthy + [c.id];
          }
        }
        i := i + 1;
      }
      ProbeEnds(a, sharedInflight, probe, cfg.maxAge);
    }

    /** The second half: removes the listed containers one by one. */
    method RemoveListed(ids: seq<ContainerId>)
      modifies `available, `all
      ensures available == Without(old(available), SetOf(ids))
      ensures all == old(all) - SetOf(ids)
    {
      var i := 0;
      LeftEnds(available, all, ids);
      hide Left, LeftAll;
      while i < |ids|
        invariant 0 <= i <= |ids|
        invariant available == Left(old(available), ids, i)
        invariant all == LeftAll(old(all), ids, i)
      {
        LeftStep(old(available), old(all), ids, i);
        RemovePooled(ids[i]);
        i := i + 1;
      }
    }

    /** The locked part of `health_check`. */
    method Sweep(probe: ContainerId -> Probe)
      requires Valid()
      modifies `available, `all
      ensures State() == SweepSpec(cfg, old(State()), probe)
      ensures Valid()
    {
      hide TableOk, SweptIds, Without, CheckedAll;
      SweepKeepsTable(cfg, State(), probe);
      SweepIndex(cfg, State(), probe);
      var unhealthy, expired := ProbeAll(probe);
      RemoveListed(unhealthy + expired);
    }

    /** The number of shared requests in flight over all containers. */
    method TotalShared() returns (total: nat)
      ensures total == SumValues(sharedInflight)
    {
      total := 0;
      var rest := sharedInflight;
      while rest != map[]
        invariant total + SumValues(rest) == SumValues(sharedInflight)
        decreases |rest|
      {
        var k :| k in rest;
        SumValuesRemove(rest, k);
        assert (rest - {k}).Keys == rest.Keys - {k};
        total := total + rest[k];
        rest := rest - {k};
      }
    }

    /** The locked part of `_maybe_scale_up_proactive`; the test against the maximum was made
        before the lock was taken. */
    method GrowIfBusy(perContainer: int, now: real) returns (grown: bool)
      modifies `target, `lastDemandAt
      ensures State() == GrowSpec(old(State()), perContainer, now)
      ensures grown <==> HighWater(old(State()), perContainer)
    {
      if |all| == 0 {
        return false;
      }
      var shared := TotalShared();
      var inflight := shared + |leased|;
      var capacity := |all| * Basics.Max(1, perContainer);
      grown := capacity > 0 && inflight as real >= 0.75 * (capacity as real);
      CapacityPositive(|all|, Basics.Max(1, perContainer));
      if grown {
        target := target + 1;
        lastDemandAt := now;
      }
    }

    /** The unlocked start of `_maybe_shrink`. */
    method LowerTarget(now: real) returns (lowered: bool)
      modifies `target, `lastDemandAt
      ensures State() == LowerTargetSpec(cfg, old(State()), now)
      ensures lowered <==> ShrinkDue(cfg, old(State()), now)
    {
      if now - lastDemandAt < cfg.idleShrink || target <= cfg.minSize {
        return false;
      }
      target := target - 1;
      lastDemandAt := now;
      lowered := true;
    }

    /** Removes idle containers from the end until the target is met or none is left. */
    method RemoveIdle()
      requires Distinct(available)
      modifies `available, `all
      ensures available == Shrunk(old(available), sharedInflight, target)
      ensures all == ShrunkAll(old(all), old(available), sharedInflight, target)
    {
      var removable := IdleOf(available, sharedInflight);
      while |available| > target && |removable| > 0
        invariant Distinct(available)
        invariant removable == IdleOf(available, sharedInflight)
        invariant Shrunk(available, sharedInflight, target) == Shrunk(old(available), sharedInflight, target)
        invariant ShrunkAll(all, available, sharedInflight, target) == ShrunkAll(old(all), old(available), sharedInflight, target)
        decreases |removable|
      {
        var c := removable[|removable| - 1];
        RemoveLastIdle(available, sharedInflight);
        removable := removable[..|removable| - 1];
        RemovePooled(c.id);
      }
      if removable == [] {
        IdleOfNone(available, sharedInflight);
      }
    }

    /** The locked part of `_maybe_shrink`. */
    method RemoveSurplus()
      requires Valid()
      modifies `available, `all
      ensures State() == ShrinkSpec(old(State()))
      ensures Valid()
    {
      ShrinkKeepsTable(State());
      ShrunkAllIndexes(available, sharedInflight, target);
      RemoveIdle();
    }
  }

  // ---------- Facts the loops need ----------

  lemma CapacityPositive(containers: nat, per: nat)
    requires containers > 0 && per > 0
    ensures containers * per > 0
  {}

  function IdleOf(a: seq<Container>, shared: map<ContainerId, nat>): (r: seq<Container>)
  {
    if a == [] then []
    else
      var n := |a| - 1;
      if Idle(a[n], shared) then IdleOf(a[..n], shared) + [a[n]] else IdleOf(a[..n], shared)
  }

  lemma {:induction false} IdleOfLast(a: seq<Container>, shared: map<ContainerId, nat>)
    requires IdleOf(a, shared) != []
    ensures LastIdle(a, shared).Some?
    ensures var i := LastIdle(a, shared).value;
            var r := IdleOf(a, shared);
            r[|r| - 1] == a[i] && IdleOf(RemoveAt(a, i), shared) == r[..|r| - 1]
  {
    var n := |a| - 1;
    if Idle(a[n], shared) {
      assert RemoveAt(a, n) == a[..n];
    } else {
      IdleOfLast(a[..n], shared);
      var i := LastIdle(a, shared).value;
      assert RemoveAt(a, i)[..n - 1] == RemoveAt(a[..n], i);
    }
  }

  lemma {:induction false} IdleOfNone(a: seq<Container>, shared: map<ContainerId, nat>)
    requires IdleOf(a, shared) == []
    ensures LastIdle(a, shared).None?
  {
    if a != [] {
      IdleOfNone(a[..|a| - 1], shared);
    }
  }

  lemma SweptIdsStep(a: seq<Container>, i: nat, shared: map<ContainerId, nat>, probe: ContainerId -> Probe, maxAge: real)
    requires i < |a|
    ensures SweptIds(a[..i + 1], shared, probe, maxAge)
         == SweptIds(a[..i], shared, probe, maxAge) + (if Swept(a[i], shared, probe, maxAge) then {a[i].id} else {})
  {
    assert a[..i + 1] == a[..i] + [a[i]];
  }

  /** The list when the sweep has looked at its first i containers. */
  ghost function CheckedUpTo(a: seq<Container>, i: nat, shared: map<ContainerId, nat>, probe: ContainerId -> Probe, maxAge: real): (r: seq<Container>)
    requires i <= |a|
    ensures |r| == |a|
    ensures i < |a| ==> r[i] == a[i]
  {
    CheckedAll(a[..i], shared, probe, maxAge) + a[i..]
  }

  lemma CheckedUpToStep(a: seq<Container>, i: nat, shared: map<ContainerId, nat>, probe: ContainerId -> Probe, maxAge: real)
    requires i < |a|
    ensures CheckedUpTo(a, i + 1, shared, probe, maxAge)
         == CheckedUpTo(a, i, shared, probe, maxAge)[i := Checked(a[i], shared, probe, maxAge)]
  {}

  lemma SetOfAppend(ids: seq<ContainerId>, more: seq<ContainerId>, id: ContainerId)
    ensures SetOf((ids + [id]) + more) == SetOf(ids + more) + {id}
    ensures SetOf(ids + (more + [id])) == SetOf(ids + more) + {id}
  {}

  function SetOf(ids: seq<ContainerId>): set<ContainerId> {
    set id | id in ids
  }

  lemma RefreshOne(m: map<ContainerId, Container>, a: seq<Container>, i: nat, shared: map<ContainerId, nat>, probe: ContainerId -> Probe, maxAge: real)
    requires i < |a|
    ensures RefreshAll(m, a[..i + 1], shared, probe, maxAge)
         == if Inflight(shared, a[i].id) > 0 || Expired(a[i], probe(a[i].id).now, maxAge) then RefreshAll(m, a[..i], shared, probe, maxAge)
            else RefreshAll(m, a[..i], shared, probe, maxAge)[a[i].id := Checked(a[i], shared, probe, maxAge)]
  {
    assert a[..i + 1][..i] == a[..i];
  }

  lemma ProbeStarts(a: seq<Container>, m: map<ContainerId, Container>, shared: map<ContainerId, nat>, probe: ContainerId -> Probe, maxAge: real)
    ensures CheckedUpTo(a, 0, shared, probe, maxAge) == a
    ensures RefreshAll(m, a[..0], shared, probe, maxAge) == m
    ensures SetOf([] + []) == SweptIds(a[..0], shared, probe, maxAge)
  {
    assert a[..0] == [] && a[0..] == a;
    assert CheckedAll([], shared, probe, maxAge) == [];
  }

  lemma ProbeEnds(a: seq<Container>, shared: map<ContainerId, nat>, probe: ContainerId -> Probe, maxAge: real)
    ensures CheckedUpTo(a, |a|, shared, probe, maxAge) == CheckedAll(a, shared, probe, maxAge)
    ensures a[..|a|] == a
  {
    assert a[..|a|] == a && a[|a|..] == [];
  }

  /** The list and the dictionary after the first n removals. */
  function Left(a: seq<Container>, ids: seq<ContainerId>, n: nat): seq<Container>
    requires n <= |ids|
  {
    Without(a, SetOf(ids[..n]))
  }

  function LeftAll(all: map<ContainerId, Container>, ids: seq<ContainerId>, n: nat): map<ContainerId, Container>
    requires n <= |ids|
  {
    all - SetOf(ids[..n])
  }

  lemma LeftEnds(a: seq<Container>, all: map<ContainerId, Container>, ids: seq<ContainerId>)
    ensures Left(a, ids, 0) == a && Left(a, ids, |ids|) == Without(a, SetOf(ids))
    ensures LeftAll(all, ids, 0) == all && LeftAll(all, ids, |ids|) == all - SetOf(ids)
  {
    assert SetOf(ids[..0]) == {} && ids[..|ids|] == ids;
    WithoutNone(a, {});
  }

  lemma LeftStep(a: seq<Container>, all: map<ContainerId, Container>, ids: seq<ContainerId>, i: nat)
    requires i < |ids|
    ensures Left(a, ids, i + 1) == Without(Left(a, ids, i), {ids[i]})
    ensures LeftAll(all, ids, i + 1) == LeftAll(all, ids, i) - {ids[i]}
  {
    SetOfStep(ids, i);
    WithoutTwice(a, SetOf(ids[..i]), ids[i]);
  }

  lemma SetOfStep(ids: seq<ContainerId>, i: nat)
    requires i < |ids|
    ensures SetOf(ids[..i + 1]) == SetOf(ids[..i]) + {ids[i]}
  {
    assert ids[..i + 1] == ids[..i] + [ids[i]];
  }

  /** The dictionary after the sweep has refreshed the records it looked at. */
  function RefreshAll(m: map<ContainerId, Container>, a: seq<Container>, shared: map<ContainerId, nat>, probe: ContainerId -> Probe, maxAge: real): map<ContainerId, Container>
  {
    if a == [] then m
    else
      var n := |a| - 1;
      var r := RefreshAll(m, a[..n], shared, probe, maxAge);
      if Inflight(shared, a[n].id) > 0 || Expired(a[n], probe(a[n].id).now, maxAge) then r
      else r[a[n].id := Checked(a[n], shared, probe, maxAge)]
  }

  lemma {:induction false} RefreshAllIndexes(a: seq<Container>, b: seq<Container>, shared: map<ContainerId, nat>, probe: ContainerId -> Probe, maxAge: real)
    requires Distinct(a + b)
    ensures Distinct(CheckedAll(a, shared, probe, maxAge) + b)
    ensures RefreshAll(Index(a + b), a, shared, probe, maxAge) == Index(CheckedAll(a, shared, probe, maxAge) + b)
  {
    var m := CheckedAll(a, shared, probe, maxAge);
    SameIdsDistinct(a + b, m + b);
    if a == [] {
      assert m + b == a + b;
    } else {
      var n := |a| - 1;
      var c := Checked(a[n], shared, probe, maxAge);
      assert a[..n] + ([a[n]] + b) == a + b;
      RefreshAllIndexes(a[..n], [a[n]] + b, shared, probe, maxAge);
      var before := CheckedAll(a[..n], shared, probe, maxAge) + ([a[n]] + b);
      RefreshStep(a, b, before, shared, probe, maxAge);
    }
  }

  lemma RefreshStep(a: seq<Container>, b: seq<Container>, before: seq<Container>, shared: map<ContainerId, nat>, probe: ContainerId -> Probe, maxAge: real)
    requires a != [] && Distinct(before)
    requires before == CheckedAll(a[..|a| - 1], shared, probe, maxAge) + ([a[|a| - 1]] + b)
    ensures var after := CheckedAll(a, shared, probe, maxAge) + b;
            var c := Checked(a[|a| - 1], shared, probe, maxAge);
            && Distinct(after)
            && (c == a[|a| - 1] ==> after == before)
            && Index(after) == Index(before)[c.id := c]
            && (c == a[|a| - 1] ==> Index(after) == Index(before))
  {
    var n := |a| - 1;
    var c := Checked(a[n], shared, probe, maxAge);
    assert CheckedAll(a, shared, probe, maxAge) + b == before[n := c];
    IndexUpdate(before, n, c);
  }

  lemma SameIdsDistinct(a: seq<Container>, b: seq<Container>)
    requires Distinct(a) && |a| == |b|
    requires forall i :: 0 <= i < |a| ==> a[i].id == b[i].id
    ensures Distinct(b)
  {}

  lemma SweepIndex(cfg: Config, s: PoolState, probe: ContainerId -> Probe)
    requires TableOk(s)
    ensures RefreshAll(s.all, s.available, s.shared, probe, cfg.maxAge) - SweptIds(s.available, s.shared, probe, cfg.maxAge)
         == SweepSpec(cfg, s, probe).all
  {
    var a := s.available;
    var gone := SweptIds(a, s.shared, probe, cfg.maxAge);
    var m := CheckedAll(a, s.shared, probe, cfg.maxAge);
    assert a + [] == a && m + [] == m;
    RefreshAllIndexes(a, [], s.shared, probe, cfg.maxAge);
    DistinctWithout(m, gone);
    IndexWithout(m, gone);
  }

  lemma IndexUpdate(a: seq<Container>, i: nat, c: Container)
    requires Distinct(a) && i < |a| && c.id == a[i].id
    ensures Distinct(a[i := c])
    ensures Index(a[i := c]) == Index(a)[c.id := c]
  {
    var b := a[i := c];
    SameIdsDistinct(a, b);
    IndexMembers(a);
    IndexMembers(b);
    assert b[i] in b;
    forall k | 0 <= k < |a| && k != i ensures a[k] in b && b[k] in a {
      assert a[k] == b[k];
    }
    IndexFromMembers(a, b, i, c);
  }

  lemma IndexFromMembers(a: seq<Container>, b: seq<Container>, i: nat, c: Container)
    requires Distinct(a) && Distinct(b) && i < |a| == |b| && c.id == a[i].id && b[i] == c
    requires forall k :: 0 <= k < |a| && k != i ==> a[k] == b[k]
    ensures Index(b) == Index(a)[c.id := c]
  {
    IndexMembers(a);
    IndexMembers(b);
    hide Index, Ids;
    forall id | id in Index(b) ensures id in Index(a)[c.id := c] && Index(b)[id] == Index(a)[c.id := c][id] {
      var k :| 0 <= k < |b| && b[k] == Index(b)[id];
      assert a[k] in a;
    }
    forall id | id in Index(a) ensures id in Index(b) {
      var k :| 0 <= k < |a| && a[k] == Index(a)[id];
      assert b[k] in b;
    }
  }

  lemma IndexWithout(a: seq<Container>, ids: set<ContainerId>)
    requires Distinct(a) && Distinct(Without(a, ids))
    ensures Index(Without(a, ids)) == Index(a) - ids
  {
    IndexMembers(a);
    IndexMembers(Without(a, ids));
  }

  /** The dictionary after the surplus has been removed. */
  function ShrunkAll(m: map<ContainerId, Container>, a: seq<Container>, shared: map<ContainerId, nat>, target: int): map<ContainerId, Container>
    decreases |a|
  {
    if |a| <= target then m
    else
      match LastIdle(a, shared)
      case None => m
      case Some(i) => ShrunkAll(m - {a[i].id}, RemoveAt(a, i), shared, target)
  }

  lemma {:induction false} ShrunkAllIndexes(a: seq<Container>, shared: map<ContainerId, nat>, target: int)
    requires Distinct(a)
    ensures Distinct(Shrunk(a, shared, target))
    ensures ShrunkAll(Index(a), a, shared, target) == Index(Shrunk(a, shared, target))
    decreases |a|
  {
    DistinctShrunk(a, shared, target);
    if |a| > target && LastIdle(a, shared).Some? {
      var i := LastIdle(a, shared).value;
      DistinctRemoveAt(a, i);
      ShrunkAllIndexes(RemoveAt(a, i), shared, target);
    }
  }

  lemma RemoveLastIdle(a: seq<Container>, shared: map<ContainerId, nat>)
    requires Distinct(a) && IdleOf(a, shared) != []
    ensures LastIdle(a, shared).Some?
    ensures var i := LastIdle(a, shared).value;
            var r := IdleOf(a, shared);
            && r[|r| - 1] == a[i]
            && IdleOf(RemoveAt(a, i), shared) == r[..|r| - 1]
            && Without(a, {a[i].id}) == RemoveAt(a, i)
            && Distinct(RemoveAt(a, i))
  {
    IdleOfLast(a, shared);
    var i := LastIdle(a, shared).value;
    WithoutOne(a, i);
    DistinctRemoveAt(a, i);
  }
}
