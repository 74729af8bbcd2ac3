/** What each locked section of the container pool does, said of the fields themselves
    (app/infrastructure/container_pool.py). */
module PoolSections {
  import opened Basics
  import opened PoolSpec

  // ---------- Handing out ----------

  /** How many requests share the container. */
  function UsersOf(s: PoolState, i: nat): nat
    requires i < |s.available|
  {
    if s.available[i].id in s.shared then s.shared[s.available[i].id] else 0
  }

  /** Not too old, and not known to be unhealthy. */
  predicate Fit(cfg: Config, s: PoolState, now: real, i: nat)
    requires i < |s.available|
  {
    now <= s.available[i].createdAt + cfg.maxAge && s.available[i].healthy
  }

  /** A miss asks for one container more, up to the maximum. */
  predicate Missed(cfg: Config, s: PoolState, now: real, t: PoolState) {
    t == s.(target := if s.target < cfg.maxSize then s.target + 1 else s.target, lastDemand := now)
  }

  /** An exclusive request gets the first container that is fit and in nobody's use, which moves
      to the leases; if there is none, that is a miss. */
  lemma AcquireExactly(cfg: Config, s: PoolState, now: real)
    requires TableOk(s)
    ensures var (t, c) := AcquireSpec(cfg, s, now);
            && (c.None? ==>
                  && Missed(cfg, s, now, t)
                  && forall i :: 0 <= i < |s.available| ==> !(Fit(cfg, s, now, i) && UsersOf(s, i) == 0))
            && (c.Some? ==>
                  && t == s.(available := t.available, all := s.all - {c.value.id},
                             leased := s.leased[c.value.id := c.value], lastDemand := now)
                  && exists i :: 0 <= i < |s.available|
                       && s.available[i] == c.value && t.available == s.available[..i] + s.available[i + 1..]
                       && Fit(cfg, s, now, i) && UsersOf(s, i) == 0
                       && forall j :: 0 <= j < i ==> !(Fit(cfg, s, now, j) && UsersOf(s, j) == 0))
  {
    hide TableOk;
    match FirstFree(s.available, s.shared, now, cfg.maxAge)
    case Some(i) => assert Free(s.available[i], s.shared, now, cfg.maxAge);
    case None =>
  }

  /** A sharing request is counted on the first of the fit containers that fewest requests share,
      if those are fewer than the limit; otherwise that is a miss. */
  lemma AcquireSharedExactly(cfg: Config, s: PoolState, limit: int, now: real)
    ensures var (t, id) := AcquireSharedSpec(cfg, s, limit, now);
            && (id.None? ==>
                  && Missed(cfg, s, now, t)
                  && forall i :: 0 <= i < |s.available| && Fit(cfg, s, now, i) ==> UsersOf(s, i) >= limit)
            && (id.Some? ==>
                  && t == s.(shared := t.shared, lastDemand := now)
                  && exists i :: 0 <= i < |s.available|
                       && s.available[i].id == id.value && t.shared == s.shared[id.value := UsersOf(s, i) + 1]
                       && Fit(cfg, s, now, i) && UsersOf(s, i) < limit
                       && forall j :: 0 <= j < |s.available| && Fit(cfg, s, now, j) ==>
                            UsersOf(s, i) <= UsersOf(s, j) && (j < i ==> UsersOf(s, i) < UsersOf(s, j)))
  {
    match LeastLoaded(s.available, s.shared, now, cfg.maxAge, limit)
    case Some(i) =>
      assert IsLeastLoaded(s.available, s.shared, now, cfg.maxAge, limit, i);
      assert UsersOf(s, i) == Inflight(s.shared, s.available[i].id);
    case None =>
  }

  // ---------- Giving back ----------

  /** A container comes back into the pool exactly if it was leased, its probe is good and there
      is room; then at the end of the list, as old as it was. In every case its lease ends. */
  lemma ReleaseExactly(s: PoolState, id: ContainerId, healthy: bool, now: real)
    requires TableOk(s)
    ensures var t := ReleaseSpec(s, id, healthy, now);
            && (id !in s.leased ==> t == s)
            && (id in s.leased ==> t == s.(available := t.available, all := t.all, leased := s.leased - {id}))
            && (id in s.leased && (!healthy || |s.available| >= s.target) ==>
                  t.available == s.available && t.all == s.all && id !in t.all)
            && (id in s.leased && healthy && |s.available| < s.target ==>
                  var c := Container(id, s.leased[id].createdAt, true, now);
                  t.available == s.available + [c] && t.all == s.all[id := c])
  {}

  /** One sharing request less on the container; nobody else is counted differently. */
  lemma ReleaseSharedExactly(s: PoolState, id: ContainerId, k: ContainerId)
    requires TableOk(s)
    ensures var t := ReleaseSharedSpec(s, id);
            && t == s.(shared := t.shared)
            && (k != id ==> (k in t.shared <==> k in s.shared) && (k in s.shared ==> t.shared[k] == s.shared[k]))
            && (id in t.shared <==> id in s.shared && s.shared[id] > 1)
            && (id in t.shared ==> t.shared[id] + 1 == s.shared[id])
  {}

  // ---------- Filling up ----------

  /** Of the attempts to create a container the successful ones deliver theirs, in order. */
  lemma SuccessesExactly(a: seq<Option<Container>>, r: Option<Container>)
    ensures Successes(a + [r]) == if r.Some? then Successes(a) + [r.value] else Successes(a)
    ensures Successes([]) == []
  {
    assert (a + [r])[..|a|] == a;
  }

  lemma {:induction false} AllSucceed(results: seq<Option<Container>>)
    requires forall i :: 0 <= i < |results| ==> results[i].Some?
    ensures |Successes(results)| == |results|
    ensures forall i :: 0 <= i < |results| ==> Successes(results)[i] == results[i].value
  {
    if results != [] {
      AllSucceed(results[..|results| - 1]);
    }
  }

  lemma ReplenishKeys(s: PoolState, made: seq<Container>)
    requires TableOk(s) && FreshFor(s, made)
    ensures ReplenishSpec(s, made).all.Keys == s.all.Keys + Ids(made)
  {
    ReplenishKeepsTable(s, made);
    IndexMembers(s.available);
    IndexMembers(s.available + made);
    assert Ids(s.available + made) == Ids(s.available) + Ids(made);
  }

  /** When every attempt succeeds the pool holds as many containers as its target says, or as it
      held before if those were more. */
  lemma ReplenishFills(s: PoolState, results: seq<Option<Container>>)
    requires |results| == Needed(s) && TableOk(s) && FreshFor(s, Successes(results))
    ensures var t := ReplenishSpec(s, Successes(results));
            && t == s.(available := s.available + Successes(results), all := t.all)
            && t.all.Keys == s.all.Keys + Ids(Successes(results))
            && |t.available| <= Basics.Max(s.target, |s.available|)
            && ((forall i :: 0 <= i < |results| ==> results[i].Some?) ==> |t.available| == Basics.Max(s.target, |s.available|))
  {
    ReplenishKeys(s, Successes(results));
    hide TableOk, FreshFor, AddAll, Ids, Successes;
    if forall i :: 0 <= i < |results| ==> results[i].Some? {
      AllSucceed(results);
    }
  }

  // ---------- Throwing out ----------

  function IdsOf(a: seq<Container>): (r: seq<ContainerId>)
    ensures |r| == |a| && forall i :: 0 <= i < |a| ==> r[i] == a[i].id
  {
    seq(|a|, i requires 0 <= i < |a| => a[i].id)
  }

  lemma IdsAppend(a: seq<Container>, c: Container)
    ensures IdsOf(a + [c]) == IdsOf(a) + [c.id]
  {}

  lemma WithoutLast(a: seq<Container>, c: Container, gone: set<ContainerId>)
    ensures IdsOf(Without(a + [c], gone)) == IdsOf(Without(a, gone)) + if c.id in gone then [] else [c.id]
  {
    assert (a + [c])[..|a|] == a;
  }

  lemma {:induction false} WithoutOrder(a: seq<Container>, gone: set<ContainerId>, kept: set<ContainerId>)
    requires forall c :: c in a ==> (c.id in kept <==> c.id !in gone)
    ensures IdsOf(Without(a, gone)) == Select(IdsOf(a), kept)
  {
    if a != [] {
      var front, last := a[..|a| - 1], a[|a| - 1];
      assert a == front + [last] && last in a;
      hide *;
      WithoutOrder(front, gone, kept);
      IdsAppend(front, last);
      SelectLast(IdsOf(front), last.id, kept);
      WithoutLast(front, last, gone);
    }
  }

  /** A sweep throws out exactly the containers nobody shares that are too old or fail their
      probe. Those it keeps stay in order; a shared one is left as it is, any other is marked
      healthy as of now. */
  lemma SweepExactly(cfg: Config, s: PoolState, probe: ContainerId -> Probe, c: Container)
    requires TableOk(s) && c in s.available
    ensures var t := SweepSpec(cfg, s, probe);
            var young := probe(c.id).now <= c.createdAt + cfg.maxAge;
            && t == s.(available := t.available, all := t.all)
            && (c.id in t.all <==> c.id in s.shared || (young && probe(c.id).healthy))
            && (c.id in t.all ==> t.all[c.id] == if c.id in s.shared then c else c.(healthy := true, checkedAt := probe(c.id).now))
            && IdsOf(t.available) == Select(IdsOf(s.available), t.all.Keys)
  {
    SweptExactly(cfg, s, probe, c);
    SweepKeepsTable(cfg, s, probe);
    SweepOrder(cfg, s, probe);
    IndexMembers(s.available);
    hide Swept, SweptIds, Without, CheckedAll, Select, IdsOf, Index;
    if c.id in SweepSpec(cfg, s, probe).all {
      MarkedRecord(cfg, s, probe, c);
    }
  }

  lemma SweepOrder(cfg: Config, s: PoolState, probe: ContainerId -> Probe)
    requires TableOk(s)
    ensures var t := SweepSpec(cfg, s, probe); IdsOf(t.available) == Select(IdsOf(s.available), t.all.Keys)
  {
    SweepKeepsTable(cfg, s, probe);
    var t := SweepSpec(cfg, s, probe);
    var gone := SweptIds(s.available, s.shared, probe, cfg.maxAge);
    var marked := CheckedAll(s.available, s.shared, probe, cfg.maxAge);
    assert IdsOf(marked) == IdsOf(s.available);
    IdsChecked(s.available, s.shared, probe, cfg.maxAge);
    IndexMembers(s.available);
    hide SweptIds, CheckedAll, NoDup, Select;
    forall m | m in marked ensures m.id in t.all.Keys <==> m.id !in gone {
      assert m.id in Ids(marked);
    }
    WithoutOrder(marked, gone, t.all.Keys);
  }

  lemma SweptExactly(cfg: Config, s: PoolState, probe: ContainerId -> Probe, c: Container)
    requires TableOk(s) && c in s.available
    ensures c.id in SweptIds(s.available, s.shared, probe, cfg.maxAge)
            <==> c.id !in s.shared && !(probe(c.id).now <= c.createdAt + cfg.maxAge && probe(c.id).healthy)
  {
    assert forall d :: d in s.available && d.id == c.id ==> d == c;
    assert Swept(c, s.shared, probe, cfg.maxAge)
           <==> c.id !in s.shared && !(probe(c.id).now <= c.createdAt + cfg.maxAge && probe(c.id).healthy);
  }

  lemma MarkedRecord(cfg: Config, s: PoolState, probe: ContainerId -> Probe, c: Container)
    requires TableOk(s) && c in s.available && c.id in SweepSpec(cfg, s, probe).all
    requires c.id in s.shared || (probe(c.id).now <= c.createdAt + cfg.maxAge && probe(c.id).healthy)
    ensures SweepSpec(cfg, s, probe).all[c.id] == if c.id in s.shared then c else c.(healthy := true, checkedAt := probe(c.id).now)
  {
    var marked := CheckedAll(s.available, s.shared, probe, cfg.maxAge);
    var gone := SweptIds(s.available, s.shared, probe, cfg.maxAge);
    hide SweptIds, Swept;
    DistinctChecked(s.available, s.shared, probe, cfg.maxAge);
    DistinctWithout(marked, gone);
    IndexMembers(Without(marked, gone));
    hide Without;
    var r := Index(Without(marked, gone))[c.id];
    CheckedRecord(s, probe, cfg.maxAge, r, c);
  }

  lemma CheckedRecord(s: PoolState, probe: ContainerId -> Probe, maxAge: real, r: Container, c: Container)
    requires Distinct(s.available) && c in s.available && r in CheckedAll(s.available, s.shared, probe, maxAge) && r.id == c.id
    ensures r == Checked(c, s.shared, probe, maxAge)
  {
    var marked := CheckedAll(s.available, s.shared, probe, maxAge);
    var k :| 0 <= k < |marked| && marked[k] == r;
    assert s.available[k].id == c.id && s.available[k] in s.available;
    assert s.available[k] == c;
  }

  /** The positions behind i at which nobody shares the container. */
  function IdleBehind(a: seq<Container>, shared: map<ContainerId, nat>, i: nat): set<nat> {
    set j: nat | i < j < |a| && a[j].id !in shared
  }

  lemma OneLessBehind(a: seq<Container>, shared: map<ContainerId, nat>, i: nat, k: nat)
    requires i < k < |a| && a[k].id !in shared && forall j :: k < j < |a| ==> a[j].id in shared
    ensures |IdleBehind(RemoveAt(a, k), shared, i)| == |IdleBehind(a, shared, i)| - 1
  {
    assert IdleBehind(RemoveAt(a, k), shared, i) == IdleBehind(a, shared, i) - {k};
    assert k in IdleBehind(a, shared, i);
  }

  lemma IdleByCount(c: Container, shared: map<ContainerId, nat>)
    requires forall k :: k in shared ==> shared[k] >= 1
    ensures Idle(c, shared) <==> c.id !in shared
  {}

  lemma {:induction false} ShrunkExactly(a: seq<Container>, shared: map<ContainerId, nat>, target: int, i: nat)
    requires Distinct(a) && i < |a| && (forall k :: k in shared ==> shared[k] >= 1)
    ensures a[i] in Shrunk(a, shared, target) <==> a[i].id in shared || |a| - target <= |IdleBehind(a, shared, i)|
    decreases |a|
  {
    forall c ensures Idle(c, shared) <==> c.id !in shared {
      IdleByCount(c, shared);
    }
    hide Idle, Distinct;
    if |a| > target && a[i].id !in shared {
      var k := LastIdle(a, shared).value;
      var rest := RemoveAt(a, k);
      DistinctRemoveAt(a, k);
      if i == k {
        assert IdleBehind(a, shared, i) == {};
        assert a[i] !in rest;
      } else {
        hide IdleBehind;
        OneLessBehind(a, shared, i, k);
        ShrunkExactly(rest, shared, target, i);
      }
    }
  }

  /** Removing the surplus takes the last of the containers nobody shares, as many as the pool is
      above its target or all of them; what stays is unchanged and in order. */
  lemma ShrinkExactly(s: PoolState, i: nat)
    requires TableOk(s) && i < |s.available|
    ensures var t := ShrinkSpec(s);
            var c := s.available[i];
            && t == s.(available := t.available, all := t.all)
            && (c.id in t.all <==> c.id in s.shared || |s.available| - s.target <= |IdleBehind(s.available, s.shared, i)|)
            && (c.id in t.all ==> t.all[c.id] == c)
            && IdsOf(t.available) == Select(IdsOf(s.available), t.all.Keys)
  {
    var t := ShrinkSpec(s);
    ShrunkExactly(s.available, s.shared, s.target, i);
    DistinctShrunk(s.available, s.shared, s.target);
    IndexMembers(t.available);
    IndexMembers(s.available);
    ShrunkOrder(s.available, s.shared, s.target);
    assert s.available[i] in s.available;
    assert forall d :: d in s.available && d.id == s.available[i].id ==> d == s.available[i];
  }

  lemma {:induction false} ShrunkOrder(a: seq<Container>, shared: map<ContainerId, nat>, target: int)
    requires Distinct(a)
    ensures IdsOf(Shrunk(a, shared, target)) == Select(IdsOf(a), Ids(Shrunk(a, shared, target)))
    decreases |a|
  {
    hide NoDup;
    var kept := Ids(Shrunk(a, shared, target));
    if |a| > target && LastIdle(a, shared).Some? {
      var k := LastIdle(a, shared).value;
      var rest := RemoveAt(a, k);
      DistinctRemoveAt(a, k);
      ShrunkOrder(rest, shared, target);
      assert a[k].id !in kept;
      RemovedId(a, k, kept);
    } else {
      forall id | id in IdsOf(a) ensures id in kept {
        var i :| 0 <= i < |a| && a[i].id == id;
      }
      SelectAll(IdsOf(a), kept);
    }
  }

  lemma RemovedId(a: seq<Container>, k: nat, kept: set<ContainerId>)
    requires k < |a| && a[k].id !in kept
    ensures Select(IdsOf(RemoveAt(a, k)), kept) == Select(IdsOf(a), kept)
  {
    hide Select, NoDup;
    var front, back := IdsOf(a[..k]), IdsOf(a[k + 1..]);
    assert IdsOf(a) == front + ([a[k].id] + back);
    assert IdsOf(RemoveAt(a, k)) == front + back;
    SelectPlus(front, [a[k].id] + back, kept);
    SelectPlus([a[k].id], back, kept);
    SelectPlus(front, back, kept);
    SelectNone(a[k].id, kept);
    assert [] + Select(back, kept) == Select(back, kept);
  }

  lemma SelectNone(id: ContainerId, kept: set<ContainerId>)
    requires id !in kept
    ensures Select([id], kept) == []
  {
    assert [id][..0] == [];
  }
}
