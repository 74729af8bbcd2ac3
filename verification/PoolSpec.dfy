/** The warm container pool (app/infrastructure/container_pool.py).

    Every section of the source that runs under the pool lock is one function on
    `PoolState`; the class `ContainerPool` carries out the same section in place, and each
    method is proved to produce the state its function gives. */
module PoolSpec {
  import opened Basics

  /** Docker's container ids are only ever compared for equality. */
  type ContainerId = nat

  /** A container as the pool records it (the source's PooledContainer). */
  datatype Container = Container(id: ContainerId, createdAt: real, healthy: bool, checkedAt: real)

  datatype Config = Config(poolSize: nat, minSize: nat, maxSize: nat, maxAge: real, idleShrink: real) {
    predicate Ok() { minSize <= poolSize <= maxSize }
  }

  /** What Docker and the clock answer when a sweep looks at a container. */
  datatype Probe = Probe(now: real, healthy: bool)

  datatype PoolState = PoolState(
    available: seq<Container>,
    all: map<ContainerId, Container>,
    leased: map<ContainerId, Container>,
    shared: map<ContainerId, nat>,
    target: int,
    lastDemand: real)

  /** The elastic bounds derived from the constructor's arguments. */
  function MakeConfig(poolSize: nat, minSize: Option<nat>, maxSize: Option<nat>, maxAge: real, idleShrink: real): (cfg: Config)
    ensures cfg.Ok() && cfg.poolSize == poolSize && cfg.maxAge == maxAge && cfg.idleShrink == idleShrink
    ensures cfg.minSize == poolSize || minSize == Some(cfg.minSize)
    ensures cfg.maxSize == poolSize || maxSize == Some(cfg.maxSize)
    ensures minSize.Some? && minSize.value <= poolSize ==> cfg.minSize == minSize.value
    ensures maxSize.Some? && poolSize <= maxSize.value ==> cfg.maxSize == maxSize.value
  {
    Config(poolSize,
           Min(poolSize, if minSize.Some? then minSize.value else poolSize),
           Basics.Max(poolSize, if maxSize.Some? then maxSize.value else poolSize),
           maxAge, idleShrink)
  }

  // ---------- Views of the tables ----------

  ghost predicate Distinct(a: seq<Container>) {
    forall i, j :: 0 <= i < j < |a| ==> a[i].id != a[j].id
  }

  ghost function Ids(a: seq<Container>): set<ContainerId> {
    set c | c in a :: c.id
  }

  ghost function Named(a: seq<Container>, id: ContainerId): (c: Container)
    requires id in Ids(a)
    ensures c in a && c.id == id
  {
    var c :| c in a && c.id == id;
    c
  }

  /** The dictionary that indexes a list of containers by id. */
  ghost function Index(a: seq<Container>): map<ContainerId, Container>
    requires Distinct(a)
  {
    map id | id in Ids(a) :: Named(a, id)
  }

  function Inflight(shared: map<ContainerId, nat>, id: ContainerId): nat {
    if id in shared then shared[id] else 0
  }

  predicate Expired(c: Container, now: real, maxAge: real) {
    now - c.createdAt > maxAge
  }

  predicate Usable(c: Container, now: real, maxAge: real) {
    !Expired(c, now, maxAge) && c.healthy
  }

  /** A container that may be handed out exclusively. */
  predicate Free(c: Container, shared: map<ContainerId, nat>, now: real, maxAge: real) {
    Usable(c, now, maxAge) && Inflight(shared, c.id) == 0
  }

  /** The tables agree: no id twice, the dictionary indexes the list, nothing is both pooled
      and leased, and only pooled containers carry a (positive) shared count. */
  ghost predicate TableOk(s: PoolState) {
    && Distinct(s.available)
    && s.all == Index(s.available)
    && s.all.Keys !! s.leased.Keys
    && s.shared.Keys <= s.all.Keys
    && (forall k :: k in s.shared ==> s.shared[k] >= 1)
    && (forall k :: k in s.leased ==> s.leased[k].id == k)
  }

  // ---------- The locked sections as functions ----------

  function FirstFree(a: seq<Container>, shared: map<ContainerId, nat>, now: real, maxAge: real): (r: Option<nat>)
    ensures r.Some? ==> r.value < |a| && Free(a[r.value], shared, now, maxAge)
                        && forall j :: 0 <= j < r.value ==> !Free(a[j], shared, now, maxAge)
    ensures r.None? ==> forall j :: 0 <= j < |a| ==> !Free(a[j], shared, now, maxAge)
  {
    if a == [] then None
    else if Free(a[0], shared, now, maxAge) then Some(0)
    else
      match FirstFree(a[1..], shared, now, maxAge)
      case Some(i) => Some(i + 1)
      case None => None
  }

  /** i is the first of the usable containers with the fewest shared requests, and it has
      fewer than `limit` of them. */
  ghost predicate IsLeastLoaded(a: seq<Container>, shared: map<ContainerId, nat>, now: real, maxAge: real, limit: int, i: nat) {
    && i < |a|
    && Usable(a[i], now, maxAge)
    && Inflight(shared, a[i].id) < limit
    && (forall j :: 0 <= j < |a| && Usable(a[j], now, maxAge) ==>
          && Inflight(shared, a[i].id) <= Inflight(shared, a[j].id)
          && (j < i ==> Inflight(shared, a[i].id) < Inflight(shared, a[j].id)))
  }

  ghost predicate AllFull(a: seq<Container>, shared: map<ContainerId, nat>, now: real, maxAge: real, limit: int) {
    forall j :: 0 <= j < |a| && Usable(a[j], now, maxAge) ==> Inflight(shared, a[j].id) >= limit
  }

  function LeastLoaded(a: seq<Container>, shared: map<ContainerId, nat>, now: real, maxAge: real, limit: int): (r: Option<nat>)
    ensures r.Some? ==> IsLeastLoaded(a, shared, now, maxAge, limit, r.value)
    ensures r.None? ==> AllFull(a, shared, now, maxAge, limit)
  {
    if a == [] then None
    else
      var n := |a| - 1;
      var before := LeastLoaded(a[..n], shared, now, maxAge, limit);
      if Usable(a[n], now, maxAge)
         && Inflight(shared, a[n].id) < (if before.Some? then Inflight(shared, a[before.value].id) else limit)
      then Some(n)
      else before
  }

  function ScaleUpOnMiss(cfg: Config, s: PoolState): PoolState {
    if s.target < cfg.maxSize then s.(target := s.target + 1) else s
  }

  function AcquireSpec(cfg: Config, s: PoolState, now: real): (PoolState, Option<Container>) {
    match FirstFree(s.available, s.shared, now, cfg.maxAge)
    case Some(i) =>
      var c := s.available[i];
      (s.(available := RemoveAt(s.available, i), all := s.all - {c.id},
          leased := s.leased[c.id := c], lastDemand := now), Some(c))
    case None =>
      (ScaleUpOnMiss(cfg, s.(lastDemand := now)), None)
  }

  function AcquireSharedSpec(cfg: Config, s: PoolState, limit: int, now: real): (PoolState, Option<ContainerId>) {
    match LeastLoaded(s.available, s.shared, now, cfg.maxAge, limit)
    case Some(i) =>
      var id := s.available[i].id;
      (s.(shared := s.shared[id := Inflight(s.shared, id) + 1], lastDemand := now), Some(id))
    case None =>
      (ScaleUpOnMiss(cfg, s.(lastDemand := now)), None)
  }

  function ReleaseSharedSpec(s: PoolState, id: ContainerId): PoolState {
    var n := Inflight(s.shared, id);
    if n <= 1 then s.(shared := s.shared - {id}) else s.(shared := s.shared[id := n - 1])
  }

  /** Whether `release` puts the container back rather than destroying it. */
  predicate Readmits(s: PoolState, id: ContainerId, healthy: bool) {
    id in s.leased && healthy && |s.available| < s.target
  }

  function ReleaseSpec(s: PoolState, id: ContainerId, healthy: bool, now: real): PoolState {
    if id !in s.leased then s
    else
      var t := s.(leased := s.leased - {id});
      if Readmits(s, id, healthy) then
        var c := Container(id, s.leased[id].createdAt, true, now);
        t.(available := s.available + [c], all := s.all[id := c])
      else t
  }

  function Needed(s: PoolState): nat {
    Basics.Max(0, s.target - |s.available|)
  }

  function Successes(results: seq<Option<Container>>): (made: seq<Container>)
    ensures |made| <= |results|
  {
    if results == [] then []
    else
      var n := |results| - 1;
      match results[n]
      case Some(c) => Successes(results[..n]) + [c]
      case None => Successes(results[..n])
  }

  function AddAll(m: map<ContainerId, Container>, made: seq<Container>): map<ContainerId, Container> {
    if made == [] then m
    else
      var n := |made| - 1;
      AddAll(m, made[..n])[made[n].id := made[n]]
  }

  function ReplenishSpec(s: PoolState, made: seq<Container>): PoolState {
    s.(available := s.available + made, all := AddAll(s.all, made))
  }

  /** Docker hands out ids that nothing in the pool carries. */
  ghost predicate FreshFor(s: PoolState, made: seq<Container>) {
    && Distinct(made)
    && Ids(made) !! s.all.Keys
    && Ids(made) !! s.leased.Keys
  }

  /** Whether a sweep throws the container out. */
  predicate Swept(c: Container, shared: map<ContainerId, nat>, probe: ContainerId -> Probe, maxAge: real) {
    && Inflight(shared, c.id) == 0
    && (Expired(c, probe(c.id).now, maxAge) || !probe(c.id).healthy)
  }

  /** The record of a container after the sweep has looked at it. */
  function Checked(c: Container, shared: map<ContainerId, nat>, probe: ContainerId -> Probe, maxAge: real): Container {
    if Inflight(shared, c.id) > 0 || Expired(c, probe(c.id).now, maxAge) then c
    else c.(healthy := probe(c.id).healthy, checkedAt := probe(c.id).now)
  }

  function CheckedAll(a: seq<Container>, shared: map<ContainerId, nat>, probe: ContainerId -> Probe, maxAge: real): (r: seq<Container>)
    ensures |r| == |a|
    ensures forall i :: 0 <= i < |a| ==> r[i] == Checked(a[i], shared, probe, maxAge)
  {
    seq(|a|, i requires 0 <= i < |a| => Checked(a[i], shared, probe, maxAge))
  }

  /** The list without the containers whose ids are in `ids`. */
  function Without(a: seq<Container>, ids: set<ContainerId>): (r: seq<Container>)
    ensures |r| <= |a|
    ensures forall c :: c in r <==> c in a && c.id !in ids
  {
    if a == [] then []
    else
      var n := |a| - 1;
      if a[n].id in ids then Without(a[..n], ids) else Without(a[..n], ids) + [a[n]]
  }

  function SweptIds(a: seq<Container>, shared: map<ContainerId, nat>, probe: ContainerId -> Probe, maxAge: real): (r: set<ContainerId>)
    ensures forall id :: id in r <==> exists c :: c in a && c.id == id && Swept(c, shared, probe, maxAge)
  {
    set c | c in a && Swept(c, shared, probe, maxAge) :: c.id
  }

  ghost function SweepSpec(cfg: Config, s: PoolState, probe: ContainerId -> Probe): PoolState
    requires Distinct(s.available)
  {
    var gone := SweptIds(s.available, s.shared, probe, cfg.maxAge);
    var kept := Without(CheckedAll(s.available, s.shared, probe, cfg.maxAge), gone);
    DistinctChecked(s.available, s.shared, probe, cfg.maxAge);
    DistinctWithout(CheckedAll(s.available, s.shared, probe, cfg.maxAge), gone);
    s.(available := kept, all := Index(kept))
  }

  /** The 75% high-water test of the proactive scale-up. */
  ghost predicate HighWater(s: PoolState, perContainer: int) {
    var capacity := |s.all| * Basics.Max(1, perContainer);
    |s.all| > 0 && (SumValues(s.shared) + |s.leased|) as real >= 0.75 * (capacity as real)
  }

  ghost function GrowSpec(s: PoolState, perContainer: int, now: real): PoolState {
    if HighWater(s, perContainer) then s.(target := s.target + 1, lastDemand := now) else s
  }

  predicate ShrinkDue(cfg: Config, s: PoolState, now: real) {
    now - s.lastDemand >= cfg.idleShrink && s.target > cfg.minSize
  }

  function LowerTargetSpec(cfg: Config, s: PoolState, now: real): PoolState {
    if ShrinkDue(cfg, s, now) then s.(target := s.target - 1, lastDemand := now) else s
  }

  predicate Idle(c: Container, shared: map<ContainerId, nat>) {
    Inflight(shared, c.id) == 0
  }

  function LastIdle(a: seq<Container>, shared: map<ContainerId, nat>): (r: Option<nat>)
    ensures r.Some? ==> r.value < |a| && Idle(a[r.value], shared)
                        && forall j :: r.value < j < |a| ==> !Idle(a[j], shared)
    ensures r.None? ==> forall j :: 0 <= j < |a| ==> !Idle(a[j], shared)
  {
    if a == [] then None
    else if Idle(a[|a| - 1], shared) then Some(|a| - 1)
    else LastIdle(a[..|a| - 1], shared)
  }

  /** What is left after removing idle containers from the end until `target` remain. */
  function Shrunk(a: seq<Container>, shared: map<ContainerId, nat>, target: int): (r: seq<Container>)
    ensures forall c :: c in r ==> c in a
    ensures forall c :: c in a && !Idle(c, shared) ==> c in r
    ensures |r| <= |a|
    ensures |r| <= target || forall c :: c in r ==> !Idle(c, shared)
    ensures |r| < |a| ==> |r| >= target
    decreases |a|
  {
    if |a| <= target then a
    else
      match LastIdle(a, shared)
      case None => a
      case Some(i) =>
        RemoveAtKeeps(a, i);
        Shrunk(RemoveAt(a, i), shared, target)
  }

  lemma RemoveAtKeeps(a: seq<Container>, i: nat)
    requires i < |a|
    ensures |RemoveAt(a, i)| == |a| - 1
    ensures forall c :: c in RemoveAt(a, i) ==> c in a
    ensures forall c :: c in a && c != a[i] ==> c in RemoveAt(a, i)
  {
    forall k | 0 <= k < |a| && k != i ensures a[k] in RemoveAt(a, i) {
      assert RemoveAt(a, i)[if k < i then k else k - 1] == a[k];
    }
  }

  ghost function ShrinkSpec(s: PoolState): PoolState
    requires Distinct(s.available)
  {
    DistinctShrunk(s.available, s.shared, s.target);
    var kept := Shrunk(s.available, s.shared, s.target);
    s.(available := kept, all := Index(kept))
  }

  // ---------- Lists without duplicates ----------

  lemma RemoveAtMembers(a: seq<Container>, i: nat)
    requires Distinct(a) && i < |a|
    ensures forall c :: c in RemoveAt(a, i) <==> c in a && c.id != a[i].id
  {
    var r := RemoveAt(a, i);
    forall c | c in a && c.id != a[i].id ensures c in r {
      var k :| 0 <= k < |a| && a[k] == c;
      assert r[if k < i then k else k - 1] == c;
    }
    forall c | c in r ensures c in a && c.id != a[i].id {
      var k :| 0 <= k < |r| && r[k] == c;
      assert a[if k < i then k else k + 1] == c;
    }
  }

  lemma DistinctRemoveAt(a: seq<Container>, i: nat)
    requires Distinct(a) && i < |a|
    ensures Distinct(RemoveAt(a, i))
    ensures Index(RemoveAt(a, i)) == Index(a) - {a[i].id}
    ensures forall c :: c in RemoveAt(a, i) <==> c in a && c.id != a[i].id
  {
    RemoveAtMembers(a, i);
    assert Distinct(RemoveAt(a, i));
    IndexMembers(a);
    IndexMembers(RemoveAt(a, i));
  }

  lemma IndexMembers(a: seq<Container>)
    requires Distinct(a)
    ensures Index(a).Keys == Ids(a)
    ensures forall c :: c in a ==> c.id in Index(a) && Index(a)[c.id] == c
    ensures forall id :: id in Index(a) ==> Index(a)[id] in a && Index(a)[id].id == id
  {}

  lemma {:induction false} DistinctWithout(a: seq<Container>, ids: set<ContainerId>)
    requires Distinct(a)
    ensures Distinct(Without(a, ids))
  {
    if a != [] {
      DistinctWithout(a[..|a| - 1], ids);
    }
  }

  lemma DistinctChecked(a: seq<Container>, shared: map<ContainerId, nat>, probe: ContainerId -> Probe, maxAge: real)
    requires Distinct(a)
    ensures Distinct(CheckedAll(a, shared, probe, maxAge))
  {}

  lemma {:induction false} DistinctShrunk(a: seq<Container>, shared: map<ContainerId, nat>, target: int)
    requires Distinct(a)
    ensures Distinct(Shrunk(a, shared, target))
    decreases |a|
  {
    if |a| > target && LastIdle(a, shared).Some? {
      var i := LastIdle(a, shared).value;
      DistinctRemoveAt(a, i);
      DistinctShrunk(RemoveAt(a, i), shared, target);
    }
  }

  lemma {:induction false} WithoutOne(a: seq<Container>, i: nat)
    requires Distinct(a) && i < |a|
    ensures Without(a, {a[i].id}) == RemoveAt(a, i)
  {
    var n := |a| - 1;
    if i == n {
      forall c | c in a[..n] ensures c.id !in {a[n].id} {
        var k :| 0 <= k < n && a[k] == c;
      }
      WithoutNone(a[..n], {a[n].id});
    } else {
      assert a[..n][i] == a[i];
      WithoutOne(a[..n], i);
    }
  }

  lemma {:induction false} WithoutNone(a: seq<Container>, ids: set<ContainerId>)
    requires forall c :: c in a ==> c.id !in ids
    ensures Without(a, ids) == a
  {
    if a != [] {
      WithoutNone(a[..|a| - 1], ids);
    }
  }

  lemma {:induction false} WithoutTwice(a: seq<Container>, ids: set<ContainerId>, id: ContainerId)
    ensures Without(Without(a, ids), {id}) == Without(a, ids + {id})
  {
    if a != [] {
      var n := |a| - 1;
      WithoutTwice(a[..n], ids, id);
      var w := Without(a[..n], ids);
      assert (w + [a[n]])[..|w|] == w;
    }
  }

  lemma DistinctConcat(a: seq<Container>, b: seq<Container>)
    requires Distinct(a) && Distinct(b) && Ids(a) !! Ids(b)
    ensures Distinct(a + b)
  {
    forall i, j | 0 <= i < j < |a + b| ensures (a + b)[i].id != (a + b)[j].id {
      if i < |a| <= j {
        assert a[i].id in Ids(a) && b[j - |a|].id in Ids(b);
      }
    }
  }

  lemma IndexAppend(a: seq<Container>, c: Container)
    requires Distinct(a) && Distinct(a + [c])
    ensures Index(a + [c]) == Index(a)[c.id := c]
  {
    IndexMembers(a);
    IndexMembers(a + [c]);
    assert forall d :: d in a + [c] <==> d in a || d == c;
    assert c in a + [c];
  }

  lemma {:induction false} AddAllIndexes(a: seq<Container>, made: seq<Container>)
    requires Distinct(a) && Distinct(made) && Ids(a) !! Ids(made)
    ensures Distinct(a + made)
    ensures AddAll(Index(a), made) == Index(a + made)
  {
    DistinctConcat(a, made);
    if made == [] {
      assert a + made == a;
    } else {
      var n := |made| - 1;
      assert Ids(made[..n]) <= Ids(made);
      AddAllIndexes(a, made[..n]);
      assert a + made == (a + made[..n]) + [made[n]];
      IndexAppend(a + made[..n], made[n]);
    }
  }

  // ---------- Every section keeps the tables in agreement ----------

  lemma AcquireKeepsTable(cfg: Config, s: PoolState, now: real)
    requires TableOk(s)
    ensures TableOk(AcquireSpec(cfg, s, now).0)
  {
    match FirstFree(s.available, s.shared, now, cfg.maxAge)
    case Some(i) => DistinctRemoveAt(s.available, i);
    case None =>
  }

  lemma AcquireSharedKeepsTable(cfg: Config, s: PoolState, limit: int, now: real)
    requires TableOk(s)
    ensures TableOk(AcquireSharedSpec(cfg, s, limit, now).0)
  {
    match LeastLoaded(s.available, s.shared, now, cfg.maxAge, limit)
    case Some(i) =>
      IndexMembers(s.available);
      assert s.available[i] in s.available;
    case None =>
  }

  lemma ReleaseKeepsTable(s: PoolState, id: ContainerId, healthy: bool, now: real)
    requires TableOk(s)
    ensures TableOk(ReleaseSpec(s, id, healthy, now))
  {
    if Readmits(s, id, healthy) {
      var c := Container(id, s.leased[id].createdAt, true, now);
      assert Ids(s.available) == s.all.Keys;
      assert AddAll(s.all, [c]) == s.all[id := c] by {
        assert [c][..0] == [];
      }
      AddAllIndexes(s.available, [c]);
    }
  }

  lemma ReplenishKeepsTable(s: PoolState, made: seq<Container>)
    requires TableOk(s) && FreshFor(s, made)
    ensures TableOk(ReplenishSpec(s, made))
  {
    assert Ids(s.available) == s.all.Keys;
    AddAllIndexes(s.available, made);
    assert Index(s.available + made).Keys == s.all.Keys + Ids(made);
  }

  lemma SweepKeepsTable(cfg: Config, s: PoolState, probe: ContainerId -> Probe)
    requires TableOk(s)
    ensures TableOk(SweepSpec(cfg, s, probe))
    ensures SweepSpec(cfg, s, probe).all.Keys
         == s.all.Keys - SweptIds(s.available, s.shared, probe, cfg.maxAge)
  {
    var gone := SweptIds(s.available, s.shared, probe, cfg.maxAge);
    var marked := CheckedAll(s.available, s.shared, probe, cfg.maxAge);
    var kept := Without(marked, gone);
    DistinctChecked(s.available, s.shared, probe, cfg.maxAge);
    DistinctWithout(marked, gone);
    IdsWithout(marked, gone);
    IdsChecked(s.available, s.shared, probe, cfg.maxAge);
    IndexMembers(s.available);
    IndexMembers(kept);
    forall id | id in s.shared ensures id !in gone {
      SharedNotSwept(s.available, s.shared, probe, cfg.maxAge, id);
    }
  }

  lemma SharedNotSwept(a: seq<Container>, shared: map<ContainerId, nat>, probe: ContainerId -> Probe, maxAge: real, id: ContainerId)
    requires id in shared && shared[id] >= 1
    ensures id !in SweptIds(a, shared, probe, maxAge)
  {}

  lemma IdsWithout(a: seq<Container>, ids: set<ContainerId>)
    ensures Ids(Without(a, ids)) == Ids(a) - ids
  {}

  lemma IdsChecked(a: seq<Container>, shared: map<ContainerId, nat>, probe: ContainerId -> Probe, maxAge: real)
    ensures Ids(CheckedAll(a, shared, probe, maxAge)) == Ids(a)
  {
    var m := CheckedAll(a, shared, probe, maxAge);
    forall id | id in Ids(a) ensures id in Ids(m) {
      var i :| 0 <= i < |a| && a[i].id == id;
      assert m[i] in m && m[i].id == id;
    }
    forall id | id in Ids(m) ensures id in Ids(a) {
      var i :| 0 <= i < |m| && m[i].id == id;
      assert a[i] in a && a[i].id == id;
    }
  }

  lemma ShrinkKeepsTable(s: PoolState)
    requires TableOk(s)
    ensures TableOk(ShrinkSpec(s))
    ensures ShrinkSpec(s).all.Keys <= s.all.Keys
    ensures forall id :: id in s.shared ==> id in ShrinkSpec(s).all
  {
    DistinctShrunk(s.available, s.shared, s.target);
    var kept := Shrunk(s.available, s.shared, s.target);
    forall id | id in s.shared ensures id in Index(kept) {
      assert s.all[id] in s.available;
    }
  }
}
