/** The router as the object that owns the node table (router/kerneldock_router.py).

    Node records are shared objects updated in place; every method is proved to turn the table
    into the one RouterSpec gives. */
module Router {
  import opened Basics
  import opened ResourceIds
  import opened RouterSpec
  import opened RouterRuns
  import opened Scheduler

  class NodeState {
    const name: string
    const dynamic: bool
    var url: string
    var lastHeartbeat: real
    var healthy: bool
    var failures: nat
    var activeSandboxes: int
    var poolAvailable: int
    var poolTotal: int
    var queueLoad: int
    var lastCheck: real

    function View(): Node
      reads this
    {
      Node(name, url, dynamic, lastHeartbeat, healthy, failures, activeSandboxes, poolAvailable, poolTotal, queueLoad, lastCheck)
    }

    constructor (name: string, url: string, dynamic: bool, now: real)
      ensures View() == NewNode(name, url, dynamic, now)
    {
      this.name, this.url, this.dynamic, lastHeartbeat := name, url, dynamic, now;
      healthy, failures, activeSandboxes, poolAvailable, poolTotal, queueLoad, lastCheck := false, 0, 0, 0, 0, 0, 0.0;
    }

    /** A heartbeat proves the node alive and may report its load. */
    method Beat(load: Option<Load>, now: real)
      modifies this
      ensures View() == ApplyLoad(old(View()), load, now)
    {
      healthy := true;
      failures := 0;
      lastCheck := now;
      if load.None? { return; }
      if load.value.activeSandboxes.Malformed? { return; }
      activeSandboxes := Read(load.value.activeSandboxes, activeSandboxes);
      if load.value.poolAvailable.Malformed? { return; }
      poolAvailable := Read(load.value.poolAvailable, poolAvailable);
      if load.value.poolTotal.Malformed? { return; }
      poolTotal := Read(load.value.poolTotal, poolTotal);
      if load.value.queueLoad.Malformed? { return; }
      queueLoad := Read(load.value.queueLoad, queueLoad);
    }

    method Fail(now: real)
      modifies this
      ensures View() == ProbeFailed(old(View()), now)
    {
      failures := failures + 1;
      if failures >= 2 {
        healthy := false;
      }
      lastCheck := now;
    }

    /** What a completed probe writes into the record. */
    method Probed(report: Option<Report>, now: real)
      modifies this
      ensures View() == ProbeSpec(old(View()), report, now)
    {
      if report.None? || report.value.activeSandboxes.Malformed? {
        Fail(now);
        return;
      }
      activeSandboxes := OrZero(report.value.activeSandboxes);
      if report.value.poolAvailable.Malformed? {
        Fail(now);
        return;
      }
      poolAvailable := OrZero(report.value.poolAvailable);
      if report.value.poolTotal.Malformed? {
        Fail(now);
        return;
      }
      poolTotal := OrZero(report.value.poolTotal);
      if report.value.queue.Some? {
        queueLoad := report.value.queue.value;
      }
      healthy := true;
      failures := 0;
      lastCheck := now;
    }
  }

  // ---------- Lists of node records ----------

  ghost function Views(nodes: seq<NodeState>): (r: seq<Node>)
    reads nodes
    ensures |r| == |nodes|
  {
    seq(|nodes|, i requires 0 <= i < |nodes| reads nodes => nodes[i].View())
  }

  ghost predicate Distinct(nodes: seq<NodeState>) {
    forall i, j :: 0 <= i < j < |nodes| ==> nodes[i].name != nodes[j].name
  }

  function IndexOf(nodes: seq<NodeState>, name: string): (r: Option<nat>)
    ensures r.Some? ==> r.value < |nodes| && nodes[r.value].name == name
                        && forall j :: 0 <= j < r.value ==> nodes[j].name != name
    ensures r.None? ==> forall j :: 0 <= j < |nodes| ==> nodes[j].name != name
  {
    if nodes == [] then None
    else if nodes[0].name == name then Some(0)
    else
      match IndexOf(nodes[1..], name)
      case Some(i) => Some(i + 1)
      case None => None
  }

  function WithoutNames(nodes: seq<NodeState>, names: set<string>): (r: seq<NodeState>)
    ensures forall n :: n in r ==> n in nodes
  {
    if nodes == [] then []
    else if nodes[0].name in names then WithoutNames(nodes[1..], names)
    else [nodes[0]] + WithoutNames(nodes[1..], names)
  }

  lemma {:induction false} ViewsLookup(views: seq<Node>, i: nat, name: string)
    requires i < |views| && views[i].name == name && forall j :: 0 <= j < i ==> views[j].name != name
    ensures Lookup(views, name) == Some(views[i])
    ensures forall n: Node :: n.name == name ==> Replace(views, n) == views[i := n]
  {
    if i > 0 {
      ViewsLookup(views[1..], i - 1, name);
      forall n: Node | n.name == name ensures Replace(views, n) == views[i := n] {
        assert Replace(views, n) == [views[0]] + views[1..][i - 1 := n];
      }
    }
  }

  lemma {:induction false} ViewsWithout(nodes: seq<NodeState>, names: set<string>)
    ensures Views(WithoutNames(nodes, names)) == Except(Views(nodes), names)
  {
    if nodes != [] {
      var rest := WithoutNames(nodes[1..], names);
      ViewsWithout(nodes[1..], names);
      assert Views(nodes)[1..] == Views(nodes[1..]);
      assert Views([nodes[0]] + rest) == [nodes[0].View()] + Views(rest);
    }
  }

  lemma {:induction false} WithoutDistinct(nodes: seq<NodeState>, names: set<string>)
    requires Distinct(nodes)
    ensures Distinct(WithoutNames(nodes, names))
  {
    if nodes != [] {
      WithoutDistinct(nodes[1..], names);
      var r := WithoutNames(nodes[1..], names);
      forall j | 0 <= j < |r| ensures r[j].name != nodes[0].name {
        assert r[j] in nodes[1..];
      }
    }
  }

  lemma {:induction false} WithoutTwice(nodes: seq<NodeState>, names: set<string>, name: string)
    ensures WithoutNames(WithoutNames(nodes, names), {name}) == WithoutNames(nodes, names + {name})
  {
    if nodes != [] {
      WithoutTwice(nodes[1..], names, name);
      var w := WithoutNames(nodes[1..], names);
      assert ([nodes[0]] + w)[1..] == w;
    }
  }

  lemma {:induction false} WithoutNothing(nodes: seq<NodeState>)
    ensures WithoutNames(nodes, {}) == nodes
  {
    if nodes != [] {
      WithoutNothing(nodes[1..]);
    }
  }

  lemma {:induction false} SilentNamesAppend(views: seq<Node>, n: Node, now: real, ttl: real)
    ensures SilentNames(views + [n], now, ttl)
         == SilentNames(views, now, ttl) + if Silent(n, now, ttl) then [n.name] else []
  {
    if views == [] {
      assert [] + [n] == [n];
    } else {
      assert (views + [n])[1..] == views[1..] + [n];
      SilentNamesAppend(views[1..], n, now, ttl);
    }
  }

  /** The URL table of a list of nodes. */
  function UrlsOf(nodes: seq<NodeState>): map<string, string>
    reads nodes
  {
    if nodes == [] then map[]
    else
      var n := |nodes| - 1;
      UrlsOf(nodes[..n])[nodes[n].name := nodes[n].url]
  }

  /** Every node is in it under its name, and nobody else. */
  lemma {:induction false} UrlsOfNodes(nodes: seq<NodeState>, name: string)
    requires Distinct(nodes)
    ensures name in UrlsOf(nodes) <==> IndexOf(nodes, name).Some?
    ensures name in UrlsOf(nodes) ==> UrlsOf(nodes)[name] == nodes[IndexOf(nodes, name).value].url
  {
    if nodes != [] {
      var n := |nodes| - 1;
      UrlsOfNodes(nodes[..n], name);
      FoundBefore(nodes, name);
    }
  }

  lemma FoundAt(nodes: seq<NodeState>, i: nat)
    requires Distinct(nodes) && i < |nodes|
    ensures IndexOf(nodes, nodes[i].name) == Some(i)
  {
    hide IndexOf;
  }

  lemma FoundBefore(nodes: seq<NodeState>, name: string)
    requires Distinct(nodes) && nodes != []
    ensures var n := |nodes| - 1;
            IndexOf(nodes, name) == if nodes[n].name == name then Some(n) else IndexOf(nodes[..n], name)
  {
    hide IndexOf;
    var n := |nodes| - 1;
    if nodes[n].name == name {
      FoundAt(nodes, n);
    } else if IndexOf(nodes[..n], name).Some? {
      assert nodes[..n][IndexOf(nodes[..n], name).value] == nodes[IndexOf(nodes[..n], name).value];
      FoundAt(nodes, IndexOf(nodes[..n], name).value);
    } else {
      assert forall j :: 0 <= j < n ==> nodes[..n][j] == nodes[j];
    }
  }

  /** The healthy nodes in table order. */
  ghost function Healthy(nodes: seq<NodeState>): (r: seq<NodeState>)
    reads nodes
    ensures forall n | n in r :: n in nodes && n.healthy
    ensures forall n | n in nodes :: n.healthy ==> n in r
  {
    if nodes == [] then []
    else
      var n := |nodes| - 1;
      if nodes[n].healthy then Healthy(nodes[..n]) + [nodes[n]] else Healthy(nodes[..n])
  }

  class Router {
    const ttl: real
    const hash: string -> int
    var nodes: seq<NodeState>
    var urls: map<string, string>
    var counter: int
    var registeredTotal: nat
    var expiredTotal: nat
    var unservedTotal: nat

    ghost function State(): Table
      reads this, nodes
    {
      Table(Views(nodes), urls, registeredTotal, expiredTotal)
    }

    ghost predicate Valid()
      reads this, nodes
    {
      Distinct(nodes)
    }

    constructor (statics: seq<NodeState>, ttl: real, hash: string -> int)
      requires Distinct(statics)
      ensures Valid() && nodes == statics && this.ttl == ttl && this.hash == hash
      ensures registeredTotal == 0 && expiredTotal == 0 && counter == 0
      ensures forall name :: name in urls <==> IndexOf(nodes, name).Some?
      ensures forall name :: name in urls ==> urls[name] == nodes[IndexOf(nodes, name).value].url
    {
      this.ttl, this.hash, nodes := ttl, hash, statics;
      urls := UrlsOf(statics);
      counter, registeredTotal, expiredTotal, unservedTotal := 0, 0, 0, 0;
      new;
      forall name
        ensures name in urls <==> IndexOf(nodes, name).Some?
        ensures name in urls ==> urls[name] == nodes[IndexOf(nodes, name).value].url
      {
        UrlsOfNodes(nodes, name);
      }
    }

    method AddNode(name: string, clean: string, load: Option<Load>, now: real)
      requires Valid() && forall n :: n in nodes ==> n.name != name
      modifies this
      ensures Views(nodes) == old(Views(nodes)) + [ApplyLoad(NewNode(name, clean, true, now), load, now)]
      ensures urls == old(urls)[name := clean]
      ensures registeredTotal == old(registeredTotal) + 1 && expiredTotal == old(expiredTotal)
      ensures Valid()
    {
      hide ApplyLoad;
      var node := new NodeState(name, clean, true, now);
      node.Beat(load, now);
      nodes := nodes + [node];
      urls := urls[name := clean];
      registeredTotal := registeredTotal + 1;
      assert Views(nodes) == old(Views(nodes)) + [node.View()];
    }

    method Renew(index: nat, clean: string, load: Option<Load>, now: real)
      requires Valid() && index < |nodes|
      modifies `urls, nodes[index]
      ensures Views(nodes) == old(Views(nodes))[index := ApplyLoad(old(nodes[index].View()).(lastHeartbeat := now, url := clean), load, now)]
      ensures urls == if old(nodes[index].url) != clean then old(urls)[nodes[index].name := clean] else old(urls)
    {
      hide ApplyLoad;
      var existing := nodes[index];
      existing.lastHeartbeat := now;
      if existing.url != clean {
        existing.url := clean;
        urls := urls[existing.name := clean];
      }
      existing.Beat(load, now);
      assert Views(nodes) == old(Views(nodes))[index := existing.View()];
    }

    /** Registers a new dynamic node or takes a heartbeat of a known one. */
    method RegisterNode(name: string, url: string, load: Option<Load>, now: real) returns (result: RegisterResult)
      requires Valid()
      modifies this, nodes
      ensures result == RegisterCheck(old(State()), name, url)
      ensures State() == RegisterSpec(old(State()), name, url, load, now)
      ensures Valid()
    {
      hide ApplyLoad, Lookup, Replace, IsNodeName, IsHttp, CleanUrl;
      if !IsNodeName(name) {
        return BadName;
      }
      var clean := CleanUrl(url);
      if !IsHttp(clean) {
        return BadUrl;
      }
      var index := IndexOf(nodes, name);
      if index.None? {
        NotFound(Views(nodes), name);
        AddNode(name, clean, load, now);
        return Registered(false);
      }
      ViewsLookup(Views(nodes), index.value, name);
      if !nodes[index.value].dynamic {
        return StaticConflict;
      }
      ApplyLoadKeepsIdentity(nodes[index.value].View().(lastHeartbeat := now, url := clean), load, now);
      Renew(index.value, clean, load, now);
      result := Registered(true);
    }

    method RemoveNode(name: string) returns (result: RemoveResult)
      requires Valid()
      modifies this
      ensures result == RemoveCheck(old(State()), name)
      ensures State() == RemoveSpec(old(State()), name)
      ensures Valid()
    {
      var index := IndexOf(nodes, name);
      if index.None? {
        NotFound(Views(nodes), name);
        return Unknown;
      }
      ViewsLookup(Views(nodes), index.value, name);
      if !nodes[index.value].dynamic {
        return StaticNode;
      }
      ViewsWithout(nodes, {name});
      WithoutDistinct(nodes, {name});
      nodes := WithoutNames(nodes, {name});
      urls := urls - {name};
      result := Removed;
    }

    /** The names of the dynamic nodes whose heartbeat is older than the TTL. */
    method ListSilent(now: real) returns (names: seq<string>)
      ensures names == SilentNames(Views(nodes), now, ttl)
    {
      names := [];
      ghost var views := Views(nodes);
      var i := 0;
      while i < |nodes|
        invariant 0 <= i <= |nodes|
        invariant names == SilentNames(views[..i], now, ttl)
      {
        SilentNamesAppend(views[..i], views[i], now, ttl);
        assert views[..i + 1] == views[..i] + [views[i]];
        if nodes[i].dynamic && now - nodes[i].lastHeartbeat > ttl {
          names := names + [nodes[i].name];
        }
        i := i + 1;
      }
      assert views[..i] == views;
    }

    /** Deletes the listed names from both tables, one after the other. */
    method RemoveListed(names: seq<string>)
      modifies `nodes, `urls, `expiredTotal
      ensures nodes == WithoutNames(old(nodes), NameSet(names))
      ensures urls == old(urls) - NameSet(names)
      ensures expiredTotal == old(expiredTotal) + |names|
    {
      WithoutNothing(nodes);
      var i := 0;
      assert NameSet(names[..0]) == {};
      while i < |names|
        invariant 0 <= i <= |names|
        invariant nodes == WithoutNames(old(nodes), NameSet(names[..i]))
        invariant urls == old(urls) - NameSet(names[..i])
        invariant expiredTotal == old(expiredTotal) + i
      {
        NameSetStep(names, i);
        WithoutTwice(old(nodes), NameSet(names[..i]), names[i]);
        nodes := WithoutNames(nodes, {names[i]});
        urls := urls - {names[i]};
        expiredTotal := expiredTotal + 1;
        i := i + 1;
      }
      assert names[..i] == names;
    }

    /** Removes the nodes that have been silent for longer than the TTL. */
    method ExpireDynamicNodes(now: real) returns (names: seq<string>)
      requires Valid()
      modifies `nodes, `urls, `expiredTotal
      ensures names == SilentNames(old(Views(nodes)), now, ttl)
      ensures State() == ExpireSpec(old(State()), now, ttl)
      ensures Valid()
    {
      hide NameSet, WithoutNames, Except, SilentNames;
      ghost var was := nodes;
      names := ListSilent(now);
      WithoutDistinct(nodes, NameSet(names));
      RemoveListed(names);
      ViewsWithout(was, NameSet(names));
      assert Views(was) == old(Views(nodes));
    }

    method HealthyNodes() returns (candidates: seq<NodeState>)
      ensures candidates == Healthy(nodes)
    {
      candidates := [];
      var i := 0;
      while i < |nodes|
        invariant 0 <= i <= |nodes|
        invariant candidates == Healthy(nodes[..i])
      {
        assert nodes[..i + 1][..i] == nodes[..i];
        if nodes[i].healthy {
          candidates := candidates + [nodes[i]];
        }
        i := i + 1;
      }
      assert nodes[..i] == nodes;
    }

    /** The candidates as the scheduler compares them, by queue depth or by sandboxes. */
    ghost function Candidates(ns: seq<NodeState>, bySession: bool): (r: seq<Candidate>)
      reads ns
      ensures |r| == |ns|
    {
      seq(|ns|, i requires 0 <= i < |ns| reads ns => Candidate(if bySession then ns[i].activeSandboxes else ns[i].queueLoad, hash(ns[i].name)))
    }

    /** The minimum by load and turn, the first of equals. */
    method FirstMinimum(candidates: seq<NodeState>, bySession: bool, turnCounter: int) returns (best: nat)
      requires candidates != []
      ensures best < |candidates| && best == Pick(Candidates(candidates, bySession), turnCounter)
    {
      ghost var cs := Candidates(candidates, bySession);
      var k := |candidates|;
      best := 0;
      var i := 1;
      while i < k
        invariant 1 <= i <= k
        invariant 0 <= best < i && best == PickUpTo(cs, turnCounter, i)
      {
        var load, bestLoad := candidates[i].queueLoad, candidates[best].queueLoad;
        if bySession {
          load, bestLoad := candidates[i].activeSandboxes, candidates[best].activeSandboxes;
        }
        var turn := (hash(candidates[i].name) + turnCounter) % k;
        var bestTurn := (hash(candidates[best].name) + turnCounter) % k;
        if load < bestLoad || (load == bestLoad && turn < bestTurn) {
          best := i;
        }
        i := i + 1;
      }
    }

    /** `pick_for_stateless` and, with bySession, `pick_for_session`. */
    method PickNode(bySession: bool) returns (chosen: NodeState?)
      modifies `counter, `unservedTotal
      ensures chosen == null <==> forall n :: n in nodes ==> !n.healthy
      ensures chosen == null ==> counter == old(counter) && unservedTotal == old(unservedTotal) + 1
      ensures chosen != null ==>
                var candidates := Healthy(nodes);
                && counter == old(counter) + 1 && unservedTotal == old(unservedTotal)
                && candidates != []
                && chosen == candidates[Pick(Candidates(candidates, bySession), counter)]
                && chosen in nodes && chosen.healthy
      ensures chosen != null ==>
                forall n | n in nodes && n.healthy ::
                  var least, other := if bySession then chosen.activeSandboxes else chosen.queueLoad,
                                      if bySession then n.activeSandboxes else n.queueLoad;
                  && least <= other
                  && (least == other ==>
                        (hash(chosen.name) + counter) % |Healthy(nodes)| <= (hash(n.name) + counter) % |Healthy(nodes)|)
    {
      hide Pick, Candidates;
      var candidates := HealthyNodes();
      if candidates == [] {
        unservedTotal := unservedTotal + 1;
        return null;
      }
      assert candidates[0] in candidates;
      counter := counter + 1;
      var best := FirstMinimum(candidates, bySession, counter);
      chosen := candidates[best];
      assert chosen in candidates;
      PickedLeast(candidates, bySession, counter);
    }

    /** The pick compared with every candidate. */
    lemma PickedLeast(candidates: seq<NodeState>, bySession: bool, turnCounter: int)
      requires candidates != []
      ensures var chosen := candidates[Pick(Candidates(candidates, bySession), turnCounter)];
              forall n | n in candidates ::
                var least, other := if bySession then chosen.activeSandboxes else chosen.queueLoad,
                                    if bySession then n.activeSandboxes else n.queueLoad;
                && least <= other
                && (least == other ==>
                      (hash(chosen.name) + turnCounter) % |candidates| <= (hash(n.name) + turnCounter) % |candidates|)
    {
      var cs := Candidates(candidates, bySession);
      var best := Pick(cs, turnCounter);
      hide Pick;
      forall n | n in candidates
        ensures !Before(Candidate(if bySession then n.activeSandboxes else n.queueLoad, hash(n.name)), cs[best], turnCounter, |cs|)
      {
        var j :| 0 <= j < |candidates| && candidates[j] == n;
        assert !Before(cs[j], cs[best], turnCounter, |cs|);
      }
    }

    /** Where a request for the id goes: the record, or null, and the id to forward. */
    method RouteByPrefix(id: string) returns (node: NodeState?, raw: string)
      ensures raw == Route(State(), id).1
      ensures node == null <==> Route(State(), id).0.None?
      ensures node != null ==> node in nodes && Route(State(), id).0 == Some(node.View())
    {
      var (name, rest) := SplitPrefixedId(id, urls.Keys);
      raw := rest;
      if name.None? {
        return null, raw;
      }
      var index := IndexOf(nodes, name.value);
      if index.None? {
        NotFound(Views(nodes), name.value);
        return null, raw;
      }
      ViewsLookup(Views(nodes), index.value, name.value);
      node := nodes[index.value];
    }
  }

  lemma NotFound(views: seq<Node>, name: string)
    requires forall i :: 0 <= i < |views| ==> views[i].name != name
    ensures Lookup(views, name) == None
  {}

  lemma NameSetStep(names: seq<string>, i: nat)
    requires i < |names|
    ensures NameSet(names[..i + 1]) == NameSet(names[..i]) + {names[i]}
  {
    assert names[..i + 1] == names[..i] + [names[i]];
  }
}
