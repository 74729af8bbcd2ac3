/** The node table after any sequence of registrations, heartbeats, removals, sweeps and
    probes (router/kerneldock_router.py). */
module RouterRuns {
  import opened Basics
  import opened ResourceIds
  import opened RouterSpec

  datatype Event =
    | Register(name: string, url: string, load: Option<Load>, now: real)
    | Remove(name: string)
    | Expire(now: real)
    | Probe(name: string, report: Option<Report>, now: real)

  /** Only static nodes are probed; dynamic ones send heartbeats. */
  function Apply(t: Table, ttl: real, e: Event): Table {
    match e
    case Register(name, url, load, now) => RegisterSpec(t, name, url, load, now)
    case Remove(name) => RemoveSpec(t, name)
    case Expire(now) => ExpireSpec(t, now, ttl)
    case Probe(name, report, now) =>
      match Lookup(t.nodes, name)
      case None => t
      case Some(n) => if n.dynamic then t else t.(nodes := Replace(t.nodes, ProbeSpec(n, report, now)))
  }

  /** The table after the events, starting from the static configuration. */
  function Run(start: Table, ttl: real, log: seq<Event>): Table {
    if log == [] then start
    else Apply(Run(start, ttl, log[..|log| - 1]), ttl, log[|log| - 1])
  }

  /** A table as the constructor builds it: static nodes only. */
  ghost predicate IsStart(t: Table) {
    && Agree(t)
    && t.registered == 0 && t.expired == 0
    && forall n :: n in t.nodes ==> n == NewNode(n.name, n.url, false, n.lastHeartbeat)
  }

  ghost predicate DistinctNames(nodes: seq<Node>) {
    forall i, j :: 0 <= i < j < |nodes| ==> nodes[i].name != nodes[j].name
  }

  /** Both tables know the same names and the same URLs. */
  ghost predicate Agree(t: Table) {
    && DistinctNames(t.nodes)
    && (forall name :: name in t.urls <==> Lookup(t.nodes, name).Some?)
    && (forall name :: name in t.urls ==> t.urls[name] == Lookup(t.nodes, name).value.url)
  }

  // ---------- Lookup after each operation ----------

  lemma {:induction false} LookupAppend(nodes: seq<Node>, node: Node, name: string)
    ensures Lookup(nodes + [node], name)
         == if Lookup(nodes, name).Some? then Lookup(nodes, name) else if node.name == name then Some(node) else None
  {
    if nodes == [] {
      assert [] + [node] == [node];
    } else {
      assert (nodes + [node])[1..] == nodes[1..] + [node];
      LookupAppend(nodes[1..], node, name);
    }
  }

  lemma {:induction false} LookupReplace(nodes: seq<Node>, node: Node, name: string)
    ensures Lookup(Replace(nodes, node), name)
         == if name == node.name && Lookup(nodes, name).Some? then Some(node) else Lookup(nodes, name)
  {
    if nodes != [] && nodes[0].name != node.name {
      LookupReplace(nodes[1..], node, name);
      assert ([nodes[0]] + Replace(nodes[1..], node))[1..] == Replace(nodes[1..], node);
    }
  }

  lemma {:induction false} LookupExcept(nodes: seq<Node>, names: set<string>, name: string)
    ensures Lookup(Except(nodes, names), name) == if name in names then None else Lookup(nodes, name)
  {
    if nodes != [] {
      LookupExcept(nodes[1..], names, name);
      var rest := Except(nodes[1..], names);
      assert ([nodes[0]] + rest)[1..] == rest;
    }
  }

  lemma {:induction false} ReplaceNames(nodes: seq<Node>, node: Node)
    ensures forall i :: 0 <= i < |nodes| ==> Replace(nodes, node)[i].name == nodes[i].name
  {
    if nodes != [] && nodes[0].name != node.name {
      ReplaceNames(nodes[1..], node);
    }
  }

  lemma {:induction false} ExceptDistinct(nodes: seq<Node>, names: set<string>)
    requires DistinctNames(nodes)
    ensures DistinctNames(Except(nodes, names))
  {
    if nodes != [] {
      var rest := nodes[1..];
      assert forall i :: 0 <= i < |rest| ==> rest[i] == nodes[i + 1];
      ExceptDistinct(rest, names);
      var r := Except(rest, names);
      forall j | 0 <= j < |r| ensures r[j].name != nodes[0].name {
        assert r[j] in rest;
        var k :| 0 <= k < |rest| && rest[k] == r[j];
        assert nodes[k + 1] == r[j];
      }
    }
  }

  /** Among distinct names a node is found by its own name. */
  lemma {:induction false} LookupMember(nodes: seq<Node>, n: Node)
    requires DistinctNames(nodes) && n in nodes
    ensures Lookup(nodes, n.name) == Some(n)
  {
    if nodes[0] != n {
      var k :| 0 <= k < |nodes| && nodes[k] == n;
      assert nodes[0].name != nodes[k].name;
      assert forall i :: 0 <= i < |nodes[1..]| ==> nodes[1..][i] == nodes[i + 1];
      LookupMember(nodes[1..], n);
    }
  }

  lemma {:induction false} SilentNamesAre(nodes: seq<Node>, now: real, ttl: real)
    ensures forall n :: n in nodes && Silent(n, now, ttl) ==> n.name in SilentNames(nodes, now, ttl)
    ensures forall name :: name in SilentNames(nodes, now, ttl) ==>
              exists n :: n in nodes && n.name == name && Silent(n, now, ttl)
  {
    if nodes != [] {
      SilentNamesAre(nodes[1..], now, ttl);
    }
  }

  lemma SilentByLookup(nodes: seq<Node>, now: real, ttl: real, name: string)
    requires DistinctNames(nodes)
    ensures name in NameSet(SilentNames(nodes, now, ttl))
            <==> Lookup(nodes, name).Some? && Silent(Lookup(nodes, name).value, now, ttl)
  {
    SilentNamesAre(nodes, now, ttl);
    if name in SilentNames(nodes, now, ttl) {
      var n :| n in nodes && n.name == name && Silent(n, now, ttl);
      LookupMember(nodes, n);
    }
  }

  lemma ApplyLoadKeepsIdentity(node: Node, load: Option<Load>, now: real)
    ensures var n := ApplyLoad(node, load, now);
            && n.name == node.name && n.url == node.url && n.dynamic == node.dynamic
            && n.lastHeartbeat == node.lastHeartbeat && n.healthy
  {}

  lemma ProbeKeepsIdentity(node: Node, report: Option<Report>, now: real)
    ensures var n := ProbeSpec(node, report, now);
            n.name == node.name && n.url == node.url && n.dynamic == node.dynamic && n.lastHeartbeat == node.lastHeartbeat
  {}

  // ---------- One event, one name ----------

  /** Whether a registration of a name that is not static is accepted. */
  predicate IsBeat(e: Event, name: string) {
    e.Register? && e.name == name && IsNodeName(name) && IsHttp(CleanUrl(e.url))
  }

  /** An event that ends the entry last beaten at time `beat`. */
  predicate Ends(e: Event, name: string, beat: real, ttl: real) {
    || (e.Remove? && e.name == name)
    || (e.Expire? && e.now - beat > ttl)
  }

  /** What one event does to the entry of a name. */
  ghost predicate EntryStep(before: Option<Node>, after: Option<Node>, e: Event, name: string, ttl: real) {
    if before.Some? && !before.value.dynamic then
      after.Some? && !after.value.dynamic && after.value.url == before.value.url
    else if IsBeat(e, name) then
      && after.Some? && after.value.dynamic && after.value.lastHeartbeat == e.now && after.value.url == CleanUrl(e.url)
    else if before.Some? && Ends(e, name, before.value.lastHeartbeat, ttl) then
      after.None?
    else if before.Some? then
      && after.Some? && after.value.dynamic
      && after.value.lastHeartbeat == before.value.lastHeartbeat && after.value.url == before.value.url
    else
      after.None?
  }

  lemma RegisterEntry(t: Table, ttl: real, e: Event, name: string)
    requires e.Register?
    ensures EntryStep(Lookup(t.nodes, name), Lookup(Apply(t, ttl, e).nodes, name), e, name, ttl)
  {
    match RegisterCheck(t, e.name, e.url)
    case Registered(false) =>
      var node := NewNode(e.name, CleanUrl(e.url), true, e.now);
      ApplyLoadKeepsIdentity(node, e.load, e.now);
      LookupAppend(t.nodes, ApplyLoad(node, e.load, e.now), name);
    case Registered(true) =>
      var node := Lookup(t.nodes, e.name).value.(lastHeartbeat := e.now, url := CleanUrl(e.url));
      ApplyLoadKeepsIdentity(node, e.load, e.now);
      LookupReplace(t.nodes, ApplyLoad(node, e.load, e.now), name);
    case _ =>
  }

  lemma EntryAfter(t: Table, ttl: real, e: Event, name: string)
    requires DistinctNames(t.nodes)
    ensures EntryStep(Lookup(t.nodes, name), Lookup(Apply(t, ttl, e).nodes, name), e, name, ttl)
  {
    match e
    case Register(_, _, _, _) => RegisterEntry(t, ttl, e, name);
    case Remove(other) => LookupExcept(t.nodes, {other}, name);
    case Expire(now) =>
      SilentByLookup(t.nodes, now, ttl, name);
      LookupExcept(t.nodes, NameSet(SilentNames(t.nodes, now, ttl)), name);
    case Probe(other, report, now) =>
      if Lookup(t.nodes, other).Some? {
        var n := Lookup(t.nodes, other).value;
        ProbeKeepsIdentity(n, report, now);
        LookupReplace(t.nodes, ProbeSpec(n, report, now), name);
      }
  }

  lemma DistinctAfter(t: Table, ttl: real, e: Event)
    requires DistinctNames(t.nodes)
    ensures DistinctNames(Apply(t, ttl, e).nodes)
  {
    match e
    case Register(name, url, load, now) =>
      if RegisterCheck(t, name, url) == Registered(true) {
        var node := Lookup(t.nodes, name).value.(lastHeartbeat := now, url := CleanUrl(url));
        ReplaceNames(t.nodes, ApplyLoad(node, load, now));
      } else if RegisterCheck(t, name, url) == Registered(false) {
        ApplyLoadKeepsIdentity(NewNode(name, CleanUrl(url), true, now), load, now);
      }
    case Remove(name) => ExceptDistinct(t.nodes, {name});
    case Expire(now) => ExceptDistinct(t.nodes, NameSet(SilentNames(t.nodes, now, ttl)));
    case Probe(name, report, now) =>
      if Lookup(t.nodes, name).Some? {
        ReplaceNames(t.nodes, ProbeSpec(Lookup(t.nodes, name).value, report, now));
      }
  }

  /** What one event does to the URL table. */
  lemma UrlsAfter(t: Table, ttl: real, e: Event, name: string)
    requires DistinctNames(t.nodes)
    requires name in t.urls <==> Lookup(t.nodes, name).Some?
    requires name in t.urls ==> t.urls[name] == Lookup(t.nodes, name).value.url
    ensures var u := Apply(t, ttl, e);
            && (name in u.urls <==> Lookup(u.nodes, name).Some?)
            && (name in u.urls ==> u.urls[name] == Lookup(u.nodes, name).value.url)
  {
    hide ApplyLoad, ProbeSpec, CleanUrl, IsHttp, IsNodeName, DistinctNames, Silent;
    EntryAfter(t, ttl, e, name);
    match e
    case Expire(now) =>
      SilentByLookup(t.nodes, now, ttl, name);
      LookupExcept(t.nodes, NameSet(SilentNames(t.nodes, now, ttl)), name);
    case Remove(other) => LookupExcept(t.nodes, {other}, name);
    case _ =>
  }

  lemma AgreeAfter(t: Table, ttl: real, e: Event)
    requires Agree(t)
    ensures Agree(Apply(t, ttl, e))
  {
    DistinctAfter(t, ttl, e);
    var u := Apply(t, ttl, e);
    forall name
      ensures name in u.urls <==> Lookup(u.nodes, name).Some?
      ensures name in u.urls ==> u.urls[name] == Lookup(u.nodes, name).value.url
    {
      UrlsAfter(t, ttl, e, name);
    }
  }

  // ---------- Whole logs ----------

  /** Both tables agree after every log. */
  lemma {:induction false} TablesAgree(start: Table, ttl: real, log: seq<Event>)
    requires IsStart(start)
    ensures Agree(Run(start, ttl, log))
  {
    if log != [] {
      TablesAgree(start, ttl, log[..|log| - 1]);
      AgreeAfter(Run(start, ttl, log[..|log| - 1]), ttl, log[|log| - 1]);
    }
  }

  /** Static entries stay, and keep their URL. */
  lemma {:induction false} StaticsUnchanged(start: Table, ttl: real, log: seq<Event>, name: string)
    requires IsStart(start) && Lookup(start.nodes, name).Some?
    ensures var n := Lookup(Run(start, ttl, log).nodes, name);
            n.Some? && !n.value.dynamic && n.value.url == Lookup(start.nodes, name).value.url
  {
    if log != [] {
      var before := log[..|log| - 1];
      StaticsUnchanged(start, ttl, before, name);
      TablesAgree(start, ttl, before);
      EntryAfter(Run(start, ttl, before), ttl, log[|log| - 1], name);
    }
  }

  /** The log keeps `name` alive since its event i: that event registered it, and since then it
      was neither registered again, nor removed, nor found silent for longer than the TTL. */
  predicate AliveSince(log: seq<Event>, name: string, ttl: real, i: nat) {
    && i < |log|
    && IsBeat(log[i], name)
    && forall j :: i < j < |log| ==> !IsBeat(log[j], name) && !Ends(log[j], name, log[i].now, ttl)
  }

  /** How one more event changes which event keeps the name alive. */
  lemma AliveSinceAppend(log: seq<Event>, name: string, ttl: real, i: nat)
    requires log != []
    ensures var last := |log| - 1;
            AliveSince(log, name, ttl, i)
            <==> if i == last then IsBeat(log[last], name)
                 else i < last && AliveSince(log[..last], name, ttl, i)
                      && !IsBeat(log[last], name) && !Ends(log[last], name, log[i].now, ttl)
  {
    var last := |log| - 1;
    if i < last && AliveSince(log, name, ttl, i) {
      assert forall j :: i < j < last ==> log[..last][j] == log[j];
    }
  }

  /** At most one event keeps a name alive. */
  lemma AliveSinceUnique(log: seq<Event>, name: string, ttl: real, i: nat, k: nat)
    requires AliveSince(log, name, ttl, i) && AliveSince(log, name, ttl, k)
    ensures i == k
  {}

  /** The entry the log prescribes. */
  ghost predicate EntryReplays(entry: Option<Node>, log: seq<Event>, name: string, ttl: real) {
    && (entry.Some? <==> exists i: nat :: AliveSince(log, name, ttl, i))
    && (forall i: nat :: AliveSince(log, name, ttl, i) ==>
          && entry.Some? && entry.value.dynamic
          && entry.value.lastHeartbeat == log[i].now && entry.value.url == CleanUrl(log[i].url))
  }

  lemma ReplayStep(before: Option<Node>, after: Option<Node>, log: seq<Event>, name: string, ttl: real)
    requires log != []
    requires EntryReplays(before, log[..|log| - 1], name, ttl)
    requires EntryStep(before, after, log[|log| - 1], name, ttl)
    ensures EntryReplays(after, log, name, ttl)
  {
    var last := |log| - 1;
    var e := log[last];
    forall i: nat
      ensures AliveSince(log, name, ttl, i)
              <==> if i == last then IsBeat(e, name)
                   else i < last && AliveSince(log[..last], name, ttl, i) && !IsBeat(e, name) && !Ends(e, name, log[i].now, ttl)
    {
      AliveSinceAppend(log, name, ttl, i);
    }
    if !IsBeat(e, name) && before.Some? {
      var i: nat :| AliveSince(log[..last], name, ttl, i);
      assert log[..last][i] == log[i];
      forall k: nat | AliveSince(log[..last], name, ttl, k) ensures k == i {
        AliveSinceUnique(log[..last], name, ttl, i, k);
      }
    }
  }

  /** A dynamic name is in the table exactly when the log says so, with the URL and the
      heartbeat of its last registration. */
  lemma {:induction false} TableReplaysLog(start: Table, ttl: real, log: seq<Event>, name: string)
    requires IsStart(start) && Lookup(start.nodes, name).None?
    ensures EntryReplays(Lookup(Run(start, ttl, log).nodes, name), log, name, ttl)
  {
    if log != [] {
      hide EntryReplays, EntryStep, Apply;
      var before := log[..|log| - 1];
      TableReplaysLog(start, ttl, before, name);
      TablesAgree(start, ttl, before);
      EntryAfter(Run(start, ttl, before), ttl, log[|log| - 1], name);
      ReplayStep(Lookup(Run(start, ttl, before).nodes, name), Lookup(Run(start, ttl, log).nodes, name), log, name, ttl);
    }
  }

  // ---------- Sticky routing ----------

  /** After any log, an id minted for a node reaches the node of that name with its raw id, or
      is refused; it never reaches a node of another name. */
  lemma MintedIdsStick(start: Table, ttl: real, log: seq<Event>, name: string, id: string)
    requires IsStart(start) && IsNodeName(name) && id != ""
    ensures var t := Run(start, ttl, log);
            var (node, raw) := Route(t, Mint(name, id));
            && (node.Some? ==> node == Lookup(t.nodes, name) && node.value.name == name)
            && (Lookup(t.nodes, name).None? ==> node.None?)
            && (Lookup(t.nodes, name).Some? ==> (node.Some? && raw == id <==> !HasPrefix(id, name)))
  {
    TablesAgree(start, ttl, log);
    var t := Run(start, ttl, log);
    MintedSplitsBack(name, id, t.urls.Keys);
    OwnPrefixIsCut(t, name, id);
  }

  /** An id that already carries the prefix loses it on the way. */
  lemma OwnPrefixIsCut(t: Table, name: string, id: string)
    requires Agree(t) && IsNodeName(name) && id != ""
    ensures HasPrefix(id, name) && Route(t, Mint(name, id)).0.Some? ==> Route(t, Mint(name, id)).1 != id
  {
    if name in t.urls {
      MintThenSplit(name, id, t.urls.Keys);
    }
  }

  // ---------- Counters ----------

  function DynamicCount(nodes: seq<Node>): nat {
    if nodes == [] then 0 else (if nodes[0].dynamic then 1 else 0) + DynamicCount(nodes[1..])
  }

  function Removals(start: Table, ttl: real, log: seq<Event>): nat {
    if log == [] then 0
    else
      var before := log[..|log| - 1];
      var e := log[|log| - 1];
      Removals(start, ttl, before)
      + if e.Remove? && RemoveCheck(Run(start, ttl, before), e.name) == Removed then 1 else 0
  }

  lemma {:induction false} CountAppend(nodes: seq<Node>, n: Node)
    ensures DynamicCount(nodes + [n]) == DynamicCount(nodes) + if n.dynamic then 1 else 0
  {
    if nodes == [] {
      assert [] + [n] == [n];
    } else {
      assert (nodes + [n])[1..] == nodes[1..] + [n];
      CountAppend(nodes[1..], n);
    }
  }

  lemma {:induction false} CountReplace(nodes: seq<Node>, n: Node)
    requires Lookup(nodes, n.name).Some? && Lookup(nodes, n.name).value.dynamic == n.dynamic
    ensures DynamicCount(Replace(nodes, n)) == DynamicCount(nodes)
  {
    if nodes[0].name != n.name {
      CountReplace(nodes[1..], n);
    }
  }

  /** Taking out dynamic nodes takes out exactly as many as there are names. */
  lemma {:induction false} CountExpire(nodes: seq<Node>, now: real, ttl: real, names: set<string>)
    requires DistinctNames(nodes)
    requires forall n :: n in nodes ==> (n.name in names <==> Silent(n, now, ttl))
    ensures DynamicCount(Except(nodes, names)) + |SilentNames(nodes, now, ttl)| == DynamicCount(nodes)
  {
    if nodes != [] {
      assert forall i :: 0 <= i < |nodes[1..]| ==> nodes[1..][i] == nodes[i + 1];
      assert nodes[0] in nodes;
      CountExpire(nodes[1..], now, ttl, names);
      var rest := Except(nodes[1..], names);
      assert ([nodes[0]] + rest)[1..] == rest;
    }
  }

  lemma {:induction false} CountRemove(nodes: seq<Node>, name: string)
    requires DistinctNames(nodes)
    ensures DynamicCount(Except(nodes, {name}))
            + (if Lookup(nodes, name).Some? && Lookup(nodes, name).value.dynamic then 1 else 0) == DynamicCount(nodes)
  {
    if nodes != [] {
      var tail := nodes[1..];
      assert forall i :: 0 <= i < |tail| ==> tail[i] == nodes[i + 1];
      CountRemove(tail, name);
      var rest := Except(tail, {name});
      assert ([nodes[0]] + rest)[1..] == rest;
      if nodes[0].name == name {
        forall k | 0 <= k < |tail| ensures tail[k].name != name {
          assert tail[k] == nodes[k + 1];
        }
        assert Lookup(tail, name).None?;
      }
    }
  }

  /** Registrations are conserved: every newly registered node is still there, expired or was
      removed. */
  lemma {:induction false} RegistrationsConserved(start: Table, ttl: real, log: seq<Event>)
    requires IsStart(start)
    ensures var t := Run(start, ttl, log);
            t.registered == DynamicCount(t.nodes) + t.expired + Removals(start, ttl, log)
  {
    if log == [] {
      NoDynamic(start.nodes);
    } else {
      var before := log[..|log| - 1];
      RegistrationsConserved(start, ttl, before);
      TablesAgree(start, ttl, before);
      CountStep(Run(start, ttl, before), ttl, log[|log| - 1]);
    }
  }

  lemma {:induction false} NoDynamic(nodes: seq<Node>)
    requires forall n :: n in nodes ==> !n.dynamic
    ensures DynamicCount(nodes) == 0
  {
    if nodes != [] {
      NoDynamic(nodes[1..]);
    }
  }

  lemma CountStep(t: Table, ttl: real, e: Event)
    requires Agree(t)
    ensures var u := Apply(t, ttl, e);
            DynamicCount(u.nodes) + u.expired + (if e.Remove? && RemoveCheck(t, e.name) == Removed then 1 else 0) - u.registered
            == DynamicCount(t.nodes) + t.expired - t.registered
  {
    match e
    case Register(name, url, load, now) =>
      if RegisterCheck(t, name, url) == Registered(true) {
        var node := Lookup(t.nodes, name).value.(lastHeartbeat := now, url := CleanUrl(url));
        ApplyLoadKeepsIdentity(node, load, now);
        CountReplace(t.nodes, ApplyLoad(node, load, now));
      } else if RegisterCheck(t, name, url) == Registered(false) {
        var node := NewNode(name, CleanUrl(url), true, now);
        ApplyLoadKeepsIdentity(node, load, now);
        CountAppend(t.nodes, ApplyLoad(node, load, now));
      }
    case Remove(name) => CountRemove(t.nodes, name);
    case Expire(now) =>
      forall n | n in t.nodes ensures n.name in NameSet(SilentNames(t.nodes, now, ttl)) <==> Silent(n, now, ttl) {
        SilentByLookup(t.nodes, now, ttl, n.name);
        LookupMember(t.nodes, n);
      }
      CountExpire(t.nodes, now, ttl, NameSet(SilentNames(t.nodes, now, ttl)));
    case Probe(name, report, now) =>
      if Lookup(t.nodes, name).Some? {
        var n := Lookup(t.nodes, name).value;
        ProbeKeepsIdentity(n, report, now);
        CountReplace(t.nodes, ProbeSpec(n, report, now));
      }
  }

  // ---------- Health of a static node ----------

  /** The failed probes of a name since its last answered one. */
  function FailuresInARow(log: seq<Event>, name: string): nat {
    if log == [] then 0
    else
      var e := log[|log| - 1];
      if e.Probe? && e.name == name then
        if Answers(e.report) then 0 else 1 + FailuresInARow(log[..|log| - 1], name)
      else FailuresInARow(log[..|log| - 1], name)
  }

  predicate EverAnswered(log: seq<Event>, name: string) {
    exists i :: 0 <= i < |log| && log[i].Probe? && log[i].name == name && Answers(log[i].report)
  }

  lemma ProbeHealth(n: Node, report: Option<Report>, now: real)
    ensures var m := ProbeSpec(n, report, now);
            && m.failures == (if Answers(report) then 0 else n.failures + 1)
            && m.healthy == (Answers(report) || (n.healthy && n.failures + 1 < 2))
  {}

  lemma StaticEntryAfter(t: Table, ttl: real, e: Event, name: string)
    requires DistinctNames(t.nodes) && Lookup(t.nodes, name).Some? && !Lookup(t.nodes, name).value.dynamic
    ensures var n := Lookup(t.nodes, name).value;
            Lookup(Apply(t, ttl, e).nodes, name)
            == Some(if e.Probe? && e.name == name then ProbeSpec(n, e.report, e.now) else n)
  {
    match e
    case Register(other, url, load, now) =>
      match RegisterCheck(t, other, url) {
        case Registered(false) =>
          ApplyLoadKeepsIdentity(NewNode(other, CleanUrl(url), true, now), load, now);
          LookupAppend(t.nodes, ApplyLoad(NewNode(other, CleanUrl(url), true, now), load, now), name);
        case Registered(true) =>
          var node := Lookup(t.nodes, other).value.(lastHeartbeat := now, url := CleanUrl(url));
          ApplyLoadKeepsIdentity(node, load, now);
          LookupReplace(t.nodes, ApplyLoad(node, load, now), name);
        case _ =>
      }
    case Remove(other) => LookupExcept(t.nodes, {other}, name);
    case Expire(now) =>
      SilentByLookup(t.nodes, now, ttl, name);
      LookupExcept(t.nodes, NameSet(SilentNames(t.nodes, now, ttl)), name);
    case Probe(other, report, now) =>
      if Lookup(t.nodes, other).Some? {
        ProbeKeepsIdentity(Lookup(t.nodes, other).value, report, now);
        LookupReplace(t.nodes, ProbeSpec(Lookup(t.nodes, other).value, report, now), name);
      }
  }

  lemma EverAnsweredAppend(log: seq<Event>, name: string)
    requires log != []
    ensures var e := log[|log| - 1];
            EverAnswered(log, name)
            <==> EverAnswered(log[..|log| - 1], name) || (e.Probe? && e.name == name && Answers(e.report))
  {
    var last := |log| - 1;
    var before := log[..last];
    if EverAnswered(before, name) {
      var i :| 0 <= i < |before| && before[i].Probe? && before[i].name == name && Answers(before[i].report);
      assert log[i] == before[i];
    }
    if EverAnswered(log, name) {
      var i :| 0 <= i < |log| && log[i].Probe? && log[i].name == name && Answers(log[i].report);
      assert i < last ==> before[i] == log[i];
    }
  }

  /** A static node counts as healthy exactly when some probe was answered and at most one has
      failed since. */
  lemma {:induction false} StaticHealthReplaysLog(start: Table, ttl: real, log: seq<Event>, name: string)
    requires IsStart(start) && Lookup(start.nodes, name).Some?
    ensures var n := Lookup(Run(start, ttl, log).nodes, name);
            && n.Some? && n.value.failures == FailuresInARow(log, name)
            && (n.value.healthy <==> EverAnswered(log, name) && FailuresInARow(log, name) <= 1)
  {
    if log != [] {
      hide Apply, EverAnswered, ProbeSpec;
      var before := log[..|log| - 1];
      StaticHealthReplaysLog(start, ttl, before, name);
      StaticsUnchanged(start, ttl, before, name);
      TablesAgree(start, ttl, before);
      var t := Run(start, ttl, before);
      var e := log[|log| - 1];
      StaticEntryAfter(t, ttl, e, name);
      EverAnsweredAppend(log, name);
      if e.Probe? && e.name == name {
        ProbeHealth(Lookup(t.nodes, name).value, e.report, e.now);
      }
    }
  }
}
