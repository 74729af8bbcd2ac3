/** The router's node table (router/kerneldock_router.py): one function for every operation. */
module RouterSpec {
  import opened Basics
  import opened ResourceIds

  datatype Node = Node(
    name: string,
    url: string,
    dynamic: bool,
    lastHeartbeat: real,
    healthy: bool,
    failures: nat,
    activeSandboxes: int,
    poolAvailable: int,
    poolTotal: int,
    queueLoad: int,
    lastCheck: real)

  /** `nodes` is the dictionary in insertion order, `urls` the second table, the counters are
      the router's own metrics. */
  datatype Table = Table(nodes: seq<Node>, urls: map<string, string>, registered: nat, expired: nat)

  /** A number in a JSON body: absent, readable (null and other empty values read as 0), or not a
      number. */
  datatype Field = Missing | Given(n: int) | Malformed

  datatype Load = Load(activeSandboxes: Field, poolAvailable: Field, poolTotal: Field, queueLoad: Field)

  datatype RegisterResult = Registered(renewed: bool) | BadName | BadUrl | StaticConflict

  datatype RemoveResult = Removed | Unknown | StaticNode

  function NewNode(name: string, url: string, dynamic: bool, now: real): Node {
    Node(name, url, dynamic, now, false, 0, 0, 0, 0, 0, 0.0)
  }

  // ---------- URLs ----------

  function StripLeft(s: string): string {
    if s != "" && IsSpace(s[0]) then StripLeft(s[1..]) else s
  }

  function StripRight(s: string): string {
    if s != "" && IsSpace(s[|s| - 1]) then StripRight(s[..|s| - 1]) else s
  }

  function StripSlashes(s: string): string {
    if s != "" && s[|s| - 1] == '/' then StripSlashes(s[..|s| - 1]) else s
  }

  function CleanUrl(url: string): string {
    StripSlashes(StripRight(StripLeft(url)))
  }

  predicate AllSpaces(s: string) {
    forall i :: 0 <= i < |s| ==> IsSpace(s[i])
  }

  predicate AllSlashes(s: string) {
    forall i :: 0 <= i < |s| ==> s[i] == '/'
  }

  /** Neither end of the string is a space. */
  predicate Trim(s: string) {
    s != "" ==> !IsSpace(s[0]) && !IsSpace(s[|s| - 1])
  }

  /** `clean` is what is left of the URL without spaces around it and then without slashes at its
      end. */
  ghost predicate IsClean(url: string, clean: string) {
    exists lead, slashes, trail ::
      && url == lead + (clean + slashes) + trail
      && AllSpaces(lead) && AllSpaces(trail) && AllSlashes(slashes)
      && Trim(clean + slashes)
      && (clean != "" ==> clean[|clean| - 1] != '/')
  }

  lemma {:induction false} LeftStripped(lead: string, rest: string)
    requires AllSpaces(lead) && (rest != "" ==> !IsSpace(rest[0]))
    ensures StripLeft(lead + rest) == rest
  {
    if lead == "" {
      assert lead + rest == rest;
    } else {
      assert (lead + rest)[1..] == lead[1..] + rest;
      LeftStripped(lead[1..], rest);
    }
  }

  lemma {:induction false} RightStripped(rest: string, trail: string)
    requires AllSpaces(trail) && (rest != "" ==> !IsSpace(rest[|rest| - 1]))
    ensures StripRight(rest + trail) == rest
  {
    if trail == "" {
      assert rest + trail == rest;
    } else {
      assert (rest + trail)[..|rest + trail| - 1] == rest + trail[..|trail| - 1];
      RightStripped(rest, trail[..|trail| - 1]);
    }
  }

  lemma {:induction false} SlashesStripped(rest: string, slashes: string)
    requires AllSlashes(slashes) && (rest != "" ==> rest[|rest| - 1] != '/')
    ensures StripSlashes(rest + slashes) == rest
  {
    if slashes == "" {
      assert rest + slashes == rest;
    } else {
      assert (rest + slashes)[..|rest + slashes| - 1] == rest + slashes[..|slashes| - 1];
      SlashesStripped(rest, slashes[..|slashes| - 1]);
    }
  }

  lemma {:induction false} LeftSplits(s: string) returns (lead: string)
    ensures s == lead + StripLeft(s) && AllSpaces(lead)
    ensures StripLeft(s) != "" ==> !IsSpace(StripLeft(s)[0])
  {
    if s != "" && IsSpace(s[0]) {
      var more := LeftSplits(s[1..]);
      lead := [s[0]] + more;
    } else {
      lead := "";
    }
  }

  lemma {:induction false} RightSplits(s: string) returns (trail: string)
    ensures s == StripRight(s) + trail && AllSpaces(trail)
    ensures StripRight(s) != "" ==> StripRight(s)[0] == s[0] && !IsSpace(StripRight(s)[|StripRight(s)| - 1])
  {
    if s != "" && IsSpace(s[|s| - 1]) {
      var more := RightSplits(s[..|s| - 1]);
      trail := more + [s[|s| - 1]];
    } else {
      trail := "";
    }
  }

  lemma {:induction false} SlashesSplit(s: string) returns (slashes: string)
    ensures s == StripSlashes(s) + slashes && AllSlashes(slashes)
    ensures StripSlashes(s) != "" ==> StripSlashes(s)[|StripSlashes(s)| - 1] != '/'
  {
    if s != "" && s[|s| - 1] == '/' {
      var more := SlashesSplit(s[..|s| - 1]);
      slashes := more + [s[|s| - 1]];
    } else {
      slashes := "";
    }
  }

  /** The cleaned URL is the one string that is clean in that sense. */
  lemma CleansExactly(url: string, clean: string)
    ensures IsClean(url, clean) <==> clean == CleanUrl(url)
  {
    hide IsSpace, AllSpaces, AllSlashes;
    if IsClean(url, clean) {
      CleanIsUnique(url, clean);
    }
    var lead := LeftSplits(url);
    var core := StripLeft(url);
    var trail := RightSplits(core);
    var slashes := SlashesSplit(StripRight(core));
    hide StripLeft, StripRight, StripSlashes;
    assert url == lead + (CleanUrl(url) + slashes) + trail;
    assert Trim(CleanUrl(url) + slashes);
  }

  lemma CleanIsUnique(url: string, clean: string)
    requires IsClean(url, clean)
    ensures clean == CleanUrl(url)
  {
    hide IsSpace, AllSpaces, AllSlashes, StripLeft, StripRight, StripSlashes, Trim;
    var lead, slashes, trail :|
      && url == lead + (clean + slashes) + trail
      && AllSpaces(lead) && AllSpaces(trail) && AllSlashes(slashes)
      && Trim(clean + slashes)
      && (clean != "" ==> clean[|clean| - 1] != '/');
    CoreStripped(lead, clean + slashes, trail);
    SlashesStripped(clean, slashes);
  }

  lemma CoreStripped(lead: string, core: string, trail: string)
    requires AllSpaces(lead) && AllSpaces(trail) && Trim(core)
    ensures StripRight(StripLeft(lead + core + trail)) == core
  {
    hide IsSpace, StripLeft, StripRight;
    if core == "" {
      assert lead + core + trail == (lead + trail) + "";
      LeftStripped(lead + trail, "");
      assert core + core == core;
      RightStripped(core, core);
    } else {
      assert lead + core + trail == lead + (core + trail);
      LeftStripped(lead, core + trail);
      RightStripped(core, trail);
    }
  }

  predicate IsHttp(url: string) {
    "http://" <= url || "https://" <= url
  }

  // ---------- Lookup ----------

  function Lookup(nodes: seq<Node>, name: string): (r: Option<Node>)
    ensures r.Some? ==> r.value in nodes && r.value.name == name
    ensures r.None? ==> forall n :: n in nodes ==> n.name != name
  {
    if nodes == [] then None
    else if nodes[0].name == name then Some(nodes[0])
    else Lookup(nodes[1..], name)
  }

  /** The list with the named node replaced. */
  function Replace(nodes: seq<Node>, node: Node): (r: seq<Node>)
    ensures |r| == |nodes|
  {
    if nodes == [] then []
    else if nodes[0].name == node.name then [node] + nodes[1..]
    else [nodes[0]] + Replace(nodes[1..], node)
  }

  // ---------- Heartbeats ----------

  function Read(f: Field, current: int): int {
    if f.Given? then f.n else current
  }

  /** The load report is read field by field and reading stops at the first malformed one. */
  function ApplyLoad(node: Node, load: Option<Load>, now: real): Node {
    var n0 := node.(healthy := true, failures := 0, lastCheck := now);
    if load.None? || load.value.activeSandboxes.Malformed? then n0
    else
      var l := load.value;
      var n1 := n0.(activeSandboxes := Read(l.activeSandboxes, n0.activeSandboxes));
      if l.poolAvailable.Malformed? then n1
      else
        var n2 := n1.(poolAvailable := Read(l.poolAvailable, n1.poolAvailable));
        if l.poolTotal.Malformed? then n2
        else
          var n3 := n2.(poolTotal := Read(l.poolTotal, n2.poolTotal));
          if l.queueLoad.Malformed? then n3 else n3.(queueLoad := Read(l.queueLoad, n3.queueLoad))
  }

  function RegisterCheck(t: Table, name: string, url: string): RegisterResult {
    if !IsNodeName(name) then BadName
    else if !IsHttp(CleanUrl(url)) then BadUrl
    else
      match Lookup(t.nodes, name)
      case None => Registered(false)
      case Some(n) => if n.dynamic then Registered(true) else StaticConflict
  }

  function RegisterSpec(t: Table, name: string, url: string, load: Option<Load>, now: real): Table {
    match RegisterCheck(t, name, url)
    case Registered(false) =>
      var node := ApplyLoad(NewNode(name, CleanUrl(url), true, now), load, now);
      t.(nodes := t.nodes + [node], urls := t.urls[name := CleanUrl(url)], registered := t.registered + 1)
    case Registered(true) =>
      var node := Lookup(t.nodes, name).value.(lastHeartbeat := now, url := CleanUrl(url));
      t.(nodes := Replace(t.nodes, ApplyLoad(node, load, now)),
         urls := if Lookup(t.nodes, name).value.url != CleanUrl(url) then t.urls[name := CleanUrl(url)] else t.urls)
    case _ => t
  }

  function RemoveCheck(t: Table, name: string): RemoveResult {
    match Lookup(t.nodes, name)
    case None => Unknown
    case Some(n) => if n.dynamic then Removed else StaticNode
  }

  /** The nodes whose names are not in the set. */
  function Except(nodes: seq<Node>, names: set<string>): (r: seq<Node>)
    ensures forall n :: n in r <==> n in nodes && n.name !in names
  {
    if nodes == [] then []
    else if nodes[0].name in names then Except(nodes[1..], names)
    else [nodes[0]] + Except(nodes[1..], names)
  }

  function RemoveSpec(t: Table, name: string): Table {
    if RemoveCheck(t, name) == Removed then t.(nodes := Except(t.nodes, {name}), urls := t.urls - {name}) else t
  }

  predicate Silent(n: Node, now: real, ttl: real) {
    n.dynamic && now - n.lastHeartbeat > ttl
  }

  function SilentNames(nodes: seq<Node>, now: real, ttl: real): seq<string> {
    if nodes == [] then []
    else (if Silent(nodes[0], now, ttl) then [nodes[0].name] else []) + SilentNames(nodes[1..], now, ttl)
  }

  function NameSet(names: seq<string>): set<string> {
    set name | name in names
  }

  function ExpireSpec(t: Table, now: real, ttl: real): Table {
    var names := SilentNames(t.nodes, now, ttl);
    t.(nodes := Except(t.nodes, NameSet(names)), urls := t.urls - NameSet(names), expired := t.expired + |names|)
  }

  // ---------- Probes ----------

  /** The answers to a probe: the health report, and the queue depth when that was readable. */
  datatype Report = Report(activeSandboxes: Field, poolAvailable: Field, poolTotal: Field, queue: Option<int>)

  function OrZero(f: Field): int {
    if f.Given? then f.n else 0
  }

  function ProbeFailed(node: Node, now: real): Node {
    node.(failures := node.failures + 1, healthy := if node.failures + 1 >= 2 then false else node.healthy, lastCheck := now)
  }

  /** No report at all, or one that cannot be read to the end, is a failure. */
  function ProbeSpec(node: Node, report: Option<Report>, now: real): Node {
    if report.None? || report.value.activeSandboxes.Malformed? then ProbeFailed(node, now)
    else
      var r := report.value;
      var n1 := node.(activeSandboxes := OrZero(r.activeSandboxes));
      if r.poolAvailable.Malformed? then ProbeFailed(n1, now)
      else
        var n2 := n1.(poolAvailable := OrZero(r.poolAvailable));
        if r.poolTotal.Malformed? then ProbeFailed(n2, now)
        else
          n2.(poolTotal := OrZero(r.poolTotal),
              queueLoad := if r.queue.Some? then r.queue.value else n2.queueLoad,
              healthy := true, failures := 0, lastCheck := now)
  }

  predicate Answers(report: Option<Report>) {
    && report.Some?
    && !report.value.activeSandboxes.Malformed?
    && !report.value.poolAvailable.Malformed?
    && !report.value.poolTotal.Malformed?
  }

  // ---------- Routing ----------

  /** _route_by_prefix: the node the id names, or none, and the id to forward. */
  function Route(t: Table, id: string): (Option<Node>, string) {
    var (name, raw) := SplitPrefixedId(id, t.urls.Keys);
    (if name.None? then None else Lookup(t.nodes, name.value), raw)
  }
}
