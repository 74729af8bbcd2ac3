/** What the node records report, replayed from the log of events
    (router/kerneldock_router.py): loads, health and the answers to registrations. */
module RouterLoads {
  import opened Basics
  import opened ResourceIds
  import opened RouterSpec
  import opened RouterRuns

  datatype LoadField = ActiveSandboxes | PoolAvailable | PoolTotal | QueueLoad

  function FieldOf(n: Node, f: LoadField): int {
    match f
    case ActiveSandboxes => n.activeSandboxes
    case PoolAvailable => n.poolAvailable
    case PoolTotal => n.poolTotal
    case QueueLoad => n.queueLoad
  }

  // ---------- What one event reports ----------

  /** The number a probe reports: an absent one counts as 0, everything up to it has to be
      readable, and the queue depth comes last and on its own. */
  function ProbeReports(e: Event, name: string, f: LoadField): Option<int> {
    if !e.Probe? || e.name != name || e.report.None? then None
    else
      var r := e.report.value;
      match f
      case ActiveSandboxes =>
        if r.activeSandboxes.Malformed? then None
        else Some(if r.activeSandboxes.Given? then r.activeSandboxes.n else 0)
      case PoolAvailable =>
        if r.activeSandboxes.Malformed? || r.poolAvailable.Malformed? then None
        else Some(if r.poolAvailable.Given? then r.poolAvailable.n else 0)
      case PoolTotal =>
        if r.activeSandboxes.Malformed? || r.poolAvailable.Malformed? || r.poolTotal.Malformed? then None
        else Some(if r.poolTotal.Given? then r.poolTotal.n else 0)
      case QueueLoad =>
        if r.activeSandboxes.Malformed? || r.poolAvailable.Malformed? || r.poolTotal.Malformed? then None else r.queue
  }

  /** A probe counts as answered when it reports all but perhaps the queue depth. */
  lemma AnsweredExactly(e: Event, name: string)
    requires e.Probe? && e.name == name
    ensures Answers(e.report) <==> forall f :: f == QueueLoad || ProbeReports(e, name, f).Some?
  {
    assert ProbeReports(e, name, PoolTotal).Some? ==> Answers(e.report);
  }

  /** The number a heartbeat reports: nothing if it is absent or follows a malformed one. */
  function BeatReports(e: Event, name: string, f: LoadField): Option<int> {
    if !IsBeat(e, name) || e.load.None? then None
    else
      var l := e.load.value;
      match f
      case ActiveSandboxes =>
        if l.activeSandboxes.Given? then Some(l.activeSandboxes.n) else None
      case PoolAvailable =>
        if !l.activeSandboxes.Malformed? && l.poolAvailable.Given? then Some(l.poolAvailable.n) else None
      case PoolTotal =>
        if !l.activeSandboxes.Malformed? && !l.poolAvailable.Malformed? && l.poolTotal.Given? then Some(l.poolTotal.n)
        else None
      case QueueLoad =>
        if !l.activeSandboxes.Malformed? && !l.poolAvailable.Malformed? && !l.poolTotal.Malformed? && l.queueLoad.Given?
        then Some(l.queueLoad.n) else None
  }

  // ---------- The last report of a log ----------

  /** Event i, not before `from`, is the last one that reports a number. */
  predicate LastReport(log: seq<Event>, from: nat, reports: Event -> Option<int>, i: nat) {
    && from <= i < |log|
    && reports(log[i]).Some?
    && forall j :: i < j < |log| ==> reports(log[j]).None?
  }

  /** The value is the last number reported since `from`, or 0 if there is none. */
  ghost predicate LastReported(log: seq<Event>, from: nat, reports: Event -> Option<int>, v: int) {
    && (forall i: nat :: LastReport(log, from, reports, i) ==> reports(log[i]) == Some(v))
    && ((forall i: nat :: !LastReport(log, from, reports, i)) ==> v == 0)
  }

  lemma LastReportAppend(log: seq<Event>, from: nat, reports: Event -> Option<int>, i: nat)
    requires log != []
    ensures var last := |log| - 1;
            LastReport(log, from, reports, i)
            <==> if i == last then from <= last && reports(log[last]).Some?
                 else LastReport(log[..last], from, reports, i) && reports(log[last]).None?
  {
    var last := |log| - 1;
    if i < last && LastReport(log, from, reports, i) {
      assert forall j :: i < j < last ==> log[..last][j] == log[j];
    }
  }

  lemma LastReportedStep(log: seq<Event>, from: nat, reports: Event -> Option<int>, before: int, v: int)
    requires from < |log|
    requires LastReported(log[..|log| - 1], from, reports, before)
    requires v == if reports(log[|log| - 1]).Some? then reports(log[|log| - 1]).value else before
    ensures LastReported(log, from, reports, v)
  {
    var last := |log| - 1;
    forall i: nat
      ensures LastReport(log, from, reports, i)
              <==> if i == last then reports(log[last]).Some?
                   else LastReport(log[..last], from, reports, i) && reports(log[last]).None?
    {
      LastReportAppend(log, from, reports, i);
    }
    forall i: nat ensures LastReport(log[..last], from, reports, i) ==> i < last && log[..last][i] == log[i] {
    }
    hide LastReport;
    if reports(log[last]).Some? {
      assert LastReport(log, from, reports, last);
    } else if forall i: nat :: !LastReport(log, from, reports, i) {
      forall i: nat ensures !LastReport(log[..last], from, reports, i) {
        assert LastReport(log[..last], from, reports, i) ==> i != last;
      }
    }
  }

  // ---------- Static nodes ----------

  lemma ProbeWrites(n: Node, e: Event, f: LoadField)
    requires e.Probe?
    ensures var reported := ProbeReports(e, e.name, f);
            FieldOf(ProbeSpec(n, e.report, e.now), f) == if reported.Some? then reported.value else FieldOf(n, f)
  {}

  /** The load of a static node is what its probes last reported, field by field, a probe that
      breaks off reporting the fields before the break; before the first report it is 0. */
  lemma {:induction false} StaticLoadsReplayLog(start: Table, ttl: real, log: seq<Event>, name: string, f: LoadField)
    requires IsStart(start) && Lookup(start.nodes, name).Some?
    ensures var n := Lookup(Run(start, ttl, log).nodes, name);
            n.Some? && LastReported(log, 0, e => ProbeReports(e, name, f), FieldOf(n.value, f))
  {
    if log != [] {
      hide Apply, ProbeSpec, LastReported, ProbeReports, FieldOf;
      var last := |log| - 1;
      var before, e := log[..last], log[last];
      StaticLoadsReplayLog(start, ttl, before, name, f);
      StaticsUnchanged(start, ttl, before, name);
      TablesAgree(start, ttl, before);
      var t := Run(start, ttl, before);
      StaticEntryAfter(t, ttl, e, name);
      var n, m := Lookup(t.nodes, name).value, Lookup(Run(start, ttl, log).nodes, name).value;
      if e.Probe? && e.name == name {
        ProbeWrites(n, e, f);
      } else {
        OnlyOwnProbes(e, name, f);
      }
      LastReportedStep(log, 0, x => ProbeReports(x, name, f), FieldOf(n, f), FieldOf(m, f));
    } else {
      StartsEmpty(start, name, f);
    }
  }

  lemma OnlyOwnProbes(e: Event, name: string, f: LoadField)
    requires !(e.Probe? && e.name == name)
    ensures ProbeReports(e, name, f).None?
  {}

  lemma StartsEmpty(start: Table, name: string, f: LoadField)
    requires IsStart(start) && Lookup(start.nodes, name).Some?
    ensures FieldOf(Lookup(start.nodes, name).value, f) == 0
  {}

  /** The time of the last probe of a name, failed or not. */
  function LastProbed(log: seq<Event>, name: string): real {
    if log == [] then 0.0
    else
      var e := log[|log| - 1];
      if e.Probe? && e.name == name then e.now else LastProbed(log[..|log| - 1], name)
  }

  /** A static node was last checked when it was last probed. */
  lemma {:induction false} StaticCheckReplaysLog(start: Table, ttl: real, log: seq<Event>, name: string)
    requires IsStart(start) && Lookup(start.nodes, name).Some?
    ensures var n := Lookup(Run(start, ttl, log).nodes, name);
            n.Some? && n.value.lastCheck == LastProbed(log, name)
  {
    if log != [] {
      hide Apply, ProbeSpec;
      var before, e := log[..|log| - 1], log[|log| - 1];
      StaticCheckReplaysLog(start, ttl, before, name);
      StaticsUnchanged(start, ttl, before, name);
      TablesAgree(start, ttl, before);
      var t := Run(start, ttl, before);
      StaticEntryAfter(t, ttl, e, name);
      if e.Probe? {
        ProbeChecks(Lookup(t.nodes, name).value, e);
      }
    }
  }

  lemma ProbeChecks(n: Node, e: Event)
    requires e.Probe?
    ensures ProbeSpec(n, e.report, e.now).lastCheck == e.now
  {}

  // ---------- Dynamic nodes ----------

  /** The log keeps the name in the table. */
  ghost predicate Present(log: seq<Event>, name: string, ttl: real) {
    exists i: nat :: AliveSince(log, name, ttl, i)
  }

  /** Event b brought the name into the table, where it has been ever since. */
  ghost predicate EnteredAt(log: seq<Event>, name: string, ttl: real, b: nat) {
    && b < |log|
    && !Present(log[..b], name, ttl)
    && forall j :: b < j <= |log| ==> Present(log[..j], name, ttl)
  }

  /** What the record of a dynamic node says after a log that brought it in at event b. */
  ghost predicate BeatsReplayed(n: Node, log: seq<Event>, name: string, b: nat) {
    && n.healthy && n.failures == 0 && n.lastCheck == n.lastHeartbeat
    && forall f :: LastReported(log, b, e => BeatReports(e, name, f), FieldOf(n, f))
  }

  lemma BeatWrites(n: Node, e: Event, name: string, f: LoadField)
    requires IsBeat(e, name)
    ensures var reported := BeatReports(e, name, f);
            var m := ApplyLoad(n, e.load, e.now);
            && FieldOf(m, f) == (if reported.Some? then reported.value else FieldOf(n, f))
            && m.healthy && m.failures == 0 && m.lastCheck == e.now && m.lastHeartbeat == n.lastHeartbeat
  {
    hide CleanUrl, IsHttp, IsNodeName;
  }

  lemma DynamicEntryAfter(t: Table, ttl: real, e: Event, name: string)
    requires DistinctNames(t.nodes)
    requires Lookup(t.nodes, name).Some? ==> Lookup(t.nodes, name).value.dynamic
    ensures var n, m := Lookup(t.nodes, name), Lookup(Apply(t, ttl, e).nodes, name);
            if IsBeat(e, name) then
              var was := if n.Some? then n.value.(lastHeartbeat := e.now, url := CleanUrl(e.url))
                         else NewNode(name, CleanUrl(e.url), true, e.now);
              m == Some(ApplyLoad(was, e.load, e.now))
            else m == n || m.None?
  {
    hide CleanUrl, IsHttp, IsNodeName, ApplyLoad, ProbeSpec;
    match e
    case Register(other, url, load, now) =>
      match RegisterCheck(t, other, url) {
        case Registered(false) =>
          var node := NewNode(other, CleanUrl(url), true, now);
          ApplyLoadKeepsIdentity(node, load, now);
          LookupAppend(t.nodes, ApplyLoad(node, load, now), name);
        case Registered(true) =>
          var node := Lookup(t.nodes, other).value.(lastHeartbeat := now, url := CleanUrl(url));
          ApplyLoadKeepsIdentity(node, load, now);
          LookupReplace(t.nodes, ApplyLoad(node, load, now), name);
        case _ =>
      }
    case Remove(other) => LookupExcept(t.nodes, {other}, name);
    case Expire(now) =>
      LookupExcept(t.nodes, NameSet(SilentNames(t.nodes, now, ttl)), name);
    case Probe(other, report, now) =>
      if Lookup(t.nodes, other).Some? {
        ProbeKeepsIdentity(Lookup(t.nodes, other).value, report, now);
        LookupReplace(t.nodes, ProbeSpec(Lookup(t.nodes, other).value, report, now), name);
      }
  }

  lemma PresentIsLookup(start: Table, ttl: real, log: seq<Event>, name: string)
    requires IsStart(start) && Lookup(start.nodes, name).None?
    ensures var n := Lookup(Run(start, ttl, log).nodes, name);
            (Present(log, name, ttl) <==> n.Some?) && (n.Some? ==> n.value.dynamic)
  {
    TableReplaysLog(start, ttl, log, name);
    hide AliveSince;
    if Present(log, name, ttl) {
      var i: nat :| AliveSince(log, name, ttl, i);
    }
  }

  lemma NothingBefore(log: seq<Event>, from: nat, reports: Event -> Option<int>)
    requires |log| <= from
    ensures LastReported(log, from, reports, 0)
  {}

  /** One more event on the record of a dynamic node. */
  lemma BeatStep(n: Node, m: Node, log: seq<Event>, name: string, b: nat)
    requires b < |log| && IsBeat(log[|log| - 1], name)
    requires forall f :: LastReported(log[..|log| - 1], b, e => BeatReports(e, name, f), FieldOf(n, f))
    requires m == ApplyLoad(n, log[|log| - 1].load, log[|log| - 1].now) && n.lastHeartbeat == log[|log| - 1].now
    ensures BeatsReplayed(m, log, name, b)
  {
    hide ApplyLoad, LastReported, BeatReports, FieldOf, IsBeat;
    forall f ensures LastReported(log, b, e => BeatReports(e, name, f), FieldOf(m, f)) {
      BeatWrites(n, log[|log| - 1], name, f);
      LastReportedStep(log, b, e => BeatReports(e, name, f), FieldOf(n, f), FieldOf(m, f));
    }
    BeatWrites(n, log[|log| - 1], name, QueueLoad);
  }

  lemma QuietStep(n: Node, log: seq<Event>, name: string, b: nat)
    requires b < |log| && !IsBeat(log[|log| - 1], name)
    requires BeatsReplayed(n, log[..|log| - 1], name, b)
    ensures BeatsReplayed(n, log, name, b)
  {
    hide LastReported, FieldOf, IsBeat;
    forall f ensures LastReported(log, b, e => BeatReports(e, name, f), FieldOf(n, f)) {
      LastReportedStep(log, b, e => BeatReports(e, name, f), FieldOf(n, f), FieldOf(n, f));
    }
  }

  lemma EnteredBefore(log: seq<Event>, name: string, ttl: real, b: nat)
    requires EnteredAt(log, name, ttl, b) && b < |log| - 1
    ensures EnteredAt(log[..|log| - 1], name, ttl, b)
  {
    hide Present;
    var before := log[..|log| - 1];
    assert before[..b] == log[..b];
    assert forall j :: 0 <= j <= |before| ==> before[..j] == log[..j];
  }

  /** The record of a dynamic node: healthy, checked when it was last heard, and its load field
      by field what its heartbeats last reported since it came into the table, or 0. */
  lemma {:induction false} DynamicLoadsReplayLog(start: Table, ttl: real, log: seq<Event>, name: string, b: nat)
    requires IsStart(start) && Lookup(start.nodes, name).None?
    requires EnteredAt(log, name, ttl, b)
    ensures var n := Lookup(Run(start, ttl, log).nodes, name);
            n.Some? && BeatsReplayed(n.value, log, name, b)
  {
    var last := |log| - 1;
    var before, e := log[..last], log[last];
    assert log[..|log|] == log;
    PresentIsLookup(start, ttl, before, name);
    PresentIsLookup(start, ttl, log, name);
    TablesAgree(start, ttl, before);
    var t := Run(start, ttl, before);
    DynamicEntryAfter(t, ttl, e, name);
    var m := Lookup(Run(start, ttl, log).nodes, name).value;
    if b < last {
      EnteredBefore(log, name, ttl, b);
      DynamicLoadsReplayLog(start, ttl, before, name, b);
    }
    hide Present, AliveSince, Apply, ApplyLoad, IsBeat, BeatReports, LastReported, CleanUrl, FieldOf;
    if b == last {
      var n := NewNode(name, CleanUrl(e.url), true, e.now);
      EmptyRecord(n, log, name, b);
      BeatStep(n, m, log, name, b);
    } else if IsBeat(e, name) {
      var n := Lookup(t.nodes, name).value;
      SameLoads(n, n.(lastHeartbeat := e.now, url := CleanUrl(e.url)), before, name, b);
      BeatStep(n.(lastHeartbeat := e.now, url := CleanUrl(e.url)), m, log, name, b);
    } else {
      QuietStep(m, log, name, b);
    }
  }

  lemma EmptyRecord(n: Node, log: seq<Event>, name: string, b: nat)
    requires b == |log| - 1 && forall f :: FieldOf(n, f) == 0
    ensures forall f :: LastReported(log[..b], b, e => BeatReports(e, name, f), FieldOf(n, f))
  {
    hide LastReported, FieldOf;
    forall f ensures LastReported(log[..b], b, e => BeatReports(e, name, f), FieldOf(n, f)) {
      NothingBefore(log[..b], b, e => BeatReports(e, name, f));
    }
  }

  lemma SameLoads(n: Node, m: Node, log: seq<Event>, name: string, b: nat)
    requires BeatsReplayed(n, log, name, b) && m == n.(lastHeartbeat := m.lastHeartbeat, url := m.url)
    ensures forall f :: LastReported(log, b, e => BeatReports(e, name, f), FieldOf(m, f))
  {
    hide LastReported;
    forall f ensures LastReported(log, b, e => BeatReports(e, name, f), FieldOf(m, f)) {
      assert FieldOf(m, f) == FieldOf(n, f);
    }
  }

  /** A name in the table came in at one event. */
  lemma {:induction false} EntersOnce(log: seq<Event>, name: string, ttl: real)
    requires Present(log, name, ttl)
    ensures exists b: nat :: EnteredAt(log, name, ttl, b)
    ensures forall b: nat, c: nat :: EnteredAt(log, name, ttl, b) && EnteredAt(log, name, ttl, c) ==> b == c
  {
    hide AliveSince;
    var last := |log| - 1;
    NobodyAtFirst(log, name, ttl);
    assert log[..|log|] == log;
    if Present(log[..last], name, ttl) {
      EntersOnce(log[..last], name, ttl);
      var b: nat :| EnteredAt(log[..last], name, ttl, b);
      hide Present;
      assert forall j :: 0 <= j <= last ==> log[..last][..j] == log[..j];
      assert EnteredAt(log, name, ttl, b);
    } else {
      assert EnteredAt(log, name, ttl, last);
    }
  }

  lemma NobodyAtFirst(log: seq<Event>, name: string, ttl: real)
    requires Present(log, name, ttl)
    ensures log != []
  {}

  // ---------- Answers ----------

  /** What a registration answers after any log. */
  lemma RegistrationAnswers(start: Table, ttl: real, log: seq<Event>, name: string, url: string, clean: string)
    requires IsStart(start) && IsClean(url, clean)
    ensures var answer := RegisterCheck(Run(start, ttl, log), name, url);
            var http := "http://" <= clean || "https://" <= clean;
            && (answer == BadName <==> !IsNodeName(name))
            && (answer == BadUrl <==> IsNodeName(name) && !http)
            && (answer == StaticConflict <==> IsNodeName(name) && http && Lookup(start.nodes, name).Some?)
            && (answer == Registered(true) <==>
                  IsNodeName(name) && http && Lookup(start.nodes, name).None? && Present(log, name, ttl))
  {
    CleansExactly(url, clean);
    hide IsNodeName, CleanUrl, IsClean;
    if Lookup(start.nodes, name).Some? {
      StaticsUnchanged(start, ttl, log, name);
    } else {
      PresentIsLookup(start, ttl, log, name);
    }
  }

  /** What a removal answers after any log. */
  lemma RemovalAnswers(start: Table, ttl: real, log: seq<Event>, name: string)
    requires IsStart(start)
    ensures var answer := RemoveCheck(Run(start, ttl, log), name);
            && (answer == StaticNode <==> Lookup(start.nodes, name).Some?)
            && (answer == Removed <==> Lookup(start.nodes, name).None? && Present(log, name, ttl))
  {
    if Lookup(start.nodes, name).Some? {
      StaticsUnchanged(start, ttl, log, name);
    } else {
      PresentIsLookup(start, ttl, log, name);
    }
  }
}
