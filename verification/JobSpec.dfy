/** Background jobs: the life of one record and the retention of finished ones
    (app/services/job_manager.py). */
module JobSpec {
  import opened Basics
  import opened Sorting

  type JobId = string

  datatype Status = Queued | Running | Succeeded | Failed | Cancelled

  predicate Terminal(s: Status) {
    s.Succeeded? || s.Failed? || s.Cancelled?
  }

  datatype Job = Job(
    timeout: int,
    session: Option<string>,
    createdAt: real,
    status: Status,
    startedAt: Option<real>,
    finishedAt: Option<real>,
    error: Option<string>)

  datatype Config = Config(maxConcurrent: nat, maxTimeout: int, retention: real, maxEntries: nat)

  /** What the runner came back with: a dictionary with its `success` flag and error text, some
      other value, or an exception. */
  datatype Ending = Answer(success: bool, text: string) | Other | Raised(text: string)

  function ClampedTimeout(cfg: Config, timeout: int): int {
    Max(1, Min(timeout, cfg.maxTimeout))
  }

  function NewJob(cfg: Config, timeout: int, session: Option<string>, now: real): Job {
    Job(ClampedTimeout(cfg, timeout), session, now, Queued, None, None, None)
  }

  // ---------- One record ----------

  /** `_run` once it holds a permit. */
  function Begun(j: Job, now: real): Job {
    j.(status := Running, startedAt := Some(now))
  }

  /** The `finally` block sets the time only once. */
  function Stamped(j: Job, now: real): Job {
    if j.finishedAt.None? then j.(finishedAt := Some(now)) else j
  }

  function Ended(j: Job, ending: Ending, now: real): Job {
    match ending
    case Answer(true, _) => Stamped(j.(status := Succeeded), now)
    case Answer(false, text) => Stamped(j.(status := Failed, error := Some(if text == "" then "execution failed" else text)), now)
    case Other => Stamped(j.(status := Failed), now)
    case Raised(text) => Stamped(j.(status := Failed, error := Some(text)), now)
  }

  /** The CancelledError branch. */
  function Interrupted(j: Job, now: real): Job {
    Stamped(j.(status := Cancelled, error := Some("cancelled")), now)
  }

  /** What `cancel` writes into a record that has not ended. */
  function Stopped(j: Job, now: real): Job {
    j.(status := Cancelled, error := Some("cancelled"), finishedAt := Some(now))
  }

  // ---------- Retention ----------

  predicate Expired(cfg: Config, j: Job, now: real) {
    Terminal(j.status) && j.finishedAt.Some? && now - j.finishedAt.value > cfg.retention
  }

  /** `finished_at or created_at`: a time of zero counts as missing. */
  function SortTime(j: Job): real {
    if j.finishedAt.Some? && j.finishedAt.value != 0.0 then j.finishedAt.value else j.createdAt
  }

  function Age(records: map<JobId, Job>): JobId -> real {
    (id: JobId) => if id in records then SortTime(records[id]) else 0.0
  }

  function IdSet(ids: seq<JobId>): set<JobId> {
    set id | id in ids
  }

  function ExpiredIds(cfg: Config, order: seq<JobId>, records: map<JobId, Job>, now: real): set<JobId> {
    set id | id in order && id in records && Expired(cfg, records[id], now)
  }

  function TerminalIds(order: seq<JobId>, records: map<JobId, Job>): set<JobId> {
    set id | id in order && id in records && Terminal(records[id].status)
  }

  /** The terminal records from the oldest to the newest. */
  function ByAge(order: seq<JobId>, records: map<JobId, Job>): seq<JobId> {
    SortBy(Select(order, TerminalIds(order, records)), Age(records))
  }

  /** Those the size limit evicts. */
  function Evicted(cfg: Config, order: seq<JobId>, records: map<JobId, Job>): seq<JobId> {
    if |order| <= cfg.maxEntries then []
    else
      var finished := ByAge(order, records);
      finished[..Min(|order| - cfg.maxEntries, |finished|)]
  }

  function Without(ids: seq<JobId>, gone: set<JobId>): seq<JobId> {
    Select(ids, IdSet(ids) - gone)
  }

  /** The table after `prune`: `order` is the dictionary in insertion order. */
  function PruneSpec(cfg: Config, order: seq<JobId>, records: map<JobId, Job>, now: real): seq<JobId> {
    var young := Without(order, ExpiredIds(cfg, order, records, now));
    Without(young, IdSet(Evicted(cfg, young, records)))
  }

  lemma IdSetSize(ids: seq<JobId>)
    requires NoDup(ids)
    ensures |IdSet(ids)| == |ids|
  {
    if ids == [] {
      assert IdSet(ids) == {};
    } else {
      var n := |ids| - 1;
      IdSetSize(ids[..n]);
      assert ids == ids[..n] + [ids[n]];
      assert IdSet(ids) == IdSet(ids[..n]) + {ids[n]};
    }
  }

  lemma WithoutSize(ids: seq<JobId>, gone: set<JobId>)
    requires NoDup(ids) && gone <= IdSet(ids)
    ensures |Without(ids, gone)| == |ids| - |gone|
  {
    IdSetSize(ids);
    IdSetSize(Without(ids, gone));
    assert IdSet(Without(ids, gone)) == IdSet(ids) - gone;
  }

  lemma NoDupFromMultiset(ids: seq<JobId>)
    ensures NoDup(ids) <==> forall id :: multiset(ids)[id] <= 1
  {
    if ids != [] {
      var n := |ids| - 1;
      var rest, x := ids[..n], ids[n];
      NoDupFromMultiset(rest);
      assert ids == rest + [x];
      assert multiset(ids) == multiset(rest) + multiset{x};
      if x in rest {
        assert multiset(ids)[x] >= 2;
        var k :| 0 <= k < n && rest[k] == x;
        assert ids[k] == ids[n];
      } else {
        assert multiset(rest)[x] == 0;
        assert NoDup(ids) <==> NoDup(rest);
        assert forall id :: multiset(ids)[id] == if id == x then 1 else multiset(rest)[id];
      }
    }
  }

  lemma ByAgeFacts(order: seq<JobId>, records: map<JobId, Job>)
    requires NoDup(order)
    ensures var r := ByAge(order, records);
            NoDup(r) && IdSet(r) == TerminalIds(order, records) && Ordered(r, Age(records))
  {
    var chosen := Select(order, TerminalIds(order, records));
    var r := ByAge(order, records);
    SortOrdered(chosen, Age(records));
    NoDupFromMultiset(chosen);
    NoDupFromMultiset(r);
    forall id ensures id in r <==> id in TerminalIds(order, records) {
      assert id in r <==> id in multiset(r);
      assert id in chosen <==> id in multiset(chosen);
    }
  }

  /** The eviction by itself: as many of the oldest terminal records as the table is too long
      by, or all of them. */
  lemma EvictedFacts(cfg: Config, order: seq<JobId>, records: map<JobId, Job>)
    requires NoDup(order)
    ensures var out := Evicted(cfg, order, records);
            var gone := IdSet(out);
            && NoDup(out) && gone <= TerminalIds(order, records)
            && |gone| == Min(Max(0, |order| - cfg.maxEntries), |TerminalIds(order, records)|)
            && (forall g, k :: g in gone && k in TerminalIds(order, records) && k !in gone
                               ==> Age(records)(g) <= Age(records)(k))
  {
    hide ByAge, TerminalIds, Age;
    ByAgeFacts(order, records);
    var finished := ByAge(order, records);
    IdSetSize(finished);
    assert finished[..0] == [];
    OldestFirst(finished, |Evicted(cfg, order, records)|, Age(records));
  }

  lemma OldestFirst(finished: seq<JobId>, n: nat, age: JobId -> real)
    requires NoDup(finished) && Ordered(finished, age) && n <= |finished|
    ensures var gone := IdSet(finished[..n]);
            && NoDup(finished[..n]) && gone <= IdSet(finished) && |gone| == n
            && (forall g, k :: g in gone && k in IdSet(finished) && k !in gone ==> age(g) <= age(k))
  {
    var out := finished[..n];
    IdSetSize(out);
    forall g, k | g in IdSet(out) && k in IdSet(finished) && k !in IdSet(out) ensures age(g) <= age(k) {
      var i :| 0 <= i < n && out[i] == g;
      var j :| 0 <= j < |finished| && finished[j] == k;
      assert forall h :: 0 <= h < n ==> finished[h] == out[h] && out[h] in out;
    }
  }

  predicate Unfinished(j: Job) {
    j.status.Queued? || j.status.Running?
  }

  /** Finished at most so long ago, or without a finishing time. */
  predicate FinishedWithin(j: Job, now: real, retention: real) {
    j.finishedAt.Some? ==> now <= j.finishedAt.value + retention
  }

  /** The time a finished record is ordered by: its finishing time, or if that is missing or zero
      its creation. */
  predicate DatedAt(j: Job, time: real) {
    time == if j.finishedAt.Some? && j.finishedAt.value != 0.0 then j.finishedAt.value else j.createdAt
  }

  /** `prune` keeps every unfinished job, leaves no finished one past its retention, and leaves
      either a table within its size or no finished job at all. */
  lemma PruneRetention(cfg: Config, order: seq<JobId>, records: map<JobId, Job>, now: real)
    requires NoDup(order) && forall id :: id in order ==> id in records
    ensures var kept := PruneSpec(cfg, order, records, now);
            && NoDup(kept)
            && (forall id :: id in kept ==> id in order && (Unfinished(records[id]) || FinishedWithin(records[id], now, cfg.retention)))
            && (forall id :: id in order && Unfinished(records[id]) ==> id in kept)
            && (forall id :: id in order && id !in kept && FinishedWithin(records[id], now, cfg.retention) ==> |kept| >= cfg.maxEntries)
            && (|kept| <= cfg.maxEntries || forall id :: id in kept ==> Unfinished(records[id]))
  {
    var young := Without(order, ExpiredIds(cfg, order, records, now));
    EvictedFacts(cfg, young, records);
    var gone := IdSet(Evicted(cfg, young, records));
    WithoutSize(young, gone);
    if |young| > cfg.maxEntries && |TerminalIds(young, records)| < |young| - cfg.maxEntries {
      SameSize(gone, TerminalIds(young, records));
    }
  }

  lemma SameSize(a: set<JobId>, b: set<JobId>)
    requires a <= b && |a| == |b|
    ensures a == b
  {
    assert |b - a| == |b| - |a|;
  }

  /** What `prune` drops before its time is never newer than a finished record it keeps, and it
      drops no more than needed. */
  lemma PruneEvictsOldest(cfg: Config, order: seq<JobId>, records: map<JobId, Job>, now: real,
                          g: JobId, dropped: real, k: JobId, kept: real)
    requires NoDup(order) && forall id :: id in order ==> id in records
    requires var left := PruneSpec(cfg, order, records, now);
             && g in order && g !in left && FinishedWithin(records[g], now, cfg.retention)
             && k in left && !Unfinished(records[k])
    requires DatedAt(records[g], dropped) && DatedAt(records[k], kept)
    ensures dropped <= kept
    ensures dropped == kept ==> Before(order, g, k)
    ensures |PruneSpec(cfg, order, records, now)| == cfg.maxEntries
  {
    var young := Without(order, ExpiredIds(cfg, order, records, now));
    EvictedFacts(cfg, young, records);
    var gone := IdSet(Evicted(cfg, young, records));
    WithoutSize(young, gone);
    assert g in gone && k !in gone && k in TerminalIds(young, records);
    assert Age(records)(g) <= Age(records)(k);
    if |gone| == |TerminalIds(young, records)| {
      SameSize(gone, TerminalIds(young, records));
    }
    if SortTime(records[g]) == SortTime(records[k]) {
      EvictedBefore(cfg, young, records, g, k);
      BeforeSelected(order, IdSet(order) - ExpiredIds(cfg, order, records, now), g, k);
    }
  }

  /** Among records of the same age the one that stands first in the table goes first. */
  lemma EvictedBefore(cfg: Config, order: seq<JobId>, records: map<JobId, Job>, g: JobId, k: JobId)
    requires NoDup(order)
    requires g in Evicted(cfg, order, records) && k !in Evicted(cfg, order, records) && k in TerminalIds(order, records)
    requires Age(records)(g) == Age(records)(k)
    ensures Before(order, g, k)
  {
    hide TerminalIds, Age;
    ByAgeFacts(order, records);
    var finished, out := ByAge(order, records), Evicted(cfg, order, records);
    var chosen := Select(order, TerminalIds(order, records));
    EvictedStandBefore(finished, |out|, g, k);
    hide Before;
    SortKeepsOrder(chosen, Age(records), g, k);
    BeforeSelected(order, TerminalIds(order, records), g, k);
  }

  lemma EvictedStandBefore(finished: seq<JobId>, n: nat, g: JobId, k: JobId)
    requires n <= |finished| && g in finished[..n] && k in finished && k !in finished[..n]
    ensures Before(finished, g, k)
  {
    var i :| 0 <= i < n && finished[..n][i] == g;
    var j :| 0 <= j < |finished| && finished[j] == k;
    assert finished[i] == g;
    assert j >= n by {
      assert forall h :: 0 <= h < n ==> finished[h] == finished[..n][h] && finished[..n][h] in finished[..n];
    }
  }

  /** Unfinished jobs of a table. */
  function LiveIds(order: seq<JobId>, records: map<JobId, Job>): set<JobId> {
    set id | id in order && id in records && !Terminal(records[id].status)
  }

  /** After the pruning that `submit` begins with, there are at most as many records as the
      limit, or as jobs still alive. */
  lemma PrunedSize(cfg: Config, order: seq<JobId>, records: map<JobId, Job>, now: real)
    requires NoDup(order) && forall id :: id in order ==> id in records
    ensures |PruneSpec(cfg, order, records, now)| <= Max(cfg.maxEntries, |LiveIds(order, records)|)
  {
    PruneRetention(cfg, order, records, now);
    var kept := PruneSpec(cfg, order, records, now);
    if |kept| > cfg.maxEntries {
      IdSetSize(kept);
      assert IdSet(kept) <= LiveIds(order, records);
      SubsetSize(IdSet(kept), LiveIds(order, records));
    }
  }
}
