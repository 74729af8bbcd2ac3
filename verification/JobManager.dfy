/** The job manager as the object that owns the records and the permits
    (app/services/job_manager.py).

    `_run` gives up control twice, at the semaphore and in the runner; each stretch between is a
    method of its own. */
module JobManager {
  import opened Basics
  import opened Sorting
  import opened JobSpec

  class JobRecord {
    const id: JobId
    const timeout: int
    const session: Option<string>
    const createdAt: real
    var status: Status
    var startedAt: Option<real>
    var finishedAt: Option<real>
    var error: Option<string>

    function View(): Job
      reads this
    {
      Job(timeout, session, createdAt, status, startedAt, finishedAt, error)
    }

    constructor (id: JobId, timeout: int, session: Option<string>, now: real)
      ensures this.id == id && View() == Job(timeout, session, now, Queued, None, None, None)
    {
      this.id, this.timeout, this.session, createdAt := id, timeout, session, now;
      status, startedAt, finishedAt, error := Queued, None, None, None;
    }

    method Stamp(now: real)
      modifies this
      ensures View() == Stamped(old(View()), now)
    {
      if finishedAt.None? {
        finishedAt := Some(now);
      }
    }
  }

  function Views(jobs: map<JobId, JobRecord>): (r: map<JobId, Job>)
    reads jobs.Values
    ensures r.Keys == jobs.Keys
  {
    map id | id in jobs :: jobs[id].View()
  }

  class JobManager {
    const cfg: Config
    var order: seq<JobId>
    var jobs: map<JobId, JobRecord>
    var tasks: set<JobId>
    var stopRequested: set<JobId>
    var permits: nat

    function Records(): map<JobId, Job>
      reads this, jobs.Values
    {
      Views(jobs)
    }

    ghost predicate Valid()
      reads this
    {
      && NoDup(order)
      && (forall id :: id in order <==> id in jobs)
      && (forall id :: id in jobs ==> jobs[id].id == id)
    }

    constructor (cfg: Config)
      ensures Valid() && this.cfg == cfg && order == [] && Records() == map[]
      ensures tasks == {} && stopRequested == {} && permits == cfg.maxConcurrent
    {
      this.cfg := cfg;
      order, jobs, tasks, stopRequested, permits := [], map[], {}, {}, cfg.maxConcurrent;
    }

    /** Takes a job in and answers at once with its queued record. */
    method Submit(id: JobId, timeout: int, session: Option<string>, now: real) returns (record: JobRecord)
      requires Valid() && id !in jobs
      modifies `order, `jobs, `tasks
      ensures fresh(record) && record.id == id && record.View() == NewJob(cfg, timeout, session, now)
      ensures order == PruneSpec(cfg, old(order), old(Records()), now) + [id]
      ensures id in jobs && jobs[id] == record
      ensures forall k :: k in jobs && k != id ==> k in old(jobs) && jobs[k] == old(jobs)[k]
      ensures tasks == old(tasks) + {id}
      ensures Valid()
    {
      hide PruneSpec, Views;
      Prune(now);
      var clamped := Max(1, Min(timeout, cfg.maxTimeout));
      record := new JobRecord(id, clamped, session, now);
      order := order + [id];
      jobs := jobs[id := record];
      tasks := tasks + {id};
    }

    /** `_run` from the moment it holds a permit until it awaits the runner; false if the job was
        cancelled in the meantime. */
    method Begin(record: JobRecord, now: real) returns (running: bool)
      requires permits > 0
      modifies `permits, `tasks, record
      ensures running <==> !old(record.status).Cancelled?
      ensures record.View() == if running then Begun(old(record.View()), now) else Stamped(old(record.View()), now)
      ensures permits == old(permits) - if running then 1 else 0
      ensures tasks == old(tasks) - if running then {} else {record.id}
    {
      permits := permits - 1;
      if record.status.Cancelled? {
        permits := permits + 1;
        record.Stamp(now);
        tasks := tasks - {record.id};
        return false;
      }
      record.status := Running;
      record.startedAt := Some(now);
      return true;
    }

    /** `_run` after the runner has answered or raised. */
    method End(record: JobRecord, ending: Ending, now: real)
      modifies `permits, `tasks, record
      ensures record.View() == Ended(old(record.View()), ending, now)
      ensures permits == old(permits) + 1 && tasks == old(tasks) - {record.id}
    {
      match ending {
        case Answer(success, text) =>
          record.status := if success then Succeeded else Failed;
          if record.status.Failed? {
            record.error := Some(if text == "" then "execution failed" else text);
          }
        case Other =>
          record.status := Failed;
        case Raised(text) =>
          record.status := Failed;
          record.error := Some(text);
      }
      permits := permits + 1;
      record.Stamp(now);
      tasks := tasks - {record.id};
    }

    /** `_run` when the cancellation reaches it, at the semaphore or inside the runner. */
    method Interrupt(record: JobRecord, holding: bool, now: real)
      modifies `permits, `tasks, record
      ensures record.View() == Interrupted(old(record.View()), now)
      ensures record.status.Cancelled? && record.error == Some("cancelled")
      ensures record.finishedAt == if old(record.finishedAt).None? then Some(now) else old(record.finishedAt)
      ensures permits == old(permits) + if holding then 1 else 0
      ensures tasks == old(tasks) - {record.id}
    {
      if holding {
        permits := permits + 1;
      }
      record.status := Cancelled;
      record.error := Some("cancelled");
      record.Stamp(now);
      tasks := tasks - {record.id};
    }

    /** Marks an unfinished job cancelled and tells its task to stop; a finished one stays as
        it is. */
    method Cancel(id: JobId, now: real) returns (record: JobRecord?)
      requires Valid()
      modifies `stopRequested, jobs.Values
      ensures record == null <==> id !in jobs
      ensures record != null ==> record == jobs[id]
      ensures Records() == if id !in old(Records()) || Terminal(old(Records())[id].status) then old(Records())
                           else old(Records())[id := Stopped(old(Records())[id], now)]
      ensures stopRequested == old(stopRequested)
                               + if id in old(Records()) && !Terminal(old(Records())[id].status) && id in tasks then {id} else {}
      ensures Valid()
    {
      if id !in jobs {
        return null;
      }
      hide NoDup;
      record := jobs[id];
      if record.status.Succeeded? || record.status.Failed? || record.status.Cancelled? {
        return record;
      }
      record.status := Cancelled;
      record.error := Some("cancelled");
      record.finishedAt := Some(now);
      if id in tasks {
        stopRequested := stopRequested + {id};
      }
      assert Records() == old(Records())[id := record.View()];
    }

    method Pop(id: JobId)
      requires Valid()
      modifies `order, `jobs
      ensures order == Without(old(order), {id})
      ensures jobs == old(jobs) - {id}
      ensures Valid()
    {
      order := Without(order, {id});
      jobs := jobs - {id};
    }

    method PopAll(ids: seq<JobId>)
      requires Valid()
      modifies `order, `jobs
      ensures order == Without(old(order), IdSet(ids))
      ensures jobs == old(jobs) - IdSet(ids)
      ensures Valid()
    {
      var i := 0;
      hide Valid, Left, LeftJobs;
      LeftEnds(order, jobs, ids);
      while i < |ids|
        invariant 0 <= i <= |ids|
        invariant order == Left(old(order), ids, i)
        invariant jobs == LeftJobs(old(jobs), ids, i)
        invariant Valid()
      {
        LeftStep(old(order), old(jobs), ids, i);
        Pop(ids[i]);
        i := i + 1;
      }
    }

    /** The first list of `prune`, in table order. */
    method ListExpired(now: real) returns (ids: seq<JobId>)
      requires Valid()
      ensures IdSet(ids) == ExpiredIds(cfg, order, Records(), now)
    {
      ids := [];
      var i := 0;
      while i < |order|
        invariant 0 <= i <= |order|
        invariant forall id :: id in ids <==> id in order[..i] && Expired(cfg, jobs[id].View(), now)
      {
        var record := jobs[order[i]];
        assert order[..i + 1] == order[..i] + [order[i]];
        if (record.status.Succeeded? || record.status.Failed? || record.status.Cancelled?)
           && record.finishedAt.Some? && now - record.finishedAt.value > cfg.retention {
          ids := ids + [order[i]];
        }
        i := i + 1;
      }
      assert order[..i] == order;
    }

    /** The second list of `prune`, in table order. */
    method ListTerminal() returns (ids: seq<JobId>)
      requires Valid()
      ensures ids == Select(order, TerminalIds(order, Records()))
    {
      hide NoDup;
      ids := [];
      ghost var chosen := TerminalIds(order, Records());
      var i := 0;
      while i < |order|
        invariant 0 <= i <= |order|
        invariant ids == Select(order[..i], chosen)
      {
        var record := jobs[order[i]];
        assert order[..i + 1][..i] == order[..i];
        assert order[i] in order;
        if record.status.Succeeded? || record.status.Failed? || record.status.Cancelled? {
          ids := ids + [order[i]];
        }
        i := i + 1;
      }
      assert order[..i] == order;
    }

    /** Drops the finished records past their retention, and of a table still too long the
        oldest finished ones. */
    method Prune(now: real)
      requires Valid()
      modifies `order, `jobs
      ensures order == PruneSpec(cfg, old(order), old(Records()), now)
      ensures forall id :: id in jobs ==> id in old(jobs) && jobs[id] == old(jobs)[id]
      ensures Valid()
    {
      var expired := ListExpired(now);
      PopAll(expired);
      SameEvicted(cfg, order, Records(), old(Records()));
      if |order| > cfg.maxEntries {
        Evict();
      } else {
        WithoutNothing(order);
        assert IdSet([]) == {};
      }
    }

    method Evict()
      requires Valid() && |order| > cfg.maxEntries
      modifies `order, `jobs
      ensures order == Without(old(order), IdSet(Evicted(cfg, old(order), old(Records()))))
      ensures forall id :: id in jobs ==> id in old(jobs) && jobs[id] == old(jobs)[id]
      ensures Valid()
    {
      hide Select, NoDup, TerminalIds, Views, Without, Valid, SortBy, Age;
      var finished := ListTerminal();
      var records := Records();
      finished := SortBy(finished, Age(records));
      var overflow := |order| - cfg.maxEntries;
      PopAll(finished[..Min(overflow, |finished|)]);
    }
  }

  lemma {:induction false} WithoutNothing(ids: seq<JobId>)
    ensures Without(ids, {}) == ids
  {
    SelectAll(ids, IdSet(ids));
    assert IdSet(ids) - {} == IdSet(ids);
  }

  lemma WithoutMore(ids: seq<JobId>, gone: set<JobId>, id: JobId)
    ensures Without(Without(ids, gone), {id}) == Without(ids, gone + {id})
  {
    var r := Without(ids, gone);
    SelectTwice(ids, IdSet(ids) - gone, IdSet(r) - {id});
    SelectSame(ids, (IdSet(ids) - gone) * (IdSet(r) - {id}), IdSet(ids) - (gone + {id}));
  }

  lemma SameEvicted(cfg: Config, order: seq<JobId>, a: map<JobId, Job>, b: map<JobId, Job>)
    requires forall id :: id in order ==> id in a && id in b && a[id] == b[id]
    ensures Evicted(cfg, order, a) == Evicted(cfg, order, b)
  {
    assert TerminalIds(order, a) == TerminalIds(order, b);
    SortSame(Select(order, TerminalIds(order, a)), Age(a), Age(b));
  }

  /** The table after the first n removals. */
  function Left(order: seq<JobId>, ids: seq<JobId>, n: nat): seq<JobId>
    requires n <= |ids|
  {
    Without(order, IdSet(ids[..n]))
  }

  function LeftJobs(jobs: map<JobId, JobRecord>, ids: seq<JobId>, n: nat): map<JobId, JobRecord>
    requires n <= |ids|
  {
    jobs - IdSet(ids[..n])
  }

  lemma LeftEnds(order: seq<JobId>, jobs: map<JobId, JobRecord>, ids: seq<JobId>)
    ensures Left(order, ids, 0) == order && Left(order, ids, |ids|) == Without(order, IdSet(ids))
    ensures LeftJobs(jobs, ids, 0) == jobs && LeftJobs(jobs, ids, |ids|) == jobs - IdSet(ids)
  {
    assert IdSet(ids[..0]) == {} && ids[..|ids|] == ids;
    WithoutNothing(order);
  }

  lemma LeftStep(order: seq<JobId>, jobs: map<JobId, JobRecord>, ids: seq<JobId>, i: nat)
    requires i < |ids|
    ensures Left(order, ids, i + 1) == Without(Left(order, ids, i), {ids[i]})
    ensures LeftJobs(jobs, ids, i + 1) == LeftJobs(jobs, ids, i) - {ids[i]}
  {
    IdSetStep(ids, i);
    WithoutMore(order, IdSet(ids[..i]), ids[i]);
  }

  lemma IdSetStep(ids: seq<JobId>, i: nat)
    requires i < |ids|
    ensures IdSet(ids[..i + 1]) == IdSet(ids[..i]) + {ids[i]}
  {
    assert ids[..i + 1] == ids[..i] + [ids[i]];
  }
}
