/** The execution queue as the object that owns the tickets (app/services/execution_queue.py).

    Tickets are shared between the queue and the requests that wait on them; every method is
    one section run under the queue's lock and leaves each waiting ticket with its current
    position and estimate. */
module ExecutionQueue {
  import opened Basics
  import opened QueueSpec

  datatype Status = Queued | Executing | Completed

  class QueueTicket {
    const id: TicketId
    var position: nat
    var estimatedWait: real
    var status: Status
    var startedAt: Option<real>
    var completedAt: Option<real>

    constructor (id: TicketId)
      ensures this.id == id && position == 0 && status == Queued && startedAt == None && completedAt == None
    {
      this.id := id;
      position, estimatedWait, status, startedAt, completedAt := 0, 0.0, Queued, None, None;
    }

    function StartTime(): real
      reads this
    {
      if startedAt.Some? then startedAt.value else 0.0
    }
  }

  ghost function TicketIds(q: seq<QueueTicket>): (ids: seq<TicketId>)
    ensures |ids| == |q|
  {
    seq(|q|, i requires 0 <= i < |q| => q[i].id)
  }

  /** The list without the ticket of the given id. */
  function DropTicket(q: seq<QueueTicket>, id: TicketId): (r: seq<QueueTicket>)
    ensures forall t :: t in r ==> t in q
  {
    if q == [] then []
    else if q[0].id == id then q[1..]
    else [q[0]] + DropTicket(q[1..], id)
  }

  lemma {:induction false} DropTicketIds(q: seq<QueueTicket>, id: TicketId)
    ensures TicketIds(DropTicket(q, id)) == Drop(TicketIds(q), id)
  {
    if q != [] {
      DropTicketIds(q[1..], id);
      assert TicketIds(q)[1..] == TicketIds(q[1..]);
    }
  }

  ghost predicate DistinctIds(q: seq<QueueTicket>) {
    forall i, j :: 0 <= i < j < |q| ==> q[i].id != q[j].id
  }

  lemma DropTicketDistinct(q: seq<QueueTicket>, id: TicketId)
    requires DistinctIds(q)
    ensures DistinctIds(DropTicket(q, id))
    ensures forall t :: t in DropTicket(q, id) <==> t in q && t.id != id
  {
    var ids := TicketIds(q);
    assert NoDup(ids);
    DropTicketIds(q, id);
    DropRemoves(ids, id);
    var r := DropTicket(q, id);
    forall i, j | 0 <= i < j < |r| ensures r[i].id != r[j].id {
      assert TicketIds(r)[i] == r[i].id && TicketIds(r)[j] == r[j].id;
    }
    forall t | t in r ensures t.id != id {
      var i :| 0 <= i < |r| && r[i] == t;
      assert TicketIds(r)[i] == t.id;
    }
    forall t | t in q && t.id != id ensures t in r {
      DropTicketKeeps(q, id, t);
    }
  }

  lemma {:induction false} DropTicketKeeps(q: seq<QueueTicket>, id: TicketId, t: QueueTicket)
    requires t in q && t.id != id
    ensures t in DropTicket(q, id)
  {
    if q[0].id != id && q[0] != t {
      DropTicketKeeps(q[1..], id, t);
    }
  }

  ghost function StartTimes(executing: map<TicketId, QueueTicket>): map<TicketId, real>
    reads executing.Values
  {
    map id | id in executing :: executing[id].StartTime()
  }

  lemma StartTimesWithout(executing: map<TicketId, QueueTicket>, id: TicketId)
    ensures StartTimes(executing - {id}) == StartTimes(executing) - {id}
  {}

  class ExecutionQueue {
    var permits: nat
    var maxConcurrent: nat
    var avg: real
    var queue: seq<QueueTicket>
    var executing: map<TicketId, QueueTicket>
    var totalEnqueued: nat
    var totalExecuted: nat
    var totalTimedOut: nat

    /** The tickets the queue refers to. */
    ghost function Tickets(): set<QueueTicket>
      reads this
    {
      (set t | t in queue) + executing.Values
    }

    ghost function State(): Tables
      reads this, Tickets()
    {
      Tables(permits, maxConcurrent, avg, TicketIds(queue),
             StartTimes(executing),
             totalEnqueued, totalExecuted, totalTimedOut)
    }

    ghost predicate Numbered()
      reads this, Tickets()
    {
      && maxConcurrent >= 1
      && forall i :: 0 <= i < |queue| ==>
           && queue[i].position == i + 1
           && queue[i].estimatedWait == EstimateWait(i + 1, maxConcurrent, avg)
    }

    /** Ids are not shared between tickets, and nothing both waits and executes. */
    ghost predicate Linked()
      reads this, Tickets()
    {
      && maxConcurrent >= 1
      && DistinctIds(queue)
      && (forall id :: id in executing ==> executing[id].id == id && executing[id].startedAt.Some?)
      && (forall t :: t in queue ==> t.id !in executing && t.startedAt.None?)
    }

    ghost predicate Valid()
      reads this, Tickets()
    {
      Linked() && Numbered()
    }

    constructor (maxConcurrent: nat, avg: real)
      requires maxConcurrent >= 1
      ensures Valid()
      ensures State() == Tables(maxConcurrent, maxConcurrent, avg, [], map[], 0, 0, 0)
    {
      permits, this.maxConcurrent, this.avg := maxConcurrent, maxConcurrent, avg;
      queue, executing := [], map[];
      totalEnqueued, totalExecuted, totalTimedOut := 0, 0, 0;
    }

    /** Rewrites the position and the estimate of every waiting ticket. */
    method RefreshPositions()
      requires Linked()
      modifies (set t | t in queue)`position, (set t | t in queue)`estimatedWait
      ensures Valid()
    {
      var i := 0;
      while i < |queue|
        invariant 0 <= i <= |queue|
        invariant forall k :: 0 <= k < i ==>
          queue[k].position == k + 1 && queue[k].estimatedWait == EstimateWait(k + 1, maxConcurrent, avg)
      {
        queue[i].position := i + 1;
        queue[i].estimatedWait := EstimateWait(queue[i].position, maxConcurrent, avg);
        i := i + 1;
      }
    }

    /** Entering the queue. */
    method Enqueue(ticket: QueueTicket)
      requires Valid() && ticket.startedAt.None?
      requires ticket.id !in executing && ticket.id !in TicketIds(queue)
      modifies this, Tickets()`position, Tickets()`estimatedWait, ticket`position, ticket`estimatedWait
      ensures State() == EnqueueSpec(old(State()), ticket.id)
      ensures queue == old(queue) + [ticket] && ticket.position == |queue|
      ensures Valid()
    {
      assert forall i :: 0 <= i < |queue| ==> TicketIds(queue)[i] == queue[i].id;
      queue := queue + [ticket];
      totalEnqueued := totalEnqueued + 1;
      assert TicketIds(queue) == old(TicketIds(queue)) + [ticket.id];
      RefreshPositions();
      assert queue[|queue| - 1] == ticket;
    }

    /** The section a request runs when waiting for the semaphore timed out. */
    method DropTimedOut(ticket: QueueTicket)
      requires Valid()
      modifies this, Tickets()`position, Tickets()`estimatedWait
      ensures State() == TimeoutSpec(old(State()), ticket.id)
      ensures ticket !in queue
      ensures Valid()
    {
      DropTicketIds(queue, ticket.id);
      DropTicketDistinct(queue, ticket.id);
      queue := DropTicket(queue, ticket.id);
      totalTimedOut := totalTimedOut + 1;
      RefreshPositions();
    }

    /** The section a request runs once it holds a permit. */
    method Start(ticket: QueueTicket, now: real)
      requires Valid() && ticket in queue
      modifies this, Tickets()
      ensures State() == StartSpec(old(State()), ticket.id, now)
      ensures ticket.status == Executing && ticket.startedAt == Some(now)
      ensures Valid()
    {
      hide DistinctIds, Drop, DropTicket, EstimateWait;
      DropTicketIds(queue, ticket.id);
      DropTicketDistinct(queue, ticket.id);
      queue := DropTicket(queue, ticket.id);
      ticket.status := Executing;
      ticket.startedAt := Some(now);
      executing := executing[ticket.id := ticket];
      RefreshPositions();
      assert State().executing == old(State()).executing[ticket.id := now];
    }

    /** The `finally` section, which timed-out requests run as well. */
    method Finish(ticket: QueueTicket, now: real)
      requires Valid() && ticket !in queue
      requires if ticket.id in executing then executing[ticket.id] == ticket else ticket.startedAt.None?
      modifies this, Tickets()`position, Tickets()`estimatedWait, ticket`status, ticket`completedAt
      ensures State() == FinishSpec(old(State()), ticket.id, now)
      ensures ticket.status == Completed && ticket.completedAt == Some(now)
      ensures Valid()
    {
      hide DistinctIds, Drop, DropTicket, EstimateWait, UpdatedAverage;
      ticket.status := Completed;
      ticket.completedAt := Some(now);
      executing := executing - {ticket.id};
      if ticket.startedAt.Some? && ticket.startedAt.value != 0.0 {
        avg := UpdatedAverage(avg, now - ticket.startedAt.value);
      }
      totalExecuted := totalExecuted + 1;
      RefreshPositions();
      StartTimesWithout(old(executing), ticket.id);
      assert StartTimes(old(executing)) == old(StartTimes(executing));
      assert State().waiting == old(State()).waiting;
    }

    /** Returning the permit, after the `finally` section. */
    method ReleasePermit()
      requires Valid()
      modifies `permits
      ensures State() == ReleaseSpec(old(State()))
      ensures Valid()
    {
      permits := permits + 1;
    }

    /** Changes the limit; `taken` is how many permits the shrink manages to take away. */
    method Resize(newMax: int, taken: nat)
      requires Valid()
      requires taken <= permits && taken <= Lowered(State(), newMax)
      modifies this, Tickets()`position, Tickets()`estimatedWait
      ensures State() == ResizeSpec(old(State()), newMax, taken)
      ensures Valid()
    {
      var limit := ClampedMax(newMax);
      if limit == maxConcurrent {
        return;
      }
      var delta := limit - maxConcurrent;
      maxConcurrent := limit;
      var i := 0;
      if delta > 0 {
        while i < delta
          modifies `permits
          invariant 0 <= i <= delta
          invariant permits == old(permits) + i
        {
          permits := permits + 1;
          i := i + 1;
        }
      } else {
        while i < taken
          modifies `permits
          invariant 0 <= i <= taken
          invariant permits == old(permits) - i
        {
          permits := permits - 1;
          i := i + 1;
        }
      }
      RefreshPositions();
    }
  }
}
