/** The execution queue's tables (app/services/execution_queue.py): one function for every
    section run under the queue's lock. */
module QueueSpec {
  import opened Basics

  type TicketId = nat

  /** `permits` is the semaphore's value, `waiting` the ordered dictionary of queued tickets,
      `executing` the running ones with their start times. */
  datatype Tables = Tables(
    permits: nat,
    max: nat,
    avg: real,
    waiting: seq<TicketId>,
    executing: map<TicketId, real>,
    enqueued: nat,
    executed: nat,
    timedOut: nat)

  const ALPHA: real := 0.3

  /** The number of batches of `max` that `position` tickets fill, rounded up. */
  function Batches(position: nat, max: nat): (b: nat)
    requires max >= 1
    ensures position <= b * max < position + max
  {
    var b := (position + max - 1) / max;
    DivBounds(position + max - 1, max);
    b
  }

  lemma DivBounds(n: nat, d: nat)
    requires d >= 1
    ensures n / d * d <= n < n / d * d + d
  {}

  function EstimateWait(position: nat, max: nat, avg: real): real
    requires max >= 1
  {
    Batches(position, max) as real * avg
  }

  function UpdatedAverage(avg: real, time: real): real {
    ALPHA * time + (1.0 - ALPHA) * avg
  }

  /** The queue without the given ticket (OrderedDict.pop). */
  function Drop(waiting: seq<TicketId>, id: TicketId): (r: seq<TicketId>)
    ensures id !in waiting ==> r == waiting
    ensures |r| <= |waiting|
  {
    if waiting == [] then []
    else if waiting[0] == id then waiting[1..]
    else [waiting[0]] + Drop(waiting[1..], id)
  }

  function EnqueueSpec(s: Tables, id: TicketId): Tables {
    s.(waiting := s.waiting + [id], enqueued := s.enqueued + 1)
  }

  function TimeoutSpec(s: Tables, id: TicketId): Tables {
    s.(waiting := Drop(s.waiting, id), timedOut := s.timedOut + 1)
  }

  function StartSpec(s: Tables, id: TicketId, now: real): Tables {
    s.(waiting := Drop(s.waiting, id), executing := s.executing[id := now])
  }

  /** Whether finishing the ticket updates the average: it was started, and not at time 0,
      which the source takes for "not started". */
  predicate Measured(s: Tables, id: TicketId) {
    id in s.executing && s.executing[id] != 0.0
  }

  function FinishSpec(s: Tables, id: TicketId, now: real): Tables {
    s.(executing := s.executing - {id},
       avg := if Measured(s, id) then UpdatedAverage(s.avg, now - s.executing[id]) else s.avg,
       executed := s.executed + 1)
  }

  function ReleaseSpec(s: Tables): Tables {
    s.(permits := s.permits + 1)
  }

  function ClampedMax(n: int): nat {
    if n < 1 then 1 else n
  }

  /** How far a resize lowers the limit. */
  function Lowered(s: Tables, n: int): nat {
    Max(0, s.max - ClampedMax(n))
  }

  /** Resizing: growing releases permits; shrinking takes away `taken` of them. */
  function ResizeSpec(s: Tables, n: int, taken: nat): Tables
    requires taken <= s.permits && taken <= Lowered(s, n)
  {
    var m := ClampedMax(n);
    s.(max := m, permits := if m >= s.max then s.permits + (m - s.max) else s.permits - taken)
  }

  // ---------- Order ----------

  /** The position a waiting ticket is shown, counted from 1. */
  function PositionOf(waiting: seq<TicketId>, id: TicketId): (p: nat)
    requires id in waiting
    ensures 1 <= p <= |waiting| && waiting[p - 1] == id
    ensures forall j :: 0 <= j < p - 1 ==> waiting[j] != id
  {
    if waiting[0] == id then 1 else 1 + PositionOf(waiting[1..], id)
  }

  lemma {:induction false} DropKeepsOrder(waiting: seq<TicketId>, id: TicketId, other: TicketId)
    requires other != id
    ensures other in Drop(waiting, id) <==> other in waiting
    ensures other in waiting ==> PositionOf(Drop(waiting, id), other) <= PositionOf(waiting, other)
  {
    if waiting == [] {
    } else if waiting[0] == id {
      if other in waiting {
        assert PositionOf(waiting, other) == 1 + PositionOf(waiting[1..], other);
      }
    } else {
      DropKeepsOrder(waiting[1..], id, other);
      var rest := Drop(waiting[1..], id);
      assert ([waiting[0]] + rest)[1..] == rest;
      assert other in waiting <==> other == waiting[0] || other in waiting[1..];
    }
  }

  lemma {:induction false} DropRemoves(waiting: seq<TicketId>, id: TicketId)
    requires NoDup(waiting)
    ensures id !in Drop(waiting, id) && NoDup(Drop(waiting, id))
    ensures forall x :: x in Drop(waiting, id) ==> x in waiting
    ensures |Drop(waiting, id)| == |waiting| - if id in waiting then 1 else 0
  {
    if waiting != [] {
      var rest := waiting[1..];
      assert forall i :: 0 <= i < |rest| ==> rest[i] == waiting[i + 1];
      assert waiting[0] !in rest;
      if waiting[0] != id {
        DropRemoves(rest, id);
        assert id in waiting <==> id in rest;
      }
    }
  }

  lemma {:induction false} AppendKeepsPosition(waiting: seq<TicketId>, id: TicketId, other: TicketId)
    requires other in waiting
    ensures PositionOf(waiting + [id], other) == PositionOf(waiting, other)
  {
    if waiting[0] != other {
      assert (waiting + [id])[1..] == waiting[1..] + [id];
      AppendKeepsPosition(waiting[1..], id, other);
    }
  }

  /** A sum of n equal terms. */
  function Times(n: nat, max: nat): nat {
    if n == 0 then 0 else Times(n - 1, max) + max
  }

  lemma {:induction false} TimesIsProduct(n: nat, max: nat)
    ensures Times(n, max) == n * max
  {
    if n > 0 {
      TimesIsProduct(n - 1, max);
      assert n * max == (n - 1) * max + max;
    }
  }

  lemma {:induction false} TimesGrows(a: nat, b: nat, max: nat)
    requires a > b
    ensures Times(a, max) >= Times(b, max) + max
  {
    if a > b + 1 {
      TimesGrows(a - 1, b, max);
    }
  }

  lemma BatchesTimes(a: nat, b: nat, max: nat)
    ensures a > b ==> a * max >= b * max + max
  {
    if a > b {
      TimesIsProduct(a, max);
      TimesIsProduct(b, max);
      hide Times;
      TimesGrows(a, b, max);
    }
  }

  /** The estimate by rounds: the first `max` positions are told one average execution, the next
      `max` two, and so on. */
  lemma EstimateByRounds(position: nat, max: nat, avg: real, rounds: nat)
    requires max >= 1 && rounds >= 1 && (rounds - 1) * max < position <= rounds * max
    ensures EstimateWait(position, max, avg) == rounds as real * avg
  {
    var b := Batches(position, max);
    BatchesTimes(b, rounds, max);
    BatchesTimes(rounds, b, max);
    assert (rounds - 1) * max == rounds * max - max;
  }

  /** Estimates never decrease along the queue. */
  lemma EstimatesGrow(p: nat, q: nat, max: nat, avg: real)
    requires max >= 1 && p <= q && avg >= 0.0
    ensures EstimateWait(p, max, avg) <= EstimateWait(q, max, avg)
  {
    var a, b := Batches(p, max), Batches(q, max);
    BatchesTimes(a, b, max);
    assert (b - a) as real * avg >= 0.0;
  }

  // ---------- The moving average ----------

  /** The average after observing the times in order. */
  function Average(init: real, times: seq<real>): real {
    if times == [] then init
    else UpdatedAverage(Average(init, times[..|times| - 1]), times[|times| - 1])
  }

  function Power(x: real, n: nat): real {
    if n == 0 then 1.0 else x * Power(x, n - 1)
  }

  /** Each observation weighted by its age: the latest counts 0.3, and every later one multiplies
      the weight by 0.7. */
  function Weighted(times: seq<real>): real {
    if times == [] then 0.0
    else 0.3 * Power(0.7, |times| - 1) * times[0] + Weighted(times[1..])
  }

  lemma {:induction false} WeightedAppend(times: seq<real>, t: real)
    ensures Weighted(times + [t]) == 0.7 * Weighted(times) + 0.3 * t
  {
    if times == [] {
      assert [] + [t] == [t] && [t][1..] == [];
    } else {
      var w := times + [t];
      assert w[1..] == times[1..] + [t];
      WeightedAppend(times[1..], t);
      var p := Power(0.7, |times| - 1);
      assert Power(0.7, |w| - 1) == 0.7 * p;
      WeightStep(p, times[0]);
    }
  }

  lemma WeightStep(p: real, x: real)
    ensures 0.3 * (0.7 * p) * x == 0.7 * (0.3 * p * x)
  {}

  /** The closed form of the moving average. */
  lemma {:induction false} AverageClosedForm(init: real, times: seq<real>)
    ensures Average(init, times) == Power(0.7, |times|) * init + Weighted(times)
  {
    if times != [] {
      var n := |times| - 1;
      AverageClosedForm(init, times[..n]);
      WeightedAppend(times[..n], times[n]);
      assert times[..n] + [times[n]] == times;
      var p := Power(0.7, n);
      assert 0.7 * (p * init) == (0.7 * p) * init;
    }
  }

  ghost predicate AllBetween(times: seq<real>, lo: real, hi: real) {
    forall i :: 0 <= i < |times| ==> lo <= times[i] <= hi
  }

  /** The average stays between any bounds on the initial value and the observations. */
  lemma {:induction false} AverageBetween(init: real, times: seq<real>, lo: real, hi: real)
    requires lo <= init <= hi && AllBetween(times, lo, hi)
    ensures lo <= Average(init, times) <= hi
  {
    if times != [] {
      AverageBetween(init, times[..|times| - 1], lo, hi);
    }
  }
}
