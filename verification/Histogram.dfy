/** The histogram of execution times (app/services/health_monitor.py): recording bumps one bucket,
    the export adds the buckets up. */
module Histogram {
  import opened Basics

  datatype Execution = Execution(duration: real, success: bool)

  const BOUNDS: seq<real> := [0.1, 0.25, 0.5, 1.0, 2.0, 5.0, 10.0, 30.0, 60.0]

  function Clamped(e: Execution): real {
    MaxReal(0.0, e.duration)
  }

  ghost predicate Sorted(bounds: seq<real>) {
    forall i, j :: 0 <= i < j < |bounds| ==> bounds[i] < bounds[j]
  }

  /** How many executions took no longer than the bound. */
  function NotAbove(es: seq<Execution>, bound: real): nat {
    if es == [] then 0
    else NotAbove(es[..|es| - 1], bound) + (if Clamped(es[|es| - 1]) <= bound then 1 else 0)
  }

  function Successes(es: seq<Execution>): nat {
    if es == [] then 0 else Successes(es[..|es| - 1]) + (if es[|es| - 1].success then 1 else 0)
  }

  function TotalTime(es: seq<Execution>): real {
    if es == [] then 0.0 else TotalTime(es[..|es| - 1]) + Clamped(es[|es| - 1])
  }

  /** The first bucket that takes the duration, or one past the last. */
  function Bucket(bounds: seq<real>, d: real): (k: nat)
    ensures k <= |bounds| && (forall j :: 0 <= j < k ==> bounds[j] < d) && (k < |bounds| ==> d <= bounds[k])
  {
    if bounds == [] || d <= bounds[0] then 0
    else
      var k := Bucket(bounds[1..], d) + 1;
      assert forall j :: 0 < j < k ==> bounds[j] == bounds[1..][j - 1];
      k
  }

  /** How many executions fall into the bucket. */
  function InBucket(bounds: seq<real>, es: seq<Execution>, k: nat): nat {
    if es == [] then 0
    else InBucket(bounds, es[..|es| - 1], k) + (if Bucket(bounds, Clamped(es[|es| - 1])) == k then 1 else 0)
  }

  /** The first n buckets together. */
  function UpTo(bounds: seq<real>, es: seq<Execution>, n: nat): nat {
    if n == 0 then 0 else UpTo(bounds, es, n - 1) + InBucket(bounds, es, n - 1)
  }

  lemma {:induction false} UpToStep(bounds: seq<real>, es: seq<Execution>, e: Execution, n: nat)
    ensures UpTo(bounds, es + [e], n) == UpTo(bounds, es, n) + (if Bucket(bounds, Clamped(e)) < n then 1 else 0)
  {
    assert (es + [e])[..|es|] == es;
    if n > 0 {
      UpToStep(bounds, es, e, n - 1);
    }
  }

  /** The buckets up to a bound hold exactly the executions not above it. */
  lemma {:induction false} BucketsAddUp(bounds: seq<real>, es: seq<Execution>, k: nat)
    requires Sorted(bounds) && k < |bounds|
    ensures UpTo(bounds, es, k + 1) == NotAbove(es, bounds[k])
  {
    if es == [] {
      NothingUpTo(bounds, k + 1);
    } else {
      var n := |es| - 1;
      var e := es[n];
      BucketsAddUp(bounds, es[..n], k);
      assert es == es[..n] + [e];
      UpToStep(bounds, es[..n], e, k + 1);
      var b := Bucket(bounds, Clamped(e));
      if b <= k {
        assert bounds[b] <= bounds[k];
      }
    }
  }

  lemma {:induction false} NothingUpTo(bounds: seq<real>, n: nat)
    ensures UpTo(bounds, [], n) == 0
  {
    if n > 0 {
      NothingUpTo(bounds, n - 1);
    }
  }

  /** A larger bound counts at least as much, and no bound counts more than there is. */
  lemma {:induction false} NotAboveGrows(es: seq<Execution>, a: real, b: real)
    requires a <= b
    ensures NotAbove(es, a) <= NotAbove(es, b) <= |es|
    ensures Successes(es) <= |es|
  {
    if es != [] {
      NotAboveGrows(es[..|es| - 1], a, b);
    }
  }

  /** The executions that satisfy the test, by their position. */
  ghost function Positions(es: seq<Execution>, test: Execution -> bool): set<nat> {
    set i: nat | i < |es| && test(es[i])
  }

  lemma OneMorePosition(es: seq<Execution>, e: Execution, test: Execution -> bool)
    ensures |Positions(es + [e], test)| == |Positions(es, test)| + if test(e) then 1 else 0
  {
    assert Positions(es + [e], test) == Positions(es, test) + if test(e) then {|es|} else {};
  }

  /** The counts are numbers of executions, and the bounds of the durations as they came. */
  lemma {:induction false} CountsArePositions(es: seq<Execution>, bound: real)
    requires bound >= 0.0
    ensures Successes(es) == |Positions(es, (e: Execution) => e.success)|
    ensures NotAbove(es, bound) == |Positions(es, (e: Execution) => e.duration <= bound)|
  {
    if es == [] {
      assert Positions(es, (e: Execution) => e.success) == {};
      assert Positions(es, (e: Execution) => e.duration <= bound) == {};
    } else {
      var n := |es| - 1;
      CountsArePositions(es[..n], bound);
      assert es == es[..n] + [es[n]];
      OneMorePosition(es[..n], es[n], (e: Execution) => e.success);
      OneMorePosition(es[..n], es[n], (e: Execution) => e.duration <= bound);
    }
  }

  /** The total time adds up over executions, a negative duration counting as none. */
  lemma {:induction false} TotalTimeAdds(a: seq<Execution>, b: seq<Execution>)
    ensures TotalTime(a + b) == TotalTime(a) + TotalTime(b)
    ensures |b| == 1 ==> TotalTime(b) == if b[0].duration > 0.0 then b[0].duration else 0.0
  {
    if b == [] {
      assert a + b == a;
    } else {
      var n := |b| - 1;
      TotalTimeAdds(a, b[..n]);
      assert (a + b)[..|a + b| - 1] == a + b[..n];
    }
  }

  class ExecutionHistogram {
    const bounds: seq<real>
    const counts: array<nat>
    var count: nat
    var sum: real
    var success: nat
    var failure: nat
    /** Every execution recorded so far. */
    ghost var recorded: seq<Execution>

    ghost predicate Valid()
      reads this, counts
    {
      && Sorted(bounds) && counts.Length == |bounds|
      && (forall k :: 0 <= k < |bounds| ==> counts[k] == InBucket(bounds, recorded, k))
      && count == |recorded| && sum == TotalTime(recorded)
      && success == Successes(recorded) && success + failure == count
    }

    constructor ()
      ensures Valid() && fresh(counts) && recorded == [] && bounds == BOUNDS
    {
      bounds := BOUNDS;
      counts := new nat[|BOUNDS|](_ => 0);
      count, sum, success, failure, recorded := 0, 0.0, 0, 0, [];
    }

    method RecordExecution(durationSeconds: real, ok: bool)
      requires Valid()
      modifies this, counts
      ensures Valid()
      ensures recorded == old(recorded) + [Execution(durationSeconds, ok)]
    {
      ghost var before := recorded;
      ghost var e := Execution(durationSeconds, ok);
      var duration := MaxReal(0.0, durationSeconds);
      count := count + 1;
      sum := sum + duration;
      if ok {
        success := success + 1;
      } else {
        failure := failure + 1;
      }
      recorded := recorded + [e];
      assert recorded[..|before|] == before;
      BumpBucket(duration);
      assert forall k: nat :: InBucket(bounds, recorded, k) == InBucket(bounds, before, k) + (if Bucket(bounds, duration) == k then 1 else 0);
    }

    /** The loop of `record_execution`: the first bucket that fits counts one more. */
    method BumpBucket(duration: real)
      requires counts.Length == |bounds|
      modifies counts
      ensures forall k :: 0 <= k < |bounds| ==> counts[k] == old(counts[k]) + if Bucket(bounds, duration) == k then 1 else 0
    {
      var index := 0;
      while index < |bounds|
        invariant 0 <= index <= Bucket(bounds, duration)
        invariant counts[..] == old(counts[..])
      {
        if duration <= bounds[index] {
          assert forall k :: 0 <= k < counts.Length ==> counts[k] == counts[..][k] == old(counts[..])[k];
          counts[index] := counts[index] + 1;
          break;
        }
        index := index + 1;
      }
      if index == |bounds| {
        assert forall k :: 0 <= k < counts.Length ==> counts[k] == counts[..][k] == old(counts[..])[k];
      }
    }

    /** The cumulative counts as the export prints them, one for each bound. */
    method Export() returns (lines: seq<nat>)
      requires Valid()
      ensures |lines| == |bounds|
      ensures forall k :: 0 <= k < |lines| ==> lines[k] == NotAbove(recorded, bounds[k])
      ensures forall j, k :: 0 <= j <= k < |lines| ==> lines[j] <= lines[k] <= count
      ensures success + failure == count == |recorded|
      ensures success == Successes(recorded) && sum == TotalTime(recorded)
    {
      lines := [];
      var cumulative := 0;
      var k := 0;
      while k < |bounds|
        invariant 0 <= k <= |bounds| && |lines| == k
        invariant cumulative == UpTo(bounds, recorded, k)
        invariant forall j :: 0 <= j < k ==> lines[j] == NotAbove(recorded, bounds[j])
      {
        cumulative := cumulative + counts[k];
        BucketsAddUp(bounds, recorded, k);
        lines := lines + [cumulative];
        k := k + 1;
      }
      forall i, j | 0 <= i <= j < |lines| ensures lines[i] <= lines[j] <= count {
        NotAboveGrows(recorded, bounds[i], bounds[j]);
      }
    }
  }
}
