/** Admission by token buckets (app/middleware.py, `_TokenBucketLimiter`): one bucket per client,
    filled at a constant rate. */
module TokenSpec {
  import opened Basics

  type Key = string

  datatype Bucket = Bucket(tokens: real, last: real)

  datatype Limits = Limits(rate: real, capacity: real) {
    predicate Ok() {
      rate >= 0.0 && capacity >= 1.0
    }
  }

  /** The settings as the constructor reads them; a burst of 0 means the rate per minute. */
  function MakeLimits(perMinute: nat, burst: nat): (l: Limits)
    requires perMinute >= 1
    ensures l.Ok()
  {
    Limits(perMinute as real / 60.0, if burst != 0 then burst as real else perMinute as real)
  }

  datatype Answer = Answer(buckets: map<Key, Bucket>, allowed: bool)

  datatype Event = Ask(key: Key, now: real) | Prune(gone: set<Key>)

  /** The tokens that arrive in a stretch of time. */
  function Earned(l: Limits, from: real, to: real): real {
    (to - from) * l.rate
  }

  function Refilled(l: Limits, b: Bucket, now: real): real {
    MinReal(l.capacity, b.tokens + Earned(l, b.last, now))
  }

  function AllowSpec(l: Limits, buckets: map<Key, Bucket>, key: Key, now: real): Answer {
    if key !in buckets then Answer(buckets[key := Bucket(l.capacity - 1.0, now)], true)
    else
      var tokens := Refilled(l, buckets[key], now);
      if tokens < 1.0 then Answer(buckets[key := Bucket(tokens, now)], false)
      else Answer(buckets[key := Bucket(tokens - 1.0, now)], true)
  }

  /** What a client could draw at once: a missing bucket is as good as a full one. */
  function Available(l: Limits, buckets: map<Key, Bucket>, key: Key, now: real): real {
    if key in buckets then Refilled(l, buckets[key], now) else l.capacity
  }

  function Apply(l: Limits, buckets: map<Key, Bucket>, e: Event): map<Key, Bucket> {
    match e
    case Ask(key, now) => AllowSpec(l, buckets, key, now).buckets
    case Prune(gone) => buckets - gone
  }

  function Run(l: Limits, buckets: map<Key, Bucket>, events: seq<Event>): map<Key, Bucket>
    decreases |events|
  {
    if events == [] then buckets else Run(l, Apply(l, buckets, events[0]), events[1..])
  }

  /** The answers one client gets. */
  function Decisions(l: Limits, buckets: map<Key, Bucket>, events: seq<Event>, key: Key): seq<bool>
    decreases |events|
  {
    if events == [] then []
    else
      (if events[0].Ask? && events[0].key == key then [AllowSpec(l, buckets, key, events[0].now).allowed] else [])
      + Decisions(l, Apply(l, buckets, events[0]), events[1..], key)
  }

  function Yes(answers: seq<bool>): nat {
    if answers == [] then 0 else (if answers[0] then 1 else 0) + Yes(answers[1..])
  }

  /** How many requests of the client are let in. */
  function Admitted(l: Limits, buckets: map<Key, Bucket>, events: seq<Event>, key: Key): nat {
    Yes(Decisions(l, buckets, events, key))
  }

  /** The requests come in the order of time, from `from` to `to`. */
  ghost predicate Within(events: seq<Event>, from: real, to: real)
    decreases |events|
  {
    if events == [] then from <= to
    else if events[0].Ask? then from <= events[0].now && Within(events[1..], events[0].now, to)
    else Within(events[1..], from, to)
  }

  /** How often the client's bucket is thrown away. */
  function Prunings(l: Limits, buckets: map<Key, Bucket>, events: seq<Event>, key: Key): nat
    decreases |events|
  {
    if events == [] then 0
    else
      (if events[0].Prune? && key in events[0].gone && key in buckets then 1 else 0)
      + Prunings(l, Apply(l, buckets, events[0]), events[1..], key)
  }

  // ---------- Tokens stay in range ----------

  ghost predicate InRange(l: Limits, buckets: map<Key, Bucket>, clock: real) {
    forall k :: k in buckets ==> 0.0 <= buckets[k].tokens <= l.capacity && buckets[k].last <= clock
  }

  lemma RefillGrows(l: Limits, b: Bucket, now: real)
    requires l.rate >= 0.0 && b.last <= now && b.tokens <= l.capacity
    ensures b.tokens <= Refilled(l, b, now) <= l.capacity
  {
    assert (now - b.last) * l.rate >= 0.0;
  }

  lemma AllowInRange(l: Limits, buckets: map<Key, Bucket>, key: Key, now: real, clock: real)
    requires l.Ok() && InRange(l, buckets, clock) && clock <= now
    ensures InRange(l, AllowSpec(l, buckets, key, now).buckets, now)
  {
    if key in buckets {
      RefillGrows(l, buckets[key], now);
    }
  }

  /** In every reachable state the tokens of every bucket lie between 0 and the capacity. */
  lemma {:induction false} TokensInRange(l: Limits, buckets: map<Key, Bucket>, events: seq<Event>, from: real, to: real)
    requires l.Ok() && InRange(l, buckets, from) && Within(events, from, to)
    ensures InRange(l, Run(l, buckets, events), to)
    decreases |events|
  {
    if events != [] {
      match events[0]
      case Ask(key, now) =>
        AllowInRange(l, buckets, key, now, from);
        TokensInRange(l, AllowSpec(l, buckets, key, now).buckets, events[1..], now, to);
      case Prune(gone) =>
        TokensInRange(l, buckets - gone, events[1..], from, to);
    }
  }

  /** A request is let in exactly when a whole token is available. */
  lemma AllowedExactly(l: Limits, buckets: map<Key, Bucket>, key: Key, now: real)
    requires l.Ok()
    ensures AllowSpec(l, buckets, key, now).allowed <==> Available(l, buckets, key, now) >= 1.0
  {}

  // ---------- How much a client can get ----------

  lemma Distributes(x: real, y: real, rate: real)
    ensures (x + y) * rate == x * rate + y * rate
  {}

  lemma EarnedAdds(l: Limits, from: real, now: real, to: real)
    ensures Earned(l, from, to) == Earned(l, from, now) + Earned(l, now, to)
  {
    Distributes(now - from, to - now, l.rate);
    assert (now - from) + (to - now) == to - from;
  }

  lemma EarnedNonNegative(l: Limits, from: real, to: real)
    requires l.Ok() && from <= to
    ensures Earned(l, from, to) >= 0.0
    ensures from == to ==> Earned(l, from, to) == 0.0
  {}

  /** Waiting adds at most the rate; everything else only takes away. */
  lemma AvailableLater(l: Limits, buckets: map<Key, Bucket>, key: Key, now: real, later: real)
    requires l.Ok() && now <= later
    ensures Available(l, buckets, key, later) == MinReal(l.capacity, Available(l, buckets, key, now) + Earned(l, now, later))
    ensures Available(l, buckets, key, now) <= Available(l, buckets, key, later) <= l.capacity
    ensures Available(l, buckets, key, later) <= Available(l, buckets, key, now) + Earned(l, now, later)
  {
    EarnedNonNegative(l, now, later);
    if key in buckets {
      var b := buckets[key];
      EarnedAdds(l, b.last, now, later);
      hide Earned;
    }
  }

  lemma RefilledAtOnce(l: Limits, b: Bucket)
    ensures Refilled(l, b, b.last) == MinReal(l.capacity, b.tokens)
  {
    EarnedAdds(l, b.last, b.last, b.last);
    hide Earned;
  }

  lemma AskTakes(l: Limits, buckets: map<Key, Bucket>, key: Key, now: real)
    requires l.Ok()
    ensures var a := AllowSpec(l, buckets, key, now);
            Available(l, a.buckets, key, now) == Available(l, buckets, key, now) - if a.allowed then 1.0 else 0.0
  {
    var b := AllowSpec(l, buckets, key, now).buckets[key];
    RefilledAtOnce(l, b);
  }

  lemma OthersKeep(l: Limits, buckets: map<Key, Bucket>, key: Key, other: Key, now: real)
    requires key != other
    ensures AllowSpec(l, buckets, key, now).buckets - {key} == buckets - {key}
    ensures other in AllowSpec(l, buckets, key, now).buckets <==> other in buckets
    ensures other in buckets ==> AllowSpec(l, buckets, key, now).buckets[other] == buckets[other]
  {}

  /** The count goes up by one when the client itself asks and is let in. */
  lemma AdmittedStep(l: Limits, buckets: map<Key, Bucket>, e: Event, rest: seq<Event>, key: Key)
    ensures Admitted(l, buckets, [e] + rest, key)
         == (if e.Ask? && e.key == key && AllowSpec(l, buckets, key, e.now).allowed then 1 else 0)
            + Admitted(l, Apply(l, buckets, e), rest, key)
  {
    hide AllowSpec;
    DecisionsConcat(l, buckets, e, rest, key);
    var later := Decisions(l, Apply(l, buckets, e), rest, key);
    if e.Ask? && e.key == key {
      assert ([AllowSpec(l, buckets, key, e.now).allowed] + later)[1..] == later;
    } else {
      assert [] + later == later;
    }
  }

  /** The tokens that throwing the bucket away n times may give. */
  function Refunded(l: Limits, n: nat): real {
    n as real * l.capacity
  }

  lemma RefundedStep(l: Limits, n: nat)
    ensures Refunded(l, n + 1) == Refunded(l, n) + l.capacity
    ensures Refunded(l, 0) == 0.0
  {}

  /** One event against the potential: what a client can draw, plus what it has drawn. */
  lemma DrawnStep(l: Limits, buckets: map<Key, Bucket>, e: Event, key: Key, from: real)
    requires l.Ok() && (e.Ask? ==> from <= e.now)
    requires Available(l, buckets, key, from) >= 0.0
    ensures var next := Apply(l, buckets, e);
            var now := if e.Ask? then e.now else from;
            var got := if e.Ask? && e.key == key && AllowSpec(l, buckets, key, e.now).allowed then 1.0 else 0.0;
            var pruned := if e.Prune? && key in e.gone && key in buckets then l.capacity else 0.0;
            && 0.0 <= Available(l, next, key, now)
            && got + Available(l, next, key, now) <= Available(l, buckets, key, from) + Earned(l, from, now) + pruned
  {
    hide Refilled, Earned;
    match e
    case Ask(k, now) =>
      AvailableLater(l, buckets, key, from, now);
      if k == key {
        AskTakes(l, buckets, key, now);
        AllowedExactly(l, buckets, key, now);
      } else {
        OthersKeep(l, buckets, k, key, now);
      }
      hide AllowSpec;
    case Prune(gone) =>
      AvailableLater(l, buckets, key, from, from);
      EarnedNonNegative(l, from, from);
  }

  /** In any stretch of time a client is let in no more often than it has tokens at its
      beginning, plus the rate times the length, plus a full bucket for each time its bucket
      is thrown away. */
  lemma {:induction false} AdmittedAtMost(l: Limits, buckets: map<Key, Bucket>, events: seq<Event>, key: Key, from: real, to: real)
    requires l.Ok() && Within(events, from, to)
    requires Available(l, buckets, key, from) >= 0.0
    ensures Admitted(l, buckets, events, key) as real
         <= Available(l, buckets, key, from) + Earned(l, from, to) + Refunded(l, Prunings(l, buckets, events, key))
    decreases |events|
  {
    hide Available, AllowSpec, Apply, Admitted, Earned, Refunded;
    if events == [] {
      EarnedNonNegative(l, from, to);
      RefundedStep(l, 0);
      NobodyAdmitted(l, buckets, key);
    } else {
      var e, rest := events[0], events[1..];
      assert events == [e] + rest;
      var next, now := Apply(l, buckets, e), if e.Ask? then e.now else from;
      AdmittedStep(l, buckets, e, rest, key);
      DrawnStep(l, buckets, e, key, from);
      AdmittedAtMost(l, next, rest, key, now, to);
      EarnedAdds(l, from, now, to);
      RefundedStep(l, Prunings(l, next, rest, key));
    }
  }

  lemma NobodyAdmitted(l: Limits, buckets: map<Key, Bucket>, key: Key)
    ensures Admitted(l, buckets, [], key) == 0
  {}

  lemma AvailableInRange(l: Limits, buckets: map<Key, Bucket>, key: Key, now: real)
    requires l.Ok() && InRange(l, buckets, now)
    ensures 0.0 <= Available(l, buckets, key, now) <= l.capacity
  {
    if key in buckets {
      RefillGrows(l, buckets[key], now);
    }
  }

  lemma EarnedIs(l: Limits, from: real, to: real)
    ensures Earned(l, from, to) == l.rate * (to - from)
  {}

  lemma WindowEarned(l: Limits, before: seq<Event>, window: seq<Event>, key: Key, start: real, from: real, to: real)
    requires l.Ok() && Within(before, start, from) && Within(window, from, to)
    requires Prunings(l, Run(l, map[], before), window, key) == 0
    ensures Admitted(l, Run(l, map[], before), window, key) as real <= l.capacity + Earned(l, from, to)
  {
    hide AllowSpec, Apply, Admitted, Prunings, Run, Within;
    TokensInRange(l, map[], before, start, from);
    var buckets := Run(l, map[], before);
    AvailableInRange(l, buckets, key, from);
    AdmittedAtMost(l, buckets, window, key, from, to);
    hide Earned, Refunded, Available;
    RefundedStep(l, 0);
  }

  /** The window law: a client whose bucket is never thrown away gets at most the capacity plus
      the rate times the length of the window, from whatever state the window begins. */
  lemma WindowBound(l: Limits, before: seq<Event>, window: seq<Event>, key: Key, start: real, from: real, to: real)
    requires l.Ok() && Within(before, start, from) && Within(window, from, to)
    requires Prunings(l, Run(l, map[], before), window, key) == 0
    ensures Admitted(l, Run(l, map[], before), window, key) as real <= l.capacity + l.rate * (to - from)
  {
    hide *;
    WindowEarned(l, before, window, key, start, from, to);
    EarnedIs(l, from, to);
  }

  // ---------- Clients do not disturb one another ----------

  /** The events that concern one client. */
  function Only(events: seq<Event>, key: Key): seq<Event> {
    if events == [] then []
    else
      (match events[0]
       case Ask(k, now) => if k == key then [events[0]] else []
       case Prune(gone) => if key in gone then [Prune({key})] else [])
      + Only(events[1..], key)
  }

  ghost predicate SameBucket(a: map<Key, Bucket>, b: map<Key, Bucket>, key: Key) {
    (key in a <==> key in b) && (key in a ==> a[key] == b[key])
  }

  lemma DecisionsConcat(l: Limits, buckets: map<Key, Bucket>, e: Event, rest: seq<Event>, key: Key)
    ensures Decisions(l, buckets, [e] + rest, key)
         == (if e.Ask? && e.key == key then [AllowSpec(l, buckets, key, e.now).allowed] else [])
            + Decisions(l, Apply(l, buckets, e), rest, key)
  {
    assert ([e] + rest)[1..] == rest;
  }

  lemma SameAnswer(l: Limits, a: map<Key, Bucket>, b: map<Key, Bucket>, e: Event, key: Key)
    requires SameBucket(a, b, key) && e.Ask? && e.key == key
    ensures SameBucket(Apply(l, a, e), Apply(l, b, e), key)
    ensures AllowSpec(l, a, key, e.now).allowed == AllowSpec(l, b, key, e.now).allowed
  {}

  /** The answers a client gets depend on its own requests and its own bucket alone. */
  lemma {:induction false} DecisionsAreItsOwn(l: Limits, a: map<Key, Bucket>, b: map<Key, Bucket>, events: seq<Event>, key: Key)
    requires SameBucket(a, b, key)
    ensures Decisions(l, a, events, key) == Decisions(l, b, Only(events, key), key)
    decreases |events|
  {
    if events != [] {
      hide Refilled;
      var e, rest := events[0], events[1..];
      match e
      case Ask(k, now) =>
        if k == key {
          hide Apply, AllowSpec;
          SameAnswer(l, a, b, e, key);
          DecisionsConcat(l, b, e, Only(rest, key), key);
          DecisionsAreItsOwn(l, Apply(l, a, e), Apply(l, b, e), rest, key);
        } else {
          OthersKeep(l, a, k, key, now);
          DecisionsAreItsOwn(l, Apply(l, a, e), b, rest, key);
          assert Only(events, key) == Only(rest, key);
        }
      case Prune(gone) =>
        if key in gone {
          DecisionsConcat(l, b, Prune({key}), Only(rest, key), key);
          DecisionsAreItsOwn(l, Apply(l, a, e), Apply(l, b, Prune({key})), rest, key);
        } else {
          DecisionsAreItsOwn(l, Apply(l, a, e), b, rest, key);
          assert Only(events, key) == Only(rest, key);
        }
    }
  }

  // ---------- Pruning never costs a client a request ----------

  function Unpruned(events: seq<Event>): seq<Event> {
    if events == [] then []
    else (if events[0].Ask? then [events[0]] else []) + Unpruned(events[1..])
  }

  /** One request against two states, the first of which is ahead by that many requests. */
  lemma AskKeepsLead(l: Limits, a: map<Key, Bucket>, b: map<Key, Bucket>, e: Event, key: Key, ahead: nat, from: real)
    requires l.Ok() && e.Ask? && from <= e.now
    requires Available(l, a, key, from) + ahead as real >= Available(l, b, key, from)
    ensures var got := if e.key == key && AllowSpec(l, a, key, e.now).allowed then 1 else 0;
            var got' := if e.key == key && AllowSpec(l, b, key, e.now).allowed then 1 else 0;
            && ahead + got - got' >= 0
            && Available(l, Apply(l, a, e), key, e.now) + (ahead + got - got') as real >= Available(l, Apply(l, b, e), key, e.now)
  {
    AvailableLater(l, a, key, from, e.now);
    AvailableLater(l, b, key, from, e.now);
    if e.key == key {
      AllowedExactly(l, a, key, e.now);
      AllowedExactly(l, b, key, e.now);
      AskTakes(l, a, key, e.now);
      AskTakes(l, b, key, e.now);
    } else {
      OthersKeep(l, a, e.key, key, e.now);
      OthersKeep(l, b, e.key, key, e.now);
    }
  }

  /** `a` may be pruned and `b` is not: `ahead` is by how many requests a is already ahead. */
  lemma {:induction false} PruningHelps(l: Limits, a: map<Key, Bucket>, b: map<Key, Bucket>, events: seq<Event>, key: Key,
                                        ahead: nat, from: real, to: real)
    requires l.Ok() && Within(events, from, to)
    requires Available(l, a, key, from) + ahead as real >= Available(l, b, key, from)
    ensures Admitted(l, a, events, key) + ahead >= Admitted(l, b, Unpruned(events), key)
    decreases |events|
  {
    if events == [] {
      assert Decisions(l, b, [], key) == [];
    } else {
      hide AllowSpec, Admitted;
      var e, rest := events[0], events[1..];
      assert events == [e] + rest;
      AdmittedStep(l, a, e, rest, key);
      if e.Ask? {
        hide Apply, Available;
        AdmittedStep(l, b, e, Unpruned(rest), key);
        AskKeepsLead(l, a, b, e, key, ahead, from);
        var lead := ahead + (if e.key == key && AllowSpec(l, a, key, e.now).allowed then 1 else 0)
                          - (if e.key == key && AllowSpec(l, b, key, e.now).allowed then 1 else 0);
        PruningHelps(l, Apply(l, a, e), Apply(l, b, e), rest, key, lead, e.now, to);
      } else {
        AvailableLater(l, b, key, from, from);
        assert Unpruned(events) == Unpruned(rest);
        PruningHelps(l, Apply(l, a, e), b, rest, key, ahead, from, to);
      }
    }
  }

  /** At every moment, a client has been let in at least as often as it would have been had no
      bucket ever been thrown away. */
  lemma PruningNeverHurts(l: Limits, events: seq<Event>, key: Key, from: real, to: real)
    requires l.Ok() && Within(events, from, to)
    ensures Admitted(l, map[], events, key) >= Admitted(l, map[], Unpruned(events), key)
  {
    PruningHelps(l, map[], map[], events, key, 0, from, to);
  }

  // ---------- What the settings mean ----------

  /** How many requests a client can make at once. */
  function Burst(perMinute: nat, burst: nat): nat {
    if burst == 0 then perMinute else burst
  }

  lemma Regroup(x: real, y: real)
    ensures x * (60.0 * y) == (60.0 * x) * y
  {}

  lemma PerSixty(rate: real, perMinute: real, time: real)
    requires perMinute == 60.0 * rate
    ensures rate * time == perMinute * (time / 60.0)
  {
    var minutes := time / 60.0;
    assert time == 60.0 * minutes;
    Regroup(rate, minutes);
  }

  /** What the requests per minute come to in a stretch of time. */
  function InTime(perMinute: nat, time: real): real {
    perMinute as real * (time / 60.0)
  }

  lemma EarnedInTime(perMinute: nat, burst: nat, from: real, to: real)
    requires perMinute >= 1
    ensures Earned(MakeLimits(perMinute, burst), from, to) == InTime(perMinute, to - from)
  {
    LimitsAre(perMinute, burst);
    hide MakeLimits, Burst;
    PerSixty(MakeLimits(perMinute, burst).rate, perMinute as real, to - from);
  }

  lemma LimitsAre(perMinute: nat, burst: nat)
    requires perMinute >= 1
    ensures var l := MakeLimits(perMinute, burst);
            perMinute as real == 60.0 * l.rate && l.capacity == Burst(perMinute, burst) as real
  {}

  /** In any stretch of time a client gets at most its burst and, for every 60 seconds, the
      requests per minute. */
  lemma PerMinuteBound(perMinute: nat, burst: nat, before: seq<Event>, window: seq<Event>, key: Key,
                       start: real, from: real, to: real)
    requires perMinute >= 1 && Within(before, start, from) && Within(window, from, to)
    requires var l := MakeLimits(perMinute, burst); Prunings(l, Run(l, map[], before), window, key) == 0
    ensures var l := MakeLimits(perMinute, burst);
            Admitted(l, Run(l, map[], before), window, key) as real
            <= Burst(perMinute, burst) as real + InTime(perMinute, to - from)
  {
    LimitsAre(perMinute, burst);
    assert MakeLimits(perMinute, burst).Ok();
    hide *;
    WindowEarned(MakeLimits(perMinute, burst), before, window, key, start, from, to);
    EarnedInTime(perMinute, burst, from, to);
  }

  /** From `last` on the client waits at least `gap` between any two requests. */
  ghost predicate Spaced(events: seq<Event>, key: Key, last: real, gap: real)
    decreases |events|
  {
    events == [] ||
    if events[0].Ask? && events[0].key == key then
      events[0].now >= last + gap && Spaced(events[1..], key, events[0].now, gap)
    else Spaced(events[1..], key, last, gap)
  }

  ghost predicate AllYes(answers: seq<bool>) {
    forall i :: 0 <= i < |answers| ==> answers[i]
  }

  /** What a client that has waited since `last` can draw at least. */
  ghost predicate Recovered(l: Limits, buckets: map<Key, Bucket>, key: Key, last: real, now: real) {
    last <= now && Available(l, buckets, key, now) >= MinReal(l.capacity, Earned(l, last, now))
  }

  lemma RecoveredLater(l: Limits, buckets: map<Key, Bucket>, key: Key, last: real, now: real, later: real)
    requires l.Ok() && now <= later && Recovered(l, buckets, key, last, now)
    ensures Recovered(l, buckets, key, last, later)
  {
    AvailableLater(l, buckets, key, now, later);
    EarnedAdds(l, last, now, later);
    EarnedNonNegative(l, now, later);
    hide Earned, Available;
  }

  lemma WholeToken(perMinute: nat, burst: nat, last: real, now: real)
    requires perMinute >= 1 && now >= last + 60.0 / perMinute as real
    ensures Earned(MakeLimits(perMinute, burst), last, now) >= 1.0
  {
    var l := MakeLimits(perMinute, burst);
    var gap := 60.0 / perMinute as real;
    assert gap * l.rate == 1.0;
    EarnedAdds(l, last, last + gap, now);
    EarnedNonNegative(l, last + gap, now);
  }

  lemma {:induction false} SpacedIsServed(perMinute: nat, burst: nat, buckets: map<Key, Bucket>, events: seq<Event>, key: Key,
                                          last: real, from: real, to: real)
    requires perMinute >= 1 && Within(events, from, to)
    requires Recovered(MakeLimits(perMinute, burst), buckets, key, last, from)
    requires Spaced(events, key, last, 60.0 / perMinute as real)
    ensures AllYes(Decisions(MakeLimits(perMinute, burst), buckets, events, key))
    decreases |events|
  {
    if events != [] {
      var l := MakeLimits(perMinute, burst);
      var e, rest := events[0], events[1..];
      assert events == [e] + rest;
      DecisionsConcat(l, buckets, e, rest, key);
      hide AllowSpec, Available, Earned, MakeLimits, Decisions;
      match e
      case Ask(k, now) =>
        RecoveredLater(l, buckets, key, last, from, now);
        if k == key {
          WholeToken(perMinute, burst, last, now);
          AskWhenRecovered(l, buckets, key, last, now);
          SpacedIsServed(perMinute, burst, AllowSpec(l, buckets, key, now).buckets, rest, key, now, now, to);
        } else {
          OthersRecovered(l, buckets, k, key, last, now);
          SpacedIsServed(perMinute, burst, AllowSpec(l, buckets, k, now).buckets, rest, key, last, now, to);
        }
      case Prune(gone) =>
        PrunedRecovered(l, buckets, gone, key, last, from);
        SpacedIsServed(perMinute, burst, buckets - gone, rest, key, last, from, to);
    }
  }

  lemma AskWhenRecovered(l: Limits, buckets: map<Key, Bucket>, key: Key, last: real, now: real)
    requires l.Ok() && Recovered(l, buckets, key, last, now) && Earned(l, last, now) >= 1.0
    ensures var a := AllowSpec(l, buckets, key, now); a.allowed && Recovered(l, a.buckets, key, now, now)
  {
    AllowedExactly(l, buckets, key, now);
    AskTakes(l, buckets, key, now);
    EarnedNonNegative(l, now, now);
  }

  lemma OthersRecovered(l: Limits, buckets: map<Key, Bucket>, k: Key, key: Key, last: real, now: real)
    requires k != key && Recovered(l, buckets, key, last, now)
    ensures Recovered(l, AllowSpec(l, buckets, k, now).buckets, key, last, now)
  {
    OthersKeep(l, buckets, k, key, now);
  }

  lemma PrunedRecovered(l: Limits, buckets: map<Key, Bucket>, gone: set<Key>, key: Key, last: real, now: real)
    requires Recovered(l, buckets, key, last, now)
    ensures Recovered(l, buckets - gone, key, last, now)
  {}

  /** Whatever happened before and whatever the others do: a client that asks no more often than
      once in 60 / perMinute seconds is always let in. */
  lemma RateIsSustained(perMinute: nat, burst: nat, before: seq<Event>, events: seq<Event>, key: Key,
                        start: real, from: real, to: real)
    requires perMinute >= 1 && Within(before, start, from) && Within(events, from, to)
    requires Spaced(events, key, from, 60.0 / perMinute as real)
    ensures var l := MakeLimits(perMinute, burst); AllYes(Decisions(l, Run(l, map[], before), events, key))
  {
    var l := MakeLimits(perMinute, burst);
    TokensInRange(l, map[], before, start, from);
    AvailableInRange(l, Run(l, map[], before), key, from);
    EarnedNonNegative(l, from, from);
    SpacedIsServed(perMinute, burst, Run(l, map[], before), events, key, from, from, to);
  }

  /** n requests of one client at the same moment. */
  function AtOnce(key: Key, now: real, n: nat): seq<Event> {
    if n == 0 then [] else [Ask(key, now)] + AtOnce(key, now, n - 1)
  }

  /** Of requests made at once by a client without a bucket, exactly as many as the burst are let
      in. */
  lemma BurstExactly(perMinute: nat, burst: nat, buckets: map<Key, Bucket>, key: Key, now: real, n: nat)
    requires perMinute >= 1 && key !in buckets
    ensures Admitted(MakeLimits(perMinute, burst), buckets, AtOnce(key, now, n), key) == Min(n, Burst(perMinute, burst))
  {
    DrawnAtOnce(MakeLimits(perMinute, burst), buckets, key, now, n, Burst(perMinute, burst));
  }

  lemma {:induction false} DrawnAtOnce(l: Limits, buckets: map<Key, Bucket>, key: Key, now: real, n: nat, left: nat)
    requires l.Ok() && Available(l, buckets, key, now) == left as real
    ensures Admitted(l, buckets, AtOnce(key, now, n), key) == Min(n, left)
    decreases n
  {
    hide AllowSpec, Available;
    if n == 0 {
      NobodyAdmitted(l, buckets, key);
    } else {
      AdmittedStep(l, buckets, Ask(key, now), AtOnce(key, now, n - 1), key);
      AllowedExactly(l, buckets, key, now);
      AskTakes(l, buckets, key, now);
      DrawnAtOnce(l, AllowSpec(l, buckets, key, now).buckets, key, now, n - 1, if left > 0 then left - 1 else 0);
    }
  }
}
