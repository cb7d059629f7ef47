/** The failed-login throttle (src/harper/resource-login-throttle.ts) and the order in which
    `runLogin` consults and updates it (src/harper/resource-auth-endpoints.ts). Keys are
    user names after trimming and case folding. */
module Throttle {
  import opened Sequences

  const FREE_ATTEMPTS: nat := 5
  const BASE_LOCK_MS: nat := 2_000
  const MAX_LOCK_MS: nat := 15 * 60_000
  const MAX_TRACKED: nat := 10_000

  datatype AttemptState = AttemptState(failures: nat, lockedUntil: int)

  /** The JavaScript `Map`: entries, and their keys in insertion order. */
  datatype Tracker = Tracker(order: seq<string>, states: map<string, AttemptState>)

  const EMPTY := Tracker([], map[])

  ghost predicate ValidTracker(t: Tracker) {
    && Distinct(t.order)
    && (forall key :: key in t.order <==> key in t.states)
    && |t.order| <= 10_000
  }

  function Pow2(n: nat): (p: nat)
    ensures p >= 1
  {
    if n == 0 then 1 else 2 * Pow2(n - 1)
  }

  /** The lock that the given number of failures brings. */
  function LockMs(failures: nat): nat {
    if failures > FREE_ATTEMPTS then Min(BASE_LOCK_MS * Pow2(failures - FREE_ATTEMPTS - 1), MAX_LOCK_MS)
    else 0
  }

  predicate Allowed(t: Tracker, key: string, now: int) {
    !(key in t.states && t.states[key].lockedUntil > now)
  }

  function Without(t: Tracker, key: string): Tracker {
    Tracker(Filter(t.order, (k: string) => k != key), t.states - {key})
  }

  /** Room for one more key: the oldest goes when the tracker is full. */
  function MakeRoom(t: Tracker): Tracker {
    if |t.order| >= MAX_TRACKED then Tracker(t.order[1..], t.states - {t.order[0]}) else t
  }

  function Fail(t: Tracker, key: string, now: int): Tracker {
    var failures := (if key in t.states then t.states[key].failures else 0) + 1;
    var state := AttemptState(failures, now + LockMs(failures));
    if key in t.states then t.(states := t.states[key := state])
    else
      var room := MakeRoom(t);
      Tracker(room.order + [key], room.states[key := state])
  }

  /** What happens to the throttle over time: a check that passed, a recorded failure, a
      recorded success. Attempts of different users, and of one user, may interleave. */
  datatype Event = Checked(key: string, now: int) | Failed(key: string, now: int) | Succeeded(key: string)

  function Step(t: Tracker, event: Event): Tracker {
    match event
    case Checked(_, _) => t
    case Failed(key, now) => Fail(t, key, now)
    case Succeeded(key) => Without(t, key)
  }

  function Run(t: Tracker, events: seq<Event>): Tracker
    decreases events
  {
    if events == [] then t else Run(Step(t, events[0]), events[1..])
  }

  // ---------------------------------------------------------------- bounded tracking

  lemma WithoutIsValid(t: Tracker, key: string)
    requires ValidTracker(t)
    ensures ValidTracker(Without(t, key))
  {
    FilterDistinct(t.order, (k: string) => k != key);
    forall k ensures k in Without(t, key).order <==> k in Without(t, key).states {
      FilterMembers(t.order, (k: string) => k != key, k);
    }
  }

  lemma RoomIsValid(t: Tracker)
    requires ValidTracker(t)
    ensures ValidTracker(MakeRoom(t)) && |MakeRoom(t).order| < MAX_TRACKED
    ensures forall key :: key in MakeRoom(t).states ==> key in t.states
  {
    if |t.order| >= MAX_TRACKED {
      assert t.order == [t.order[0]] + t.order[1..];
    }
  }

  lemma FailIsValid(t: Tracker, key: string, now: int)
    requires ValidTracker(t)
    ensures ValidTracker(Fail(t, key, now))
  {
    hide LockMs, MakeRoom;
    RoomIsValid(t);
  }

  lemma StepIsValid(t: Tracker, event: Event)
    requires ValidTracker(t)
    ensures ValidTracker(Step(t, event))
  {
    hide ValidTracker, Fail, Without;
    match event
    case Checked(_, _) =>
    case Failed(key, now) => FailIsValid(t, key, now);
    case Succeeded(key) => WithoutIsValid(t, key);
  }

  /** The tracker never holds more than `MAX_TRACKED` keys, whatever the interleaving. */
  lemma {:induction false} RunIsValid(t: Tracker, events: seq<Event>)
    requires ValidTracker(t)
    ensures ValidTracker(Run(t, events))
    decreases events
  {
    hide ValidTracker, Step;
    if events == [] {
    } else {
      StepIsValid(t, events[0]);
      RunIsValid(Step(t, events[0]), events[1..]);
    }
  }

  // ---------------------------------------------------------------- first in, first out

  /** `key` leaves the tracker during the run, and eviction is what removes it first. */
  predicate Evicted(t: Tracker, events: seq<Event>, key: string)
    decreases events
  {
    events != [] && events[0] != Succeeded(key) &&
    (key !in Step(t, events[0]).states || Evicted(Step(t, events[0]), events[1..], key))
  }

  /** The first failure of a key other than `key`. */
  predicate FailsFirst(t: Tracker, event: Event, key: string) {
    event.Failed? && event.key != key && event.key !in t.states
  }

  /** First failures of other keys up to the moment `key` leaves. */
  function FirstFailures(t: Tracker, events: seq<Event>, key: string): nat
    decreases events
  {
    if events == [] || key !in t.states then 0
    else
      (if FailsFirst(t, events[0], key) then 1 else 0) +
      FirstFailures(Step(t, events[0]), events[1..], key)
  }

  /** The keys that came in behind `key`, which is at place `i`. */
  ghost predicate NewerKeys(t: Tracker, key: string, i: nat, newer: set<string>) {
    i < |t.order| && t.order[i] == key && newer == Elements(t.order[i + 1..])
  }

  /** What one event makes of the newer keys. */
  function NewerAfter(t: Tracker, event: Event, key: string, newer: set<string>): set<string> {
    match event
    case Checked(_, _) => newer
    case Failed(other, _) => if FailsFirst(t, event, key) then newer + {other} else newer
    case Succeeded(other) => newer - {other}
  }

  /** At some moment before a success of `key`, `MAX_TRACKED` other keys have failed after its
      own first failure and not succeeded since. */
  predicate Crowded(t: Tracker, events: seq<Event>, key: string, newer: set<string>)
    decreases events
  {
    events != [] && events[0] != Succeeded(key) &&
    var more := NewerAfter(t, events[0], key, newer);
    |more| >= 10_000 || Crowded(Step(t, events[0]), events[1..], key, more)
  }

  lemma NewerCount(t: Tracker, key: string, i: nat, newer: set<string>)
    requires ValidTracker(t) && NewerKeys(t, key, i, newer)
    ensures |newer| == |t.order| - 1 - i && |t.order| <= MAX_TRACKED
    ensures key !in newer && key in t.states
    ensures forall k :: k in newer ==> k in t.states
  {
    DistinctCount(t.order[i + 1..]);
  }

  lemma SuccessOfNewer(t: Tracker, gone: string, key: string, i: nat, newer: set<string>) returns (j: nat)
    requires ValidTracker(t) && NewerKeys(t, key, i, newer) && gone != key
    ensures NewerKeys(Without(t, gone), key, j, newer - {gone})
  {
    hide ValidTracker, Distinct, Filter;
    var p := (k: string) => k != gone;
    var front, behind := t.order[..i], t.order[i + 1..];
    assert t.order == front + ([key] + behind);
    FilterConcat(front, [key] + behind, p);
    FilterConcat([key], behind, p);
    FilterAll([key], p);
    j := |Filter(front, p)|;
    var kept := Filter(t.order, p);
    assert kept == Filter(front, p) + ([key] + Filter(behind, p));
    assert kept[j + 1..] == Filter(behind, p);
    forall k ensures k in Filter(behind, p) <==> k in behind && k != gone {
      FilterMembers(behind, p, k);
    }
  }

  lemma BehindAndOne(order: seq<string>, from: nat, i: nat, other: string)
    requires from <= i < |order|
    ensures (order[from..] + [other])[i - from] == order[i]
    ensures Elements((order[from..] + [other])[i - from + 1..]) == Elements(order[i + 1..]) + {other}
  {
    assert (order[from..] + [other])[i - from + 1..] == order[i + 1..] + [other];
  }

  lemma FailureOfOther(t: Tracker, other: string, now: int, key: string, i: nat, newer: set<string>)
    requires ValidTracker(t) && NewerKeys(t, key, i, newer) && other !in t.states
    ensures var next := Fail(t, other, now);
      if |t.order| < MAX_TRACKED then NewerKeys(next, key, i, newer + {other})
      else if i > 0 then NewerKeys(next, key, i - 1, newer + {other})
      else key !in next.states
  {
    hide Fail, Distinct, Elements, ValidTracker;
    FailUntracked(t, other, now);
    if |t.order| < MAX_TRACKED {
      assert t.order[0..] == t.order;
      BehindAndOne(t.order, 0, i, other);
    } else if i > 0 {
      BehindAndOne(t.order, 1, i, other);
    } else {
      KeysDiffer(t, key, other);
    }
  }

  lemma KeysDiffer(t: Tracker, key: string, other: string)
    requires ValidTracker(t) && key in t.order && other !in t.states
    ensures key != other
  {
  }

  lemma FailureOfTracked(t: Tracker, other: string, now: int, key: string, i: nat, newer: set<string>)
    requires NewerKeys(t, key, i, newer) && other in t.states
    ensures NewerKeys(Fail(t, other, now), key, i, newer)
  {
    hide Fail;
    FailTracked(t, other, now);
  }

  /** One event keeps the count of newer keys, and evicts `key` exactly when it fills up. */
  lemma StepKeepsNewer(t: Tracker, event: Event, key: string, i: nat, newer: set<string>) returns (j: nat)
    requires ValidTracker(t) && NewerKeys(t, key, i, newer) && event != Succeeded(key)
    ensures var next := Step(t, event);
      var more := NewerAfter(t, event, key, newer);
      && (key in next.states <==> |more| < MAX_TRACKED)
      && (key in next.states ==> ValidTracker(next) && NewerKeys(next, key, j, more))
      && |more| <= |newer| + (if FailsFirst(t, event, key) then 1 else 0)
      && (!event.Succeeded? ==> |more| == |newer| + (if FailsFirst(t, event, key) then 1 else 0))
  {
    hide ValidTracker, NewerKeys, Without, Fail;
    StepIsValid(t, event);
    NewerCount(t, key, i, newer);
    var next := Step(t, event);
    j := i;
    match event
    case Checked(_, _) =>
    case Succeeded(gone) =>
      j := SuccessOfNewer(t, gone, key, i, newer);
      NewerCount(next, key, j, newer - {gone});
    case Failed(other, now) =>
      if other in t.states {
        FailureOfTracked(t, other, now, key, i, newer);
        NewerCount(next, key, i, newer);
      } else {
        FailureOfOther(t, other, now, key, i, newer);
        if |t.order| < MAX_TRACKED || i > 0 {
          j := if |t.order| < MAX_TRACKED then i else i - 1;
          NewerCount(next, key, j, newer + {other});
        }
      }
  }

  /** Exactly when a tracked key is evicted, whatever the interleaving. */
  lemma {:induction false} EvictedIff(t: Tracker, events: seq<Event>, key: string, i: nat, newer: set<string>)
    requires ValidTracker(t) && NewerKeys(t, key, i, newer)
    ensures Evicted(t, events, key) <==> Crowded(t, events, key, newer)
    decreases events
  {
    hide ValidTracker, Step, NewerKeys, NewerAfter;
    if events != [] && events[0] != Succeeded(key) {
      var j := StepKeepsNewer(t, events[0], key, i, newer);
      var next := Step(t, events[0]);
      if key in next.states {
        EvictedIff(next, events[1..], key, j, NewerAfter(t, events[0], key, newer));
      }
    }
  }

  ghost predicate NoSuccess(events: seq<Event>) {
    forall k :: 0 <= k < |events| ==> !events[k].Succeeded?
  }

  lemma {:induction false} CrowdedByFailures(
    t: Tracker, events: seq<Event>, key: string, i: nat, newer: set<string>)
    requires ValidTracker(t) && NewerKeys(t, key, i, newer)
    ensures Crowded(t, events, key, newer) ==> |newer| + FirstFailures(t, events, key) >= MAX_TRACKED
    ensures NoSuccess(events) && |newer| + FirstFailures(t, events, key) >= MAX_TRACKED ==>
      Crowded(t, events, key, newer)
    decreases events
  {
    hide ValidTracker, Step, NewerKeys, NewerAfter;
    FewNewer(t, key, i, newer);
    if events != [] && events[0] != Succeeded(key) {
      var j := StepKeepsNewer(t, events[0], key, i, newer);
      var next := Step(t, events[0]);
      if key in next.states {
        CrowdedByFailures(next, events[1..], key, j, NewerAfter(t, events[0], key, newer));
      }
    }
  }

  lemma FewNewer(t: Tracker, key: string, i: nat, newer: set<string>)
    requires ValidTracker(t) && NewerKeys(t, key, i, newer)
    ensures |newer| < MAX_TRACKED && key in t.states
  {
    NewerCount(t, key, i, newer);
  }

  /** A key is evicted only after enough newer keys have come in behind it. */
  lemma EvictionNeedsNewerKeys(t: Tracker, events: seq<Event>, key: string, i: nat, newer: set<string>)
    requires ValidTracker(t) && NewerKeys(t, key, i, newer) && Evicted(t, events, key)
    ensures |newer| + FirstFailures(t, events, key) >= MAX_TRACKED
  {
    hide Evicted, Crowded, FirstFailures, Distinct;
    EvictedIff(t, events, key, i, newer);
    CrowdedByFailures(t, events, key, i, newer);
  }

  /** From its own first failure on, a key outlasts `MAX_TRACKED` first failures of others. */
  lemma EvictionIsFifo(t: Tracker, events: seq<Event>, key: string, now: int)
    requires ValidTracker(t) && key !in t.states && Evicted(Fail(t, key, now), events, key)
    ensures FirstFailures(Fail(t, key, now), events, key) >= 10_000
  {
    hide ValidTracker, Fail, Evicted, FirstFailures;
    var i := NothingNewer(t, key, now);
    EvictionNeedsNewerKeys(Fail(t, key, now), events, key, i, {});
  }

  lemma NothingNewer(t: Tracker, key: string, now: int) returns (i: nat)
    requires ValidTracker(t) && key !in t.states
    ensures ValidTracker(Fail(t, key, now)) && NewerKeys(Fail(t, key, now), key, i, {})
  {
    hide LockMs, Distinct;
    var failed := Fail(t, key, now);
    FailIsValid(t, key, now);
    i := |failed.order| - 1;
    assert failed.order[i + 1..] == [];
  }

  /** From its own first failure on, a key is evicted exactly when, before it succeeds,
      `MAX_TRACKED` other keys have failed after it without succeeding since; in a run without
      successes, exactly when there are `MAX_TRACKED` first failures of other keys. */
  lemma EvictionIff(t: Tracker, events: seq<Event>, key: string, now: int)
    requires ValidTracker(t) && key !in t.states
    ensures var failed := Fail(t, key, now);
      && (Evicted(failed, events, key) <==> Crowded(failed, events, key, {}))
      && (NoSuccess(events) ==>
            (Evicted(failed, events, key) <==> FirstFailures(failed, events, key) >= 10_000))
  {
    hide Fail, ValidTracker, Evicted, Crowded, FirstFailures, NewerKeys;
    var failed := Fail(t, key, now);
    var i := NothingNewer(t, key, now);
    EvictedIff(failed, events, key, i, {});
    FewNewer(failed, key, i, {});
    CrowdedByFailures(failed, events, key, i, {});
  }

  // ---------------------------------------------------------------- lock windows

  lemma {:induction false} Pow2Monotone(m: nat, n: nat)
    requires m <= n
    ensures Pow2(m) <= Pow2(n)
  {
    if m < n {
      Pow2Monotone(m, n - 1);
    }
  }

  /** Five failures are free; from the sixth on the lock is two seconds, doubling with each
      failure, up to fifteen minutes from the fifteenth on. */
  lemma {:induction false} LockTable(failures: nat)
    ensures failures <= 5 ==> LockMs(failures) == 0
    ensures LockMs(6) == 2_000
    ensures 6 <= failures < 14 ==> LockMs(failures + 1) == 2 * LockMs(failures)
    ensures failures >= 15 ==> LockMs(failures) == 900_000
  {
    assert Pow2(0) == 1;
    if 6 <= failures < 14 {
      SmallPowers();
    } else if failures >= 15 {
      SmallPowers();
      Pow2Monotone(9, failures - 6);
    }
  }

  lemma SmallPowers()
    ensures Pow2(0) == 1 && Pow2(1) == 2 && Pow2(2) == 4 && Pow2(3) == 8 && Pow2(4) == 16
    ensures Pow2(5) == 32 && Pow2(6) == 64 && Pow2(7) == 128 && Pow2(8) == 256 && Pow2(9) == 512
  {
    assert Pow2(1) == 2 * Pow2(0) && Pow2(2) == 2 * Pow2(1) && Pow2(3) == 2 * Pow2(2);
    assert Pow2(4) == 2 * Pow2(3) && Pow2(5) == 2 * Pow2(4) && Pow2(6) == 2 * Pow2(5);
    assert Pow2(7) == 2 * Pow2(6) && Pow2(8) == 2 * Pow2(7) && Pow2(9) == 2 * Pow2(8);
  }

  lemma LocksGrow(m: nat, n: nat)
    requires m <= n
    ensures LockMs(m) <= LockMs(n)
  {
    if m > FREE_ATTEMPTS {
      Pow2Monotone(m - FREE_ATTEMPTS - 1, n - FREE_ATTEMPTS - 1);
    }
  }

  /** `key` stays tracked, with failure times that never go back behind `last`. */
  ghost predicate StaysTracked(t: Tracker, events: seq<Event>, key: string, last: int)
    decreases events
  {
    key in t.states &&
    (events == [] ||
     if events[0].Failed? && events[0].key == key then
       last <= events[0].now && StaysTracked(Step(t, events[0]), events[1..], key, events[0].now)
     else StaysTracked(Step(t, events[0]), events[1..], key, last))
  }

  /** While a key stays tracked its lock never ends earlier than it once did, even when
      attempts overlap. */
  lemma {:induction false} LockNeverShrinks(t: Tracker, events: seq<Event>, key: string, last: int)
    requires StaysTracked(t, events, key, last)
    requires t.states[key].lockedUntil <= last + LockMs(t.states[key].failures)
    ensures key in Run(t, events).states
    ensures t.states[key].lockedUntil <= Run(t, events).states[key].lockedUntil
    ensures t.states[key].failures <= Run(t, events).states[key].failures
    decreases events
  {
    hide LockMs;
    if events == [] {
    } else {
      var next := Step(t, events[0]);
      if events[0].Failed? && events[0].key == key {
        LocksGrow(t.states[key].failures, next.states[key].failures);
        LockNeverShrinks(next, events[1..], key, events[0].now);
      } else {
        assert next.states[key] == t.states[key];
        LockNeverShrinks(next, events[1..], key, last);
      }
    }
  }

  // ---------------------------------------------------------------- what the tracker remembers

  /** The times of the failures of `key` since it last succeeded. */
  function RecentFailures(events: seq<Event>, key: string): seq<int> {
    if events == [] then []
    else
      var front, last := events[..|events| - 1], events[|events| - 1];
      if last == Succeeded(key) then []
      else RecentFailures(front, key) + if last.Failed? && last.key == key then [last.now] else []
  }

  /** `key` is never evicted: once tracked it only leaves by succeeding. */
  ghost predicate NeverEvicted(events: seq<Event>, key: string) {
    forall n :: 0 <= n < |events| && key in Run(EMPTY, events[..n]).states && events[n] != Succeeded(key) ==>
      key in Run(EMPTY, events[..n + 1]).states
  }

  lemma StepOnKey(t: Tracker, event: Event, key: string)
    requires key in t.states && event != Succeeded(key) ==> key in Step(t, event).states
    ensures var next := Step(t, event).states;
      match event
      case Failed(k, now) =>
        if k == key then
          var n := (if key in t.states then t.states[key].failures else 0) + 1;
          key in next && next[key] == AttemptState(n, now + LockMs(n))
        else (key in next <==> key in t.states) && (key in next ==> next[key] == t.states[key])
      case Succeeded(k) =>
        if k == key then key !in next
        else (key in next <==> key in t.states) && (key in next ==> next[key] == t.states[key])
      case Checked(_, _) => next == t.states
  {
    hide LockMs;
  }

  lemma RecentStep(events: seq<Event>, key: string)
    requires events != []
    ensures var front, last := RecentFailures(events[..|events| - 1], key), events[|events| - 1];
      RecentFailures(events, key) ==
        match last
        case Checked(_, _) => front
        case Failed(k, now) => if k == key then front + [now] else front
        case Succeeded(k) => if k == key then [] else front
  {
  }

  lemma FrontNeverEvicted(events: seq<Event>, key: string)
    requires NeverEvicted(events, key) && events != []
    ensures var n := |events| - 1;
      var front := Run(EMPTY, events[..n]);
      && NeverEvicted(events[..n], key) && Run(EMPTY, events) == Step(front, events[n])
      && (key in front.states && events[n] != Succeeded(key) ==> key in Step(front, events[n]).states)
  {
    hide Run, Step;
    var n := |events| - 1;
    var front := events[..n];
    assert front + [events[n]] == events == events[..n + 1];
    RunAppend(EMPTY, front, events[n]);
    assert forall m :: 0 <= m <= n ==> front[..m] == events[..m];
  }

  /** While a key is not evicted, the tracker holds exactly its failures since it last succeeded:
      their number, and a lock of the length that number brings from the last of them on. */
  lemma {:induction false} StateIsRecentFailures(events: seq<Event>, key: string)
    requires NeverEvicted(events, key)
    ensures var times, states := RecentFailures(events, key), Run(EMPTY, events).states;
      if times == [] then key !in states
      else
        key in states && states[key] == AttemptState(|times|, times[|times| - 1] + LockMs(|times|))
    decreases |events|
  {
    hide LockMs, Step, Run, RecentFailures, NeverEvicted;
    if events == [] {
      NothingTracked(key);
    } else {
      var n := |events| - 1;
      var front, last := events[..n], events[n];
      FrontNeverEvicted(events, key);
      StateIsRecentFailures(front, key);
      StepOnKey(Run(EMPTY, front), last, key);
      RecentStep(events, key);
    }
  }

  lemma NothingTracked(key: string)
    ensures key !in Run(EMPTY, []).states && RecentFailures([], key) == []
  {
  }

  // ---------------------------------------------------------------- the time bound

  /** Attempts on `key` are checked before they fail or succeed, at most `inFlight` of them at
      once (`pending` are under way); its times never go back behind `clock`; and `key` is
      neither cleared nor evicted once it has failed. Other keys do as they please. */
  ghost predicate Consulted(
    t: Tracker, events: seq<Event>, key: string, pending: nat, inFlight: nat, clock: int)
    decreases events
  {
    pending <= inFlight &&
    (events == [] ||
     var next, rest := Step(t, events[0]), events[1..];
     && (key in t.states ==> key in next.states)
     && if events[0].key != key then Consulted(next, rest, key, pending, inFlight, clock)
        else match events[0]
          case Checked(_, now) =>
            clock <= now && Allowed(t, key, now) && Consulted(next, rest, key, pending + 1, inFlight, now)
          case Failed(_, now) =>
            clock <= now && pending > 0 && Consulted(next, rest, key, pending - 1, inFlight, now)
          case Succeeded(_) =>
            pending > 0 && Consulted(next, rest, key, pending - 1, inFlight, clock))
  }

  /** When `key` failed, in order. */
  function FailureTimes(events: seq<Event>, key: string): seq<int>
    decreases events
  {
    if events == [] then []
    else (if events[0].Failed? && events[0].key == key then [events[0].now] else []) +
         FailureTimes(events[1..], key)
  }

  lemma FailureTimesStep(events: seq<Event>, key: string)
    requires events != []
    ensures FailureTimes(events, key) ==
      if events[0].Failed? && events[0].key == key
      then [events[0].now] + FailureTimes(events[1..], key) else FailureTimes(events[1..], key)
  {
  }

  function FailuresOf(t: Tracker, key: string): nat {
    if key in t.states then t.states[key].failures else 0
  }

  lemma OthersLeaveState(t: Tracker, event: Event, key: string)
    requires event.key != key && (key in t.states ==> key in Step(t, event).states)
    ensures key in Step(t, event).states <==> key in t.states
    ensures key in t.states ==> Step(t, event).states[key] == t.states[key]
  {
  }

  lemma {:induction false} TimesFollowClock(
    t: Tracker, events: seq<Event>, key: string, pending: nat, inFlight: nat, clock: int)
    requires Consulted(t, events, key, pending, inFlight, clock)
    ensures var times := FailureTimes(events, key);
      && (forall i :: 0 <= i < |times| ==> clock <= times[i])
      && (forall i, j :: 0 <= i <= j < |times| ==> times[i] <= times[j])
    decreases events
  {
    hide Step, Allowed, FailureTimes;
    if events == [] {
      assert FailureTimes([], key) == [] by {
        NothingConsulted(t, key, inFlight, clock);
      }
    } else {
      var event, rest := events[0], events[1..];
      var next := Step(t, event);
      FailureTimesStep(events, key);
      if event.key != key {
        TimesFollowClock(next, rest, key, pending, inFlight, clock);
      } else {
        match event
        case Checked(_, now) => TimesFollowClock(next, rest, key, pending + 1, inFlight, now);
        case Failed(_, now) => TimesFollowClock(next, rest, key, pending - 1, inFlight, now);
        case Succeeded(_) => TimesFollowClock(next, rest, key, pending - 1, inFlight, clock);
      }
    }
  }

  /** Once the attempts under way are used up, no failure comes before the lock ends. */
  lemma {:induction false} NextCheckWaits(
    t: Tracker, events: seq<Event>, key: string, pending: nat, inFlight: nat, clock: int, i: nat)
    requires Consulted(t, events, key, pending, inFlight, clock) && key in t.states
    requires t.states[key].lockedUntil <= clock + LockMs(t.states[key].failures)
    requires pending <= i < |FailureTimes(events, key)|
    ensures FailureTimes(events, key)[i] >= t.states[key].lockedUntil
    decreases events
  {
    hide LockMs, MakeRoom, FailureTimes;
    if events == [] {
      NothingConsulted(t, key, inFlight, clock);
    }
    var event, rest := events[0], events[1..];
    var next := Step(t, event);
    FailureTimesStep(events, key);
    if event.key != key {
      OthersLeaveState(t, event, key);
      NextCheckWaits(next, rest, key, pending, inFlight, clock, i);
    } else if event.Checked? {
      TimesFollowClock(next, rest, key, pending + 1, inFlight, event.now);
    } else if event.Failed? {
      LocksGrow(t.states[key].failures, t.states[key].failures + 1);
      NextCheckWaits(next, rest, key, pending - 1, inFlight, event.now, i - 1);
    }
  }

  /** A failure and the one `inFlight` later are apart by the lock of the first. */
  lemma {:induction false} FailuresApart(
    t: Tracker, events: seq<Event>, key: string, pending: nat, inFlight: nat, clock: int, i: nat)
    requires Consulted(t, events, key, pending, inFlight, clock) && inFlight >= 1
    requires i + inFlight < |FailureTimes(events, key)|
    ensures FailureTimes(events, key)[i + inFlight] >=
      FailureTimes(events, key)[i] + LockMs(FailuresOf(t, key) + i + 1)
    decreases events
  {
    hide LockMs, MakeRoom, Allowed, FailureTimes;
    if events == [] {
      NothingConsulted(t, key, inFlight, clock);
    }
    var event, rest := events[0], events[1..];
    var next := Step(t, event);
    FailureTimesStep(events, key);
    if event.key != key {
      OthersLeaveState(t, event, key);
      FailuresApart(next, rest, key, pending, inFlight, clock, i);
    } else if event.Checked? {
      FailuresApart(next, rest, key, pending + 1, inFlight, event.now, i);
    } else if event.Succeeded? {
      FailuresApart(next, rest, key, pending - 1, inFlight, clock, i);
    } else if i > 0 {
      FailuresApart(next, rest, key, pending - 1, inFlight, event.now, i - 1);
    } else {
      NextCheckWaits(next, rest, key, pending - 1, inFlight, event.now, inFlight - 1);
    }
  }

  /** The locks that stand between the first and the `n`-th failure when `inFlight` attempts
      run at once: one for every `inFlight` failures, counted back from the `n`-th. */
  function ServedLocks(n: nat, inFlight: nat): nat
    requires inFlight >= 1
  {
    if n <= inFlight then 0 else LockMs(n - inFlight) + ServedLocks(n - inFlight, inFlight)
  }

  lemma {:induction false} FailuresWait(
    t: Tracker, events: seq<Event>, key: string, inFlight: nat, clock: int, n: nat)
    requires Consulted(t, events, key, 0, inFlight, clock) && key !in t.states && inFlight >= 1
    requires 1 <= n <= |FailureTimes(events, key)|
    ensures FailureTimes(events, key)[n - 1] - FailureTimes(events, key)[0] >= ServedLocks(n, inFlight)
    decreases n
  {
    hide LockMs, Consulted;
    TimesFollowClock(t, events, key, 0, inFlight, clock);
    if n > inFlight {
      FailuresApart(t, events, key, 0, inFlight, clock, n - inFlight - 1);
      FailuresWait(t, events, key, inFlight, clock, n - inFlight);
    }
  }

  // ---------------------------------------------------------------- the bound is met

  function Checks(key: string, now: int, n: nat): seq<Event> {
    if n == 0 then [] else [Checked(key, now)] + Checks(key, now, n - 1)
  }

  function Failures(key: string, now: int, n: nat): seq<Event> {
    if n == 0 then [] else [Failed(key, now)] + Failures(key, now, n - 1)
  }

  function FailMany(t: Tracker, key: string, now: int, n: nat): Tracker
    decreases n
  {
    if n == 0 then t else FailMany(Fail(t, key, now), key, now, n - 1)
  }

  lemma {:induction false} FailManyState(t: Tracker, key: string, now: int, n: nat)
    requires n >= 1
    ensures var next := FailMany(t, key, now, n);
      && key in next.states
      && next.states[key] == AttemptState(FailuresOf(t, key) + n, now + LockMs(FailuresOf(t, key) + n))
    decreases n
  {
    hide LockMs, MakeRoom;
    if n > 1 {
      FailManyState(Fail(t, key, now), key, now, n - 1);
    }
  }

  lemma {:induction false} ChecksPass(
    t: Tracker, key: string, now: int, n: nat, rest: seq<Event>, pending: nat, inFlight: nat, clock: int)
    requires clock <= now && Allowed(t, key, now) && pending + n <= inFlight && n >= 1
    requires Consulted(t, rest, key, pending + n, inFlight, now)
    ensures Consulted(t, Checks(key, now, n) + rest, key, pending, inFlight, clock)
    ensures FailureTimes(Checks(key, now, n) + rest, key) == FailureTimes(rest, key)
    decreases n
  {
    hide Allowed;
    var events := Checks(key, now, n) + rest;
    assert events[0] == Checked(key, now) && events[1..] == Checks(key, now, n - 1) + rest;
    if n > 1 {
      ChecksPass(t, key, now, n - 1, rest, pending + 1, inFlight, now);
    } else {
      assert events[1..] == rest;
    }
  }

  function Repeated(now: int, n: nat): seq<int> {
    if n == 0 then [] else [now] + Repeated(now, n - 1)
  }

  lemma {:induction false} FailuresPass(
    t: Tracker, key: string, now: int, n: nat, rest: seq<Event>, pending: nat, inFlight: nat)
    requires n <= pending <= inFlight
    requires Consulted(FailMany(t, key, now, n), rest, key, pending - n, inFlight, now)
    ensures Consulted(t, Failures(key, now, n) + rest, key, pending, inFlight, now)
    ensures FailureTimes(Failures(key, now, n) + rest, key) == Repeated(now, n) + FailureTimes(rest, key)
    decreases n
  {
    hide MakeRoom, LockMs, Allowed;
    var events := Failures(key, now, n) + rest;
    if n > 0 {
      assert events[0] == Failed(key, now) && events[1..] == Failures(key, now, n - 1) + rest;
      FailuresPass(Fail(t, key, now), key, now, n - 1, rest, pending - 1, inFlight);
    } else {
      assert events == rest;
    }
  }

  /** The size of the first batch when `n` attempts go out `inFlight` at a time and every later
      batch is full. */
  function FirstBatch(n: nat, inFlight: nat): (size: nat)
    requires inFlight >= 1
    ensures size <= inFlight && size <= n && (n >= 1 ==> size >= 1)
  {
    if n <= inFlight then n else FirstBatch(n - inFlight, inFlight)
  }

  /** Batches of attempts, each sent the moment the lock of the one before ends, all failing
      at once. */
  function BatchRun(key: string, done: nat, left: nat, inFlight: nat, now: int): seq<Event>
    requires inFlight >= 1
    decreases left
  {
    if left == 0 then []
    else
      var size := FirstBatch(left, inFlight);
      Checks(key, now, size) +
      (Failures(key, now, size) +
       BatchRun(key, done + size, left - size, inFlight, now + LockMs(done + size)))
  }

  /** The time a batch run takes, from its first batch to its last. */
  function Spread(done: nat, left: nat, inFlight: nat): nat
    requires inFlight >= 1
    decreases left
  {
    if left <= inFlight then 0
    else
      var size := FirstBatch(left, inFlight);
      LockMs(done + size) + Spread(done + size, left - size, inFlight)
  }

  lemma {:induction false} RepeatedEnds(now: int, n: nat, more: seq<int>)
    ensures |Repeated(now, n) + more| == n + |more|
    ensures n >= 1 ==> (Repeated(now, n) + more)[0] == now
    ensures n >= 1 && more == [] ==> (Repeated(now, n) + more)[n - 1] == now
    ensures more != [] ==> (Repeated(now, n) + more)[n + |more| - 1] == more[|more| - 1]
  {
    if n >= 1 {
      RepeatedEnds(now, n - 1, more);
      assert Repeated(now, n) + more == [now] + (Repeated(now, n - 1) + more);
    }
  }

  /** The shape of a run: consulted throughout, and where its first and last failures fall. */
  ghost predicate RunSpans(
    t: Tracker, events: seq<Event>, key: string, inFlight: nat, clock: int, n: nat, first: int, last: int)
  {
    var times := FailureTimes(events, key);
    && Consulted(t, events, key, 0, inFlight, clock)
    && 1 <= n == |times| && times[0] == first && times[n - 1] == last
  }

  /** One batch in front of a run that starts when its lock ends. */
  lemma BatchInFront(
    t: Tracker, key: string, size: nat, rest: seq<Event>, inFlight: nat, now: int, clock: int)
    requires 1 <= size <= inFlight && clock <= now && Allowed(t, key, now)
    requires Consulted(FailMany(t, key, now, size), rest, key, 0, inFlight, now)
    ensures var events := Checks(key, now, size) + (Failures(key, now, size) + rest);
      && Consulted(t, events, key, 0, inFlight, clock)
      && FailureTimes(events, key) == Repeated(now, size) + FailureTimes(rest, key)
  {
    hide LockMs, Consulted, Allowed, FailMany, Checks, Failures;
    FailuresPass(t, key, now, size, rest, size, inFlight);
    ChecksPass(t, key, now, size, Failures(key, now, size) + rest, 0, inFlight, clock);
  }

  lemma BatchRunStep(key: string, done: nat, left: nat, inFlight: nat, now: int)
    requires inFlight >= 1 && left >= 1
    ensures var size := FirstBatch(left, inFlight);
      BatchRun(key, done, left, inFlight, now) ==
        Checks(key, now, size) +
        (Failures(key, now, size) +
         BatchRun(key, done + size, left - size, inFlight, now + LockMs(done + size)))
  {
    hide LockMs, FirstBatch, Checks, Failures;
  }

  lemma OnlyBatch(t: Tracker, key: string, done: nat, left: nat, inFlight: nat, now: int, clock: int)
    requires inFlight >= left >= 1 && clock <= now && Allowed(t, key, now)
    ensures RunSpans(t, BatchRun(key, done, left, inFlight, now), key, inFlight, clock, left,
      now, now + Spread(done, left, inFlight))
  {
    hide LockMs, Consulted, Allowed, FailMany, Checks, Failures, Repeated, FailureTimes, BatchRun, FirstBatch;
    FirstBatchStep(left, inFlight);
    BatchRunStep(key, done, left, inFlight, now);
    var rest := BatchRun(key, done + left, 0, inFlight, now + LockMs(done + left));
    NoBatch(key, done + left, inFlight, now + LockMs(done + left));
    NothingConsulted(FailMany(t, key, now, left), key, inFlight, now);
    BatchInFront(t, key, left, rest, inFlight, now, clock);
    RepeatedEnds(now, left, []);
    NoMoreBatches(done, left, inFlight);
  }

  lemma NoBatch(key: string, done: nat, inFlight: nat, now: int)
    requires inFlight >= 1
    ensures BatchRun(key, done, 0, inFlight, now) == []
  {
  }

  lemma BatchBeforeRun(t: Tracker, key: string, done: nat, left: nat, inFlight: nat, now: int, clock: int)
    requires left > inFlight >= 1 && clock <= now && Allowed(t, key, now)
    requires var size := FirstBatch(left, inFlight);
      var later := now + LockMs(done + size);
      RunSpans(FailMany(t, key, now, size), BatchRun(key, done + size, left - size, inFlight, later), key,
        inFlight, now, left - size, later, later + Spread(done + size, left - size, inFlight))
    ensures RunSpans(t, BatchRun(key, done, left, inFlight, now), key, inFlight, clock, left,
      now, now + Spread(done, left, inFlight))
  {
    hide LockMs, Consulted, Allowed, FailMany, Checks, Failures, Repeated, FailureTimes, BatchRun, FirstBatch, Spread;
    var size := FirstBatch(left, inFlight);
    var rest := BatchRun(key, done + size, left - size, inFlight, now + LockMs(done + size));
    BatchRunStep(key, done, left, inFlight, now);
    SpreadStep(done, left, inFlight);
    BatchInFront(t, key, size, rest, inFlight, now, clock);
    RepeatedEnds(now, size, FailureTimes(rest, key));
  }

  lemma {:induction false} BatchRunShape(
    t: Tracker, key: string, done: nat, left: nat, inFlight: nat, now: int, clock: int)
    requires inFlight >= 1 && left >= 1 && clock <= now
    requires Allowed(t, key, now) && FailuresOf(t, key) == done
    ensures RunSpans(t, BatchRun(key, done, left, inFlight, now), key, inFlight, clock, left,
      now, now + Spread(done, left, inFlight))
    decreases left
  {
    hide LockMs, Consulted, Allowed, FailMany, RunSpans, FirstBatch, BatchRun, Spread;
    var size := FirstBatch(left, inFlight);
    var later := now + LockMs(done + size);
    var next := FailMany(t, key, now, size);
    FailManyState(t, key, now, size);
    if left > inFlight {
      UnlockedAllows(next, key, later);
      BatchRunShape(next, key, done + size, left - size, inFlight, later, now);
      BatchBeforeRun(t, key, done, left, inFlight, now, clock);
    } else {
      FirstBatchStep(left, inFlight);
      OnlyBatch(t, key, done, left, inFlight, now, clock);
    }
  }

  lemma UnlockedAllows(t: Tracker, key: string, now: int)
    requires key in t.states && t.states[key].lockedUntil <= now
    ensures Allowed(t, key, now)
  {
  }

  lemma NothingConsulted(t: Tracker, key: string, inFlight: nat, clock: int)
    ensures Consulted(t, [], key, 0, inFlight, clock)
    ensures FailureTimes([], key) == []
  {
  }

  function LocksBack(done: nat, left: nat, inFlight: nat): nat
    requires inFlight >= 1
  {
    if left <= inFlight then 0
    else LockMs(done + left - inFlight) + LocksBack(done, left - inFlight, inFlight)
  }

  lemma FirstBatchStep(n: nat, inFlight: nat)
    requires inFlight >= 1
    ensures FirstBatch(n, inFlight) == if n <= inFlight then n else FirstBatch(n - inFlight, inFlight)
  {
  }

  lemma SpreadStep(done: nat, left: nat, inFlight: nat)
    requires inFlight >= 1 && left > inFlight
    ensures var size := FirstBatch(left, inFlight);
      Spread(done, left, inFlight) == LockMs(done + size) + Spread(done + size, left - size, inFlight)
  {
    hide LockMs, FirstBatch;
  }

  lemma LocksBackStep(done: nat, left: nat, inFlight: nat)
    requires inFlight >= 1 && left > inFlight
    ensures LocksBack(done, left, inFlight) ==
      LockMs(done + left - inFlight) + LocksBack(done, left - inFlight, inFlight)
  {
    hide LockMs;
  }

  lemma NoMoreBatches(done: nat, left: nat, inFlight: nat)
    requires inFlight >= 1 && left <= inFlight
    ensures Spread(done, left, inFlight) == 0 == LocksBack(done, left, inFlight)
  {
  }

  lemma {:induction false} SpreadIsLocksBack(done: nat, left: nat, inFlight: nat)
    requires inFlight >= 1
    ensures Spread(done, left, inFlight) == LocksBack(done, left, inFlight)
    decreases left
  {
    hide LockMs, FirstBatch;
    if left > inFlight {
      var size, less := FirstBatch(left, inFlight), left - inFlight;
      FirstBatchStep(left, inFlight);
      SpreadIsLocksBack(done + size, left - size, inFlight);
      SpreadIsLocksBack(done, less, inFlight);
      if less > inFlight {
        SpreadIsLocksBack(done + size, less - size, inFlight);
        LocksBackStep(done + size, left - size, inFlight);
        SpreadStep(done, less, inFlight);
      } else {
        FirstBatchStep(less, inFlight);
        NoMoreBatches(done, less, inFlight);
        NoMoreBatches(done + size, left - size, inFlight);
      }
      LocksBackStep(done, left, inFlight);
      SpreadStep(done, left, inFlight);
    }
  }

  lemma {:induction false} LocksBackAreServed(n: nat, inFlight: nat)
    requires inFlight >= 1
    ensures LocksBack(0, n, inFlight) == ServedLocks(n, inFlight)
  {
    hide LockMs;
    if n > inFlight {
      LocksBackAreServed(n - inFlight, inFlight);
    }
  }

  /** Some run of `key` from an empty tracker, with at most `inFlight` attempts at once, has
      its first and its `n`-th failure exactly `gap` apart. */
  ghost predicate Takes(events: seq<Event>, key: string, inFlight: nat, n: nat, gap: int) {
    && Consulted(EMPTY, events, key, 0, inFlight, 0)
    && 1 <= n <= |FailureTimes(events, key)|
    && FailureTimes(events, key)[n - 1] - FailureTimes(events, key)[0] == gap
  }

  lemma BatchRunTakes(key: string, inFlight: nat, n: nat)
    requires inFlight >= 1 && n >= 1
    ensures Takes(BatchRun(key, 0, n, inFlight, 0), key, inFlight, n, ServedLocks(n, inFlight))
  {
    hide Consulted, Spread, ServedLocks, LocksBack, FailureTimes, BatchRun;
    BatchRunShape(EMPTY, key, 0, n, inFlight, 0, 0);
    SpreadIsLocksBack(0, n, inFlight);
    LocksBackAreServed(n, inFlight);
  }

  ghost predicate BoundHolds(inFlight: nat, n: nat, gap: int) {
    forall t, events, key, clock ::
      Consulted(t, events, key, 0, inFlight, clock) && key !in t.states && 1 <= n <= |FailureTimes(events, key)| ==>
      FailureTimes(events, key)[n - 1] - FailureTimes(events, key)[0] >= gap
  }

  /** The exact bound: with at most `inFlight` attempts at once a gap before the `n`-th failure
      is guaranteed exactly when it is no longer than the locks served. */
  lemma TimeBoundIff(inFlight: nat, n: nat, gap: int)
    requires inFlight >= 1 && n >= 1
    ensures BoundHolds(inFlight, n, gap) <==> gap <= ServedLocks(n, inFlight)
  {
    hide Consulted, ServedLocks, FailureTimes;
    if gap <= ServedLocks(n, inFlight) {
      forall t, events, key, clock |
        Consulted(t, events, key, 0, inFlight, clock) && key !in t.states && 1 <= n <= |FailureTimes(events, key)|
        ensures FailureTimes(events, key)[n - 1] - FailureTimes(events, key)[0] >= gap
      {
        FailuresWait(t, events, key, inFlight, clock, n);
      }
    } else {
      BatchRunTakes("", inFlight, n);
      var events := BatchRun("", 0, n, inFlight, 0);
      assert Consulted(EMPTY, events, "", 0, inFlight, 0);
    }
  }

  // ---------------------------------------------------------------- one at a time, and more

  lemma EarlyLocks()
    ensures ServedLocks(14, 1) == 510_000 && ServedLocks(15, 1) == 1_022_000
  {
    assert Pow2(0) == 1 && Pow2(1) == 2 && Pow2(2) == 4 && Pow2(3) == 8 && Pow2(4) == 16;
    assert Pow2(5) == 32 && Pow2(6) == 64 && Pow2(7) == 128 && Pow2(8) == 256;
    assert ServedLocks(1, 1) == ServedLocks(2, 1) == ServedLocks(3, 1) == ServedLocks(4, 1) == 0;
    assert ServedLocks(5, 1) == ServedLocks(6, 1) == 0;
    assert ServedLocks(7, 1) == 2_000;
    assert ServedLocks(9, 1) == 14_000;
    assert ServedLocks(11, 1) == 62_000;
    assert ServedLocks(13, 1) == 254_000;
  }

  /** What one attempt at a time guarantees before the `n`-th failure. */
  function SequentialGap(n: nat): int {
    1_022_000 + 900_000 * (n - 15)
  }

  lemma {:induction false} TotalLocks(n: nat)
    requires n >= 15
    ensures ServedLocks(n, 1) == SequentialGap(n)
  {
    if n == 15 {
      EarlyLocks();
    } else {
      TotalLocks(n - 1);
      Pow2Monotone(9, n - 1 - FREE_ATTEMPTS - 1);
      assert Pow2(9) == 512 by {
        assert Pow2(8) == 256 by {
          assert Pow2(4) == 16;
        }
      }
    }
  }

  /** With attempts for a key made one at a time, its n-th failure, n from 15 on, comes at
      least 1,022,000 + 900,000 (n - 15) ms after its first. */
  lemma ThrottleTimeBound(t: Tracker, events: seq<Event>, key: string, clock: int, n: nat)
    requires Consulted(t, events, key, 0, 1, clock) && key !in t.states
    requires 15 <= n <= |FailureTimes(events, key)|
    ensures FailureTimes(events, key)[n - 1] - FailureTimes(events, key)[0] >= 1_022_000 + 900_000 * (n - 15)
  {
    FailuresWait(t, events, key, 1, clock, n);
    TotalLocks(n);
  }

  /** The bound is exact: a client that retries at each unlock fails for the n-th time at
      just that moment. */
  lemma TimeBoundIsTight(key: string, n: nat)
    requires n >= 15
    ensures Takes(BatchRun(key, 0, n, 1, 0), key, 1, n, SequentialGap(n))
  {
    BatchRunTakes(key, 1, n);
    TotalLocks(n);
  }

  lemma {:induction false} MoreInFlightServeLess(n: nat, inFlight: nat)
    requires inFlight >= 1
    ensures n > inFlight ==> ServedLocks(n, inFlight) <= ServedLocks(n - inFlight + 1, 1)
    ensures n <= inFlight ==> ServedLocks(n, inFlight) == 0
  {
    hide LockMs;
    if n > inFlight {
      MoreInFlightServeLess(n - inFlight, inFlight);
      if n - inFlight > inFlight {
        ServedLocksGrow(n - 2 * inFlight + 1, n - inFlight);
      }
    }
  }

  lemma {:induction false} ServedLocksGrow(m: nat, n: nat)
    requires m <= n
    ensures ServedLocks(m, 1) <= ServedLocks(n, 1)
    decreases n
  {
    hide LockMs;
    if m < n {
      ServedLocksGrow(m, n - 1);
    }
  }

  /** The bound of one attempt at a time holds exactly as long as no two overlap. */
  lemma BoundNeedsOneAtATime(inFlight: nat)
    ensures (forall n: nat :: n >= 15 ==> BoundHolds(inFlight, n, SequentialGap(n))) <==> inFlight <= 1
  {
    hide BoundHolds, ServedLocks;
    if inFlight == 0 {
      forall n: nat | n >= 15 ensures BoundHolds(0, n, SequentialGap(n)) {
        NoneInFlight(n, SequentialGap(n));
      }
    } else if inFlight == 1 {
      forall n: nat | n >= 15 ensures BoundHolds(1, n, SequentialGap(n)) {
        TotalLocks(n);
        TimeBoundIff(1, n, SequentialGap(n));
      }
    } else {
      EarlyLocks();
      MoreInFlightServeLess(15, inFlight);
      if inFlight < 15 {
        ServedLocksGrow(15 - inFlight + 1, 14);
      }
      TimeBoundIff(inFlight, 15, 1_022_000);
      assert SequentialGap(15) == 1_022_000;
    }
  }

  lemma NoneInFlight(n: nat, gap: int)
    ensures n >= 1 ==> BoundHolds(0, n, gap)
  {
    hide Consulted, FailureTimes;
    forall t, events, key, clock | Consulted(t, events, key, 0, 0, clock)
      ensures FailureTimes(events, key) == []
    {
      NoFlightNoFailure(t, events, key, clock);
    }
  }

  lemma {:induction false} NoFlightNoFailure(t: Tracker, events: seq<Event>, key: string, clock: int)
    requires Consulted(t, events, key, 0, 0, clock)
    ensures FailureTimes(events, key) == []
    decreases events
  {
    hide Step, Allowed;
    if events != [] && events[0].key != key {
      NoFlightNoFailure(Step(t, events[0]), events[1..], key, clock);
    }
  }

  /** With all attempts in flight at once they can all fail at one instant. */
  lemma OverlappingAttemptsEscape(key: string, n: nat)
    requires n >= 1
    ensures Takes(BatchRun(key, 0, n, n, 0), key, n, n, 0)
  {
    BatchRunTakes(key, n, n);
  }

  // ---------------------------------------------------------------- the class

  datatype LoginResponse = SignedIn(username: string) | StatusError(status: int)

  class LoginThrottle {
    var order: seq<string>
    var attempts: map<string, AttemptState>
    /** What this throttle has been told, oldest first. */
    ghost var log: seq<Event>

    ghost function Value(): Tracker
      reads this
    {
      Tracker(order, attempts)
    }

    /** Bounded, and exactly what its log amounts to. */
    ghost predicate Valid()
      reads this
    {
      ValidTracker(Value()) && Value() == Run(EMPTY, log)
    }

    constructor ()
      ensures Valid() && log == []
    {
      order, attempts, log := [], map[], [];
    }

    method AssertAllowed(key: string, now: int) returns (allowed: bool)
      requires Valid()
      modifies this`log
      ensures Valid()
      ensures allowed <==> Allowed(Value(), key, now)
      ensures log == old(log) + if allowed then [Checked(key, now)] else []
    {
      allowed := !(key in attempts && attempts[key].lockedUntil > now);
      if allowed {
        RunAppend(EMPTY, log, Checked(key, now));
        log := log + [Checked(key, now)];
      }
    }

    method RecordFailure(key: string, now: int)
      requires Valid()
      modifies this
      ensures Valid()
      ensures Value() == Fail(old(Value()), key, now) && log == old(log) + [Failed(key, now)]
    {
      hide LockMs, ValidTracker, Run, Fail;
      FailStep(log, key, now);
      FailIsValid(Value(), key, now);
      var tracked := key in attempts;
      var failures := (if tracked then attempts[key].failures else 0) + 1;
      var lockMs := LockMs(failures);
      if tracked {
        FailTracked(Value(), key, now);
      } else {
        FailUntracked(Value(), key, now);
        if |order| >= MAX_TRACKED {
          var oldest := order[0];
          order, attempts := order[1..], attempts - {oldest};
        }
        order := order + [key];
      }
      attempts := attempts[key := AttemptState(failures, now + lockMs)];
      log := log + [Failed(key, now)];
    }

    method RecordSuccess(key: string)
      requires Valid()
      modifies this
      ensures Valid()
      ensures Value() == Without(old(Value()), key) && log == old(log) + [Succeeded(key)]
    {
      RunAppend(EMPTY, log, Succeeded(key));
      WithoutIsValid(Value(), key);
      order := Filter(order, (k: string) => k != key);
      attempts := attempts - {key};
      log := log + [Succeeded(key)];
    }

    method Reset()
      modifies this
      ensures Valid() && log == []
    {
      order, attempts, log := [], map[], [];
    }

    /** `runLogin`: find the login helper, reject an incomplete request, consult the throttle,
        try the login, then record its outcome. `keyFor` is the throttle's trimming and case
        folding; `succeeds` and `finished` stand for the awaited login. */
    method RunLogin(
      keyFor: string -> string, hasLogin: bool, username: string, password: string,
      now: int, succeeds: bool, finished: int)
      returns (response: LoginResponse)
      requires Valid()
      modifies this
      ensures Valid()
      ensures response ==
        if !hasLogin then StatusError(500)
        else if username == "" || password == "" then StatusError(400)
        else if !Allowed(old(Value()), keyFor(username), now) then StatusError(429)
        else if succeeds then SignedIn(username) else StatusError(401)
      ensures log == old(log) + match response
        case SignedIn(_) => [Checked(keyFor(username), now), Succeeded(keyFor(username))]
        case StatusError(status) =>
          if status == 401 then [Checked(keyFor(username), now), Failed(keyFor(username), finished)] else []
    {
      if !hasLogin {
        return StatusError(500);
      }
      if username == "" || password == "" {
        return StatusError(400);
      }
      var key := keyFor(username);
      var allowed := AssertAllowed(key, now);
      if !allowed {
        return StatusError(429);
      }
      if !succeeds {
        RecordFailure(key, finished);
        return StatusError(401);
      }
      RecordSuccess(key);
      response := SignedIn(username);
    }
  }

  lemma FailStep(log: seq<Event>, key: string, now: int)
    ensures Run(EMPTY, log + [Failed(key, now)]) == Fail(Run(EMPTY, log), key, now)
  {
    hide Fail;
    RunAppend(EMPTY, log, Failed(key, now));
  }

  /** A failure of a tracked key, and of one that is not. */
  lemma FailTracked(t: Tracker, key: string, now: int)
    requires key in t.states
    ensures var failures := t.states[key].failures + 1;
      Fail(t, key, now) == Tracker(t.order, t.states[key := AttemptState(failures, now + LockMs(failures))])
  {
    hide LockMs;
  }

  lemma FailUntracked(t: Tracker, key: string, now: int)
    requires key !in t.states
    ensures var state := AttemptState(1, now + LockMs(1));
      Fail(t, key, now) ==
        if |t.order| >= MAX_TRACKED
        then Tracker(t.order[1..] + [key], (t.states - {t.order[0]})[key := state])
        else Tracker(t.order + [key], t.states[key := state])
  {
    hide LockMs;
  }

  lemma {:induction false} RunAppend(t: Tracker, events: seq<Event>, event: Event)
    ensures Run(t, events + [event]) == Step(Run(t, events), event)
    decreases events
  {
    hide Step;
    if events == [] {
      assert ([] + [event])[1..] == [];
      assert Run(Step(t, event), []) == Step(t, event);
    } else {
      assert (events + [event])[1..] == events[1..] + [event];
      RunAppend(Step(t, events[0]), events[1..], event);
    }
  }
}
