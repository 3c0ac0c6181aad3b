/** The request pacer: a sliding window with a capacity that adapts to the provider. */
module Pacer {
  import opened Common

  const WINDOW_SECONDS := 60.0
  const WINDOW_OVERHANG_SECONDS := 1.0
  const MAX_WAIT_SECONDS := 90.0
  const MAX_TOTAL_WAIT_SECONDS := 150.0

  function Max(a: int, b: int): int { if a < b then b else a }

  /** `int(x)`: toward zero. */
  function Truncate(x: real): int {
    if x >= 0.0 then x.Floor else -((-x).Floor)
  }

  function CapacityFor(limit: int, margin: real): (c: int)
    ensures c >= 1
  {
    Max(1, Truncate(limit as real * margin))
  }

  datatype Window = Window(sent: seq<real>, limit: int, capacity: int)

  /* ---- The three critical sections, as functions of the window and the clock ---- */

  function Pruned(sent: seq<real>, now: real): seq<real> {
    if sent != [] && sent[0] <= now - WINDOW_SECONDS then Pruned(sent[1..], now) else sent
  }

  /** Seconds until the oldest request has left the window, with a small overhang. */
  function WaitFor(oldest: real, now: real): real {
    oldest + WINDOW_SECONDS + WINDOW_OVERHANG_SECONDS - now
  }

  predicate Grants(w: Window, now: real) {
    |Pruned(w.sent, now)| < w.capacity
  }

  function AfterTry(w: Window, now: real): Window {
    var kept := Pruned(w.sent, now);
    w.(sent := if |kept| < w.capacity then kept + [now] else kept)
  }

  function Repeated(x: real, n: nat): (r: seq<real>)
    ensures |r| == n && forall i :: 0 <= i < n ==> r[i] == x
  {
    seq(n, _ => x)
  }

  function AfterNote(w: Window, quota: Option<int>, margin: real, now: real): Window {
    var adopt := quota.Some? && quota.value != 0 && quota.value != w.limit;
    var limit := if adopt then Max(1, quota.value) else w.limit;
    var capacity := if adopt then CapacityFor(limit, margin) else w.capacity;
    Window(Repeated(now, Max(1, capacity)), limit, capacity)
  }

  predicate Sorted(s: seq<real>) {
    forall i, j :: 0 <= i < j < |s| ==> s[i] <= s[j]
  }

  /** No stamp is in the future and the window never holds more than its capacity. */
  predicate Sound(w: Window, clock: real) {
    && w.capacity >= 1 && |w.sent| <= w.capacity
    && Sorted(w.sent)
    && forall i :: 0 <= i < |w.sent| ==> w.sent[i] <= clock
  }

  /** The first `n` stamps are those that have left the window. */
  ghost predicate IsCut(sent: seq<real>, now: real, n: nat) {
    && n <= |sent| && Pruned(sent, now) == sent[n..]
    && (forall i :: 0 <= i < n ==> sent[i] <= now - WINDOW_SECONDS)
    && forall i :: n <= i < |sent| ==> sent[i] > now - WINDOW_SECONDS
  }

  /** Pruning drops exactly the stamps that have left the window. */
  lemma {:induction false} Cut(sent: seq<real>, now: real) returns (n: nat)
    requires Sorted(sent)
    ensures IsCut(sent, now, n)
  {
    if sent != [] && sent[0] <= now - WINDOW_SECONDS {
      var rest := sent[1..];
      var m := Cut(rest, now);
      n := m + 1;
      assert rest[m..] == sent[n..];
      assert forall i :: 1 <= i < |sent| ==> sent[i] == rest[i - 1];
    } else {
      n := 0;
      assert sent[0..] == sent;
    }
  }

  lemma StepsAreSound(w: Window, clock: real, now: real, quota: Option<int>, margin: real)
    requires Sound(w, clock) && clock <= now
    ensures Sound(AfterTry(w, now), now)
    ensures Sound(AfterNote(w, quota, margin, now), now)
    ensures !Grants(w, now) ==> AfterTry(w, now).sent != [] && 1.0 < WaitFor(AfterTry(w, now).sent[0], now) <= 61.0
  {
    var n := Cut(w.sent, now);
  }

  /* ---- The class ---- */

  datatype Acquired = Slot | TimedOut

  /** What one caller finds under the lock in one round of `acquire`, and when. */
  datatype Round = Round(w: Window, now: real) {
    predicate Granted() {
      Grants(w, now)
    }

    /** How long a refused round tells the caller to sleep. */
    function Wait(): real {
      if AfterTry(w, now).sent == [] then 0.0 else WaitFor(AfterTry(w, now).sent[0], now)
    }
  }

  /** Rounds that were all refused, each early enough for its wait to fit, and all later
      ones at least that wait after it. */
  ghost predicate Refused(started: real, rounds: seq<Round>) {
    && (forall i :: 0 <= i < |rounds| ==> RefusedRound(started, rounds[i]))
    && forall i, j :: 0 <= i < j < |rounds| ==> rounds[i].now + rounds[i].Wait() <= rounds[j].now
  }

  ghost predicate RefusedRound(started: real, round: Round) {
    && started <= round.now && !round.Granted() && 1.0 < round.Wait() <= 61.0
    && round.now - started + round.Wait() <= MAX_TOTAL_WAIT_SECONDS
  }

  /** One whole call: refused rounds, then a last one that grants the slot, or whose
      wait would take the caller past its total. */
  ghost predicate IsAcquire(started: real, refused: seq<Round>, last: Round, r: Acquired) {
    && Refused(started, refused) && started <= last.now
    && (forall i :: 0 <= i < |refused| ==> refused[i].now + refused[i].Wait() <= last.now)
    && (r.Slot? <==> last.Granted())
    && (r.TimedOut? ==> last.now - started + last.Wait() > MAX_TOTAL_WAIT_SECONDS)
  }

  /** The clock has passed the wait of the latest refused round, if any. */
  ghost predicate Slept(rounds: seq<Round>, clock: real) {
    rounds != [] ==> rounds[|rounds| - 1].now + rounds[|rounds| - 1].Wait() <= clock
  }

  lemma SleptAll(started: real, rounds: seq<Round>, clock: real)
    requires Refused(started, rounds) && Slept(rounds, clock)
    ensures forall i :: 0 <= i < |rounds| ==> rounds[i].now + rounds[i].Wait() <= clock
  {
    hide Round.Granted, Round.Wait;
    assert rounds != [] ==> RefusedRound(started, rounds[|rounds| - 1]);
  }

  lemma AnotherRound(started: real, rounds: seq<Round>, round: Round)
    requires Refused(started, rounds) && Slept(rounds, round.now) && RefusedRound(started, round)
    ensures Refused(started, rounds + [round])
    ensures Waited(rounds + [round]) == Waited(rounds) + round.Wait()
  {
    SleptAll(started, rounds, round.now);
    hide RefusedRound, Round.Granted, Round.Wait;
    var all := rounds + [round];
    assert all[..|rounds|] == rounds && all[|rounds|] == round;
    assert forall i :: 0 <= i < |rounds| ==> all[i] == rounds[i];
  }

  function Waited(rounds: seq<Round>): real {
    if rounds == [] then 0.0 else Waited(rounds[..|rounds| - 1]) + rounds[|rounds| - 1].Wait()
  }

  class RequestRateLimiter {
    var sent: seq<real>
    var limit: int
    var capacity: int
    const margin: real
    var clock: real        // the latest reading of the monotonic clock

    ghost function View(): Window reads this { Window(sent, limit, capacity) }

    ghost predicate Valid() reads this { Sound(View(), clock) }

    constructor (requestsPerMinute: int, margin: real, now: real)
      ensures Valid() && clock == now && this.margin == margin
      ensures View() == Window([], Max(1, requestsPerMinute), CapacityFor(Max(1, requestsPerMinute), margin))
    {
      limit := Max(1, requestsPerMinute);
      this.margin := margin;
      capacity := CapacityFor(Max(1, requestsPerMinute), margin);
      sent := [];
      clock := now;
    }

    method Prune(now: real)
      requires Valid()
      modifies this`sent
      ensures sent == Pruned(old(sent), now)
      ensures Valid()
    {
      while sent != [] && sent[0] <= now - WINDOW_SECONDS
        invariant Valid() && Pruned(sent, now) == Pruned(old(sent), now)
        decreases |sent|
      {
        sent := sent[1..];
      }
    }

    /** The part of one round of `acquire` that runs under the lock. */
    method TryAcquire(now: real) returns (wait: Option<real>)
      requires Valid() && clock <= now
      modifies this
      ensures Valid() && clock == now && View() == AfterTry(old(View()), now)
      ensures wait.None? <==> Grants(old(View()), now)
      ensures wait.Some? ==> sent != [] && wait.value == WaitFor(sent[0], now) && 1.0 < wait.value <= 61.0
    {
      ghost var before := View();
      StepsAreSound(before, clock, now, None, margin);
      Prune(now);
      clock := now;
      if |sent| < capacity {
        sent := sent + [now];
        return None;
      }
      wait := Some(sent[0] + WINDOW_SECONDS + WINDOW_OVERHANG_SECONDS - now);
    }

    method NoteRateLimited(reportedQuota: Option<int>, now: real)
      requires Valid() && clock <= now
      modifies this
      ensures Valid() && clock == now && View() == AfterNote(old(View()), reportedQuota, margin, now)
    {
      if reportedQuota.Some? && reportedQuota.value != 0 && reportedQuota.value != limit {
        limit := Max(1, reportedQuota.value);
        capacity := CapacityFor(limit, margin);
      }
      sent := Repeated(now, Max(1, capacity));
      clock := now;
    }

    /** Sleeping, or waiting for the lock, lets any number of other threads run their
        own rounds and reports. A caller knows nothing of them but this contract. */
    method Meanwhile(seconds: real)
      requires Valid() && seconds >= 0.0
      modifies this
      ensures Valid() && clock >= old(clock) + seconds
    {
      clock := clock + seconds;
    }

    /** Blocks until a slot is free and takes it, or gives up. Whatever the other
        threads do, its rounds are as `IsAcquire` describes them, and the state
        afterwards is that of the last round: with a slot taken just now, or without.
        Every wait is more than 1 and at most 61 seconds, so the 90-second clamp never
        binds; the waits add up to at most 150 seconds, and there are fewer than 150. */
    method Acquire() returns (r: Acquired, ghost refused: seq<Round>, ghost last: Round)
      requires Valid()
      modifies this
      ensures Valid() && IsAcquire(old(clock), refused, last, r)
      ensures clock == last.now && View() == AfterTry(last.w, clock)
      ensures r.Slot? ==> sent != [] && sent[|sent| - 1] == clock
      ensures r.TimedOut? ==> sent != [] && clock - old(clock) + WaitFor(sent[0], clock) > MAX_TOTAL_WAIT_SECONDS
      ensures Waited(refused) <= MAX_TOTAL_WAIT_SECONDS && |refused| < 150
    {
      var started := clock;
      ghost var waits := 0.0;
      refused := [];
      while true
        invariant Valid() && Refused(started, refused) && Slept(refused, clock) && clock >= started
        invariant waits == Waited(refused) <= clock - started
        invariant |refused| as real <= waits <= MAX_TOTAL_WAIT_SECONDS
        invariant refused != [] ==> |refused| as real < waits
        decreases 150 - |refused|
      {
        Meanwhile(0.0);
        var now := clock;
        assert Slept(refused, now);
        last := Round(View(), now);
        var wait := TryAcquire(now);
        SleptAll(started, refused, now);
        assert last.Granted() <==> wait.None?;
        hide Refused, Grants, AfterTry, Waited;
        if wait.None? {
          return Slot, refused, last;
        }
        var seconds := if wait.value > MAX_WAIT_SECONDS then MAX_WAIT_SECONDS else wait.value;
        seconds := if seconds < 0.0 then 0.0 else seconds;
        assert seconds == last.Wait();
        var waitedSoFar := now - started;
        if waitedSoFar + seconds > MAX_TOTAL_WAIT_SECONDS {
          return TimedOut, refused, last;
        }
        AnotherRound(started, refused, last);
        refused := refused + [last];
        waits := waits + seconds;
        Meanwhile(seconds);
        assert Slept(refused, clock);
      }
    }
  }

  /** Nobody else changed the window between one round and the next. */
  predicate Undisturbed(round: Round, next: Round) {
    next.w == AfterTry(round.w, round.now)
  }

  /** So an uncontended caller sleeps at most once and is then granted: it gets its slot
      in its second round at the latest, as long as reaching the first one took at most
      89 seconds. */
  lemma UncontendedSleepsOnce(started: real, refused: seq<Round>, last: Round, r: Acquired)
    requires IsAcquire(started, refused, last, r)
    requires forall i, j :: 0 <= i < |refused| && 0 <= j < |refused| && j == i + 1 ==>
               Undisturbed(refused[i], refused[j])
    requires refused != [] ==> Undisturbed(refused[|refused| - 1], last)
    requires var first := (refused + [last])[0]; Sound(first.w, first.now) && first.now - started <= 89.0
    ensures r.Slot? && |refused| <= 1
  {
    var first := (refused + [last])[0];
    StepsAreSound(first.w, first.now, first.now, None, 0.0);
    if refused != [] {
      var second := if |refused| > 1 then refused[1] else last;
      assert RefusedRound(started, first) && Undisturbed(first, second);
      assert |refused| > 1 ==> RefusedRound(started, second);
      WaitingFreesASlot(first.w, first.now, second.now);
    }
  }

  lemma WaitingFreesASlot(w: Window, now: real, later: real)
    requires Sound(w, now) && !Grants(w, now) && AfterTry(w, now).sent != []
    requires later >= now + WaitFor(AfterTry(w, now).sent[0], now)
    ensures Grants(AfterTry(w, now), later)
  {
    StepsAreSound(w, now, now, None, 0.0);
    var n := Cut(AfterTry(w, now).sent, later);
  }

  /* ---- Every interleaving of rounds and reports ---- */

  /** What some thread does under the lock, and when. */
  datatype Event = Try(now: real) | Note(now: real, quota: Option<int>)

  /** The window with its history: when slots were granted and when a 429 was last reported. */
  datatype Sys = Sys(w: Window, clock: real, grants: seq<real>, noted: Option<real>)

  function Step(s: Sys, e: Event, margin: real): Sys {
    match e
    case Try(now) =>
      Sys(AfterTry(s.w, now), now, if Grants(s.w, now) then s.grants + [now] else s.grants, s.noted)
    case Note(now, quota) =>
      Sys(AfterNote(s.w, quota, margin, now), now, s.grants, Some(now))
  }

  function Run(s: Sys, events: seq<Event>, margin: real): Sys {
    if events == [] then s else Step(Run(s, events[..|events| - 1], margin), events[|events| - 1], margin)
  }

  function Start(requestsPerMinute: int, margin: real, now: real): Sys {
    var limit := Max(1, requestsPerMinute);
    Sys(Window([], limit, CapacityFor(limit, margin)), now, [], None)
  }

  /** The clock never goes back. */
  predicate Monotone(start: real, events: seq<Event>) {
    && (events != [] ==> start <= events[0].now)
    && forall i, j :: 0 <= i < j < |events| ==> events[i].now <= events[j].now
  }

  /** Either the window still holds nothing but the stamps of the last report, or it
      holds exactly the latest grants, everything earlier being out of the window. */
  ghost predicate Inv(s: Sys) {
    && Sound(s.w, s.clock)
    && (forall i :: 0 <= i < |s.grants| ==> s.grants[i] <= s.clock)
    && (s.noted.Some? ==> s.noted.value <= s.clock)
    && (Filled(s) || exists n :: Tracks(s, n))
  }

  ghost predicate Filled(s: Sys) {
    && s.noted.Some? && |s.w.sent| == s.w.capacity
    && (forall i :: 0 <= i < |s.w.sent| ==> s.w.sent[i] == s.noted.value)
    && forall i :: 0 <= i < |s.grants| ==> s.grants[i] <= s.noted.value
  }

  ghost predicate Tracks(s: Sys, n: int) {
    && 0 <= n <= |s.grants| && s.w.sent == s.grants[n..]
    && (forall i :: 0 <= i < n ==> s.grants[i] + WINDOW_SECONDS <= s.clock)
    && (s.noted.Some? ==> s.noted.value + WINDOW_SECONDS <= s.clock)
  }

  lemma StepKeepsInv(s: Sys, e: Event, margin: real)
    requires Inv(s) && s.clock <= e.now
    ensures Inv(Step(s, e, margin))
  {
    var t := Step(s, e, margin);
    StepsAreSound(s.w, s.clock, e.now, if e.Note? then e.quota else None, margin);
    if e.Try? {
      TryKeepsInv(s, e.now, margin);
    } else {
      assert Filled(t);
    }
  }

  /** A granted round leaves the window tracking the grants. */
  lemma TryKeepsInv(s: Sys, now: real, margin: real)
    requires Inv(s) && s.clock <= now
    ensures var t := Step(s, Try(now), margin);
            if Grants(s.w, now) then exists n :: Tracks(t, n) else Filled(t) || exists n :: Tracks(t, n)
  {
    var k := Cut(s.w.sent, now);
    if Filled(s) {
      TryWhenFilled(s, now, margin, k);
    } else {
      var n :| Tracks(s, n);
      TryWhenTracking(s, now, margin, n, k);
    }
  }

  /** While the stamps of a report fill the window nothing is granted; once they
      leave, they leave together. */
  lemma TryWhenFilled(s: Sys, now: real, margin: real, k: nat)
    requires Sound(s.w, s.clock) && Filled(s) && s.clock <= now && IsCut(s.w.sent, now, k)
    ensures var t := Step(s, Try(now), margin);
            if Grants(s.w, now) then Tracks(t, |s.grants|) else Filled(t)
  {
    var t := Step(s, Try(now), margin);
    if k == 0 {
      assert s.w.sent[0..] == s.w.sent;
    } else {
      assert s.w.sent[0] == s.noted.value <= now - WINDOW_SECONDS;
      assert s.w.sent[|s.w.sent| - 1] == s.noted.value;
      assert k == |s.w.sent| && s.w.sent[k..] == [];
      assert t.w.sent == [now] && t.grants[|s.grants|..] == [now];
      forall i | 0 <= i < |s.grants|
        ensures t.grants[i] + WINDOW_SECONDS <= t.clock { assert t.grants[i] == s.grants[i]; }
    }
  }

  lemma TryWhenTracking(s: Sys, now: real, margin: real, n: nat, k: nat)
    requires Sound(s.w, s.clock) && Tracks(s, n) && s.clock <= now && IsCut(s.w.sent, now, k)
    ensures Tracks(Step(s, Try(now), margin), n + k)
  {
    var t := Step(s, Try(now), margin);
    assert s.w.sent[k..] == s.grants[n + k..];
    forall i | 0 <= i < n + k ensures t.grants[i] + WINDOW_SECONDS <= now {
      if i >= n { assert s.grants[i] == s.w.sent[i - n]; }
    }
    if Grants(s.w, now) {
      assert t.grants[n + k..] == s.grants[n + k..] + [now];
    }
  }

  lemma {:induction false} RunKeepsInv(requestsPerMinute: int, margin: real, start: real, events: seq<Event>)
    requires Monotone(start, events)
    ensures Inv(Run(Start(requestsPerMinute, margin, start), events, margin))
    ensures Run(Start(requestsPerMinute, margin, start), events, margin).clock
         == if events == [] then start else events[|events| - 1].now
  {
    var s := Start(requestsPerMinute, margin, start);
    if events == [] {
      assert s.grants[0..] == [];
      assert Tracks(s, 0);
    } else {
      RunKeepsInv(requestsPerMinute, margin, start, events[..|events| - 1]);
      StepKeepsInv(Run(s, events[..|events| - 1], margin), events[|events| - 1], margin);
    }
  }

  /** How many stamps are later than `cutoff`. */
  function CountAfter(stamps: seq<real>, cutoff: real): nat {
    if stamps == [] then 0
    else CountAfter(stamps[..|stamps| - 1], cutoff) + if stamps[|stamps| - 1] > cutoff then 1 else 0
  }

  lemma {:induction false} CountAtMost(stamps: seq<real>, cutoff: real, n: nat)
    requires n <= |stamps| && forall i :: 0 <= i < n ==> stamps[i] <= cutoff
    ensures CountAfter(stamps, cutoff) <= |stamps| - n
  {
    if |stamps| > n {
      CountAtMost(stamps[..|stamps| - 1], cutoff, n);
    } else if stamps != [] {
      CountAtMost(stamps[..|stamps| - 1], cutoff, n - 1);
    }
  }

  lemma GrantIsSafe(before: Sys, now: real, margin: real)
    requires Inv(before) && before.clock <= now && Grants(before.w, now)
    ensures var after := Step(before, Try(now), margin);
            && CountAfter(after.grants, now - WINDOW_SECONDS) <= after.w.capacity
            && (before.noted.Some? ==> before.noted.value + WINDOW_SECONDS <= now)
  {
    hide AfterNote, AfterTry, Grants, Filled, Tracks, CountAfter;
    var after := Step(before, Try(now), margin);
    StepKeepsInv(before, Try(now), margin);
    TryKeepsInv(before, now, margin);
    assert after.clock == now && after.noted == before.noted && |after.w.sent| <= after.w.capacity;
    hide *;
    var n :| Tracks(after, n);
    TrackedCount(after, n);
  }

  lemma TrackedCount(s: Sys, n: int)
    requires Tracks(s, n) && |s.w.sent| <= s.w.capacity
    ensures CountAfter(s.grants, s.clock - WINDOW_SECONDS) <= s.w.capacity
    ensures s.noted.Some? ==> s.noted.value + WINDOW_SECONDS <= s.clock
  {
    CountAtMost(s.grants, s.clock - WINDOW_SECONDS, n);
  }

  /** One round that any thread runs from a reachable state. */
  ghost predicate SafeRound(before: Sys, now: real, margin: real) {
    var after := Step(before, Try(now), margin);
    && (forall i :: 0 <= i < |after.w.sent| ==> after.w.sent[i] <= now)
    && (Grants(before.w, now) ==>
          && after.grants == before.grants + [now]
          && CountAfter(after.grants, now - WINDOW_SECONDS) <= after.w.capacity
          && (before.noted.Some? ==> before.noted.value + WINDOW_SECONDS <= now))
    && (!Grants(before.w, now) ==> after.grants == before.grants)
  }

  lemma RoundIsSafe(before: Sys, now: real, margin: real)
    requires Inv(before) && before.clock <= now
    ensures SafeRound(before, now, margin)
  {
    hide AfterNote, AfterTry, Grants, CountAfter;
    StepKeepsInv(before, Try(now), margin);
    if Grants(before.w, now) { GrantIsSafe(before, now, margin); }
  }

  lemma MonotoneEnd(start: real, events: seq<Event>, last: Event)
    requires Monotone(start, events + [last])
    ensures Monotone(start, events) && (if events == [] then start else events[|events| - 1].now) <= last.now
  {
    var all := events + [last];
    assert all[|events|] == last && forall i :: 0 <= i < |events| ==> all[i] == events[i];
  }

  /** At every grant, in every interleaving of rounds and 429 reports by any number of
      threads: the grants of the last 60 seconds, this one included, are at most the
      capacity in force; no stamp is in the future; and any report lies at least 60
      seconds back. */
  lemma WindowSafety(requestsPerMinute: int, margin: real, start: real, events: seq<Event>, now: real)
    requires Monotone(start, events + [Try(now)])
    ensures SafeRound(Run(Start(requestsPerMinute, margin, start), events, margin), now, margin)
  {
    hide *;
    MonotoneEnd(start, events, Try(now));
    RunKeepsInv(requestsPerMinute, margin, start, events);
    RoundIsSafe(Run(Start(requestsPerMinute, margin, start), events, margin), now, margin);
  }

  /* ---- The capacity is the provider's ---- */

  /** The last quota reported that says anything, if any. */
  function LastQuota(events: seq<Event>): Option<int> {
    if events == [] then None
    else
      var e := events[|events| - 1];
      if e.Note? && e.quota.Some? && e.quota.value != 0 then e.quota else LastQuota(events[..|events| - 1])
  }

  /** What a limit and a margin allow in a minute. */
  function Allowance(limit: int, margin: real): int {
    if limit as real * margin < 1.0 then 1 else (limit as real * margin).Floor
  }

  lemma CapacityIsAllowance(limit: int, margin: real)
    ensures CapacityFor(limit, margin) == Allowance(limit, margin)
  {
    var x := limit as real * margin;
    assert Allowance(limit, margin) == if x < 1.0 then 1 else x.Floor;
    FloorFacts(x);
  }

  lemma FloorFacts(x: real)
    ensures x >= 1.0 ==> x.Floor >= 1
    ensures 0.0 <= x < 1.0 ==> x.Floor == 0
    ensures x < 0.0 ==> (-x).Floor >= 0
  {
  }

  lemma AllowanceWithinLimit(limit: int, margin: real)
    requires limit >= 1 && 0.0 <= margin <= 1.0
    ensures 1 <= Allowance(limit, margin) <= limit
  {
    var x := limit as real * margin;
    assert x <= limit as real;
  }

  /** Over every run the limit is the last quota that was reported, raised to at least
      one, or else the configured one; and the capacity is what it allows. */
  lemma {:induction false} CapacityFollowsQuota(requestsPerMinute: int, margin: real, start: real, events: seq<Event>)
    ensures var w := Run(Start(requestsPerMinute, margin, start), events, margin).w;
            && w.limit == Max(1, LastQuota(events).GetOr(requestsPerMinute))
            && w.capacity == Allowance(w.limit, margin)
  {
    var s := Start(requestsPerMinute, margin, start);
    if events == [] {
      CapacityIsAllowance(s.w.limit, margin);
    } else {
      var init, e := events[..|events| - 1], events[|events| - 1];
      CapacityFollowsQuota(requestsPerMinute, margin, start, init);
      var before := Run(s, init, margin);
      hide Run, Start;
      assert Run(s, events, margin) == Step(before, e, margin);
      CapacityIsAllowance(Step(before, e, margin).w.limit, margin);
      hide CapacityFor, Allowance;
    }
  }

  /** So at every grant, the grants of the last 60 seconds are at most what the last
      reported quota allows, and with a margin of at most one never more than it. */
  lemma GrantsWithinQuota(requestsPerMinute: int, margin: real, start: real, events: seq<Event>, now: real)
    requires Monotone(start, events + [Try(now)])
    requires Grants(Run(Start(requestsPerMinute, margin, start), events, margin).w, now)
    ensures var before := Run(Start(requestsPerMinute, margin, start), events, margin);
            var limit := Max(1, LastQuota(events).GetOr(requestsPerMinute));
            var count := CountAfter(before.grants + [now], now - WINDOW_SECONDS);
            count <= Allowance(limit, margin) && (0.0 <= margin <= 1.0 ==> count <= limit)
  {
    var before := Run(Start(requestsPerMinute, margin, start), events, margin);
    var limit := Max(1, LastQuota(events).GetOr(requestsPerMinute));
    WindowSafety(requestsPerMinute, margin, start, events, now);
    CapacityFollowsQuota(requestsPerMinute, margin, start, events);
    SameCapacity(before, now, margin);
    hide Run, Start, Grants, AfterTry, CountAfter, LastQuota, Allowance, Step;
    if 0.0 <= margin <= 1.0 { AllowanceWithinLimit(limit, margin); }
  }

  lemma SameCapacity(s: Sys, now: real, margin: real)
    ensures Step(s, Try(now), margin).w.capacity == s.w.capacity
  {
  }
}
