/** The job queue: any number of workers claiming jobs, a bounded number of requeues
    after a rate limit, and users acting on any job at any moment. */
module JobQueue {
  import opened Common

  type JobId = nat
  type WorkerId = nat

  const MAX_RATE_LIMIT_ATTEMPTS := 3
  const RATE_LIMIT_REQUEUE_DELAY_SECONDS := 30.0

  datatype Status = Pending | Extracting | AwaitingReview | Confirmed | Rejected | Failed

  datatype Kind = ExtractRun | BackfillRun | ReextractRun

  /** A row of `jobs`; the two keys of `progress` that steer the queue are columns here. */
  datatype Job = Job(status: Status, kind: Kind, created: nat, lockedBy: Option<WorkerId>,
                     attempts: nat, notBefore: Option<real>)

  /** What has happened to a job: claims, fresh starts given by a user, confirms, and
      the last requeue since the last fresh start. */
  datatype Tally = Tally(claims: nat, resets: nat, confirms: nat, requeued: Option<real>)

  /** The table, the job each busy worker is running, the history, and the time. */
  datatype Queue = Queue(jobs: map<JobId, Job>, held: map<WorkerId, JobId>, log: map<JobId, Tally>, now: real)

  /** How a run of the pipeline ends. */
  datatype Outcome = Done | RateLimited | Broke

  datatype Event =
    | Claim(worker: WorkerId, id: JobId, locked: set<JobId>)
    | Finish(worker: WorkerId, outcome: Outcome)
    | Crash(worker: WorkerId)
    | Enqueue(id: JobId, kind: Kind, created: nat)
    | Reextract(id: JobId)
    | Retry(id: JobId)
    | Reject(id: JobId)
    | Confirm(id: JobId)
    | Delete(id: JobId)
    | Tick(now: real)

  /* ---- One step ---- */

  predicate Claimable(j: Job, now: real) {
    j.status == Pending && (j.notBefore.None? || j.notBefore.value <= now)
  }

  /** The row the claim statement selects: an oldest claimable one among those no
      transaction in flight has locked. */
  predicate CanClaim(jobs: map<JobId, Job>, id: JobId, locked: set<JobId>, now: real) {
    && id in jobs && id !in locked && Claimable(jobs[id], now)
    && forall other :: other in jobs && other !in locked && Claimable(jobs[other], now) ==>
      jobs[id].created <= jobs[other].created
  }

  function Ended(j: Job, outcome: Outcome, now: real): Job {
    match outcome
    case Done => j.(status := AwaitingReview, attempts := 0, notBefore := None)
    case Broke => j.(status := Failed)
    case RateLimited =>
      if j.attempts + 1 >= MAX_RATE_LIMIT_ATTEMPTS then j.(status := Failed, attempts := j.attempts + 1)
      else j.(status := Pending, lockedBy := None, attempts := j.attempts + 1,
              notBefore := Some(now + RATE_LIMIT_REQUEUE_DELAY_SECONDS))
  }

  function Restarted(j: Job, kind: Kind): Job {
    j.(status := Pending, kind := kind, lockedBy := None, attempts := 0, notBefore := None)
  }

  function Reset(t: Tally): Tally {
    t.(resets := t.resets + 1, requeued := None)
  }

  function Put(q: Queue, id: JobId, j: Job, t: Tally): Queue {
    q.(jobs := q.jobs[id := j], log := q.log[id := t])
  }

  predicate HasStatus(q: Queue, id: JobId, status: Status) {
    id in q.jobs && q.jobs[id].status == status
  }

  function Past(q: Queue, id: JobId): Tally {
    if id in q.log then q.log[id] else Tally(0, 0, 0, None)
  }

  /** Can the event happen at all? A request that is refused, and a worker with
      nothing to do, change nothing. */
  predicate Enabled(q: Queue, e: Event) {
    match e
    case Claim(w, id, locked) => w !in q.held && CanClaim(q.jobs, id, locked, q.now)
    case Finish(w, _) => w in q.held
    case Crash(w) => w in q.held
    case Enqueue(id, _, _) => id !in q.log && id !in q.jobs
    case Reextract(id) => HasStatus(q, id, AwaitingReview)
    case Retry(id) => HasStatus(q, id, Failed)
    case Reject(id) => id in q.jobs
    case Confirm(id) => HasStatus(q, id, AwaitingReview)
    case Delete(id) => id in q.jobs
    case Tick(now) => now >= q.now
  }

  function Finished(q: Queue, w: WorkerId, outcome: Outcome): Queue
    requires w in q.held
  {
    var id := q.held[w];
    var free := q.(held := q.held - {w});
    if id !in q.jobs then free
    else
      var j := Ended(q.jobs[id], outcome, q.now);
      Put(free, id, j, if j.status == Pending then Past(q, id).(requeued := Some(q.now)) else Past(q, id))
  }

  function Step(q: Queue, e: Event): Queue {
    if !Enabled(q, e) then q else
    match e
    case Claim(w, id, _) =>
      Put(q, id, q.jobs[id].(status := Extracting, lockedBy := Some(w)), Past(q, id).(claims := Past(q, id).claims + 1))
        .(held := q.held[w := id])
    case Finish(w, outcome) => Finished(q, w, outcome)
    case Crash(w) => q.(held := q.held - {w})
    case Enqueue(id, kind, created) => Put(q, id, Job(Pending, kind, created, None, 0, None), Past(q, id))
    case Reextract(id) => Put(q, id, Restarted(q.jobs[id], ReextractRun), Reset(Past(q, id)))
    case Retry(id) => Put(q, id, Restarted(q.jobs[id], q.jobs[id].kind), Reset(Past(q, id)))
    case Reject(id) => Put(q, id, q.jobs[id].(status := Rejected), Past(q, id))
    case Confirm(id) =>
      Put(q, id, q.jobs[id].(status := Confirmed), Past(q, id).(confirms := Past(q, id).confirms + 1))
    case Delete(id) => q.(jobs := q.jobs - {id})
    case Tick(now) => q.(now := now)
  }

  function Run(q: Queue, events: seq<Event>): Queue {
    if events == [] then q else Step(Run(q, events[..|events| - 1]), events[|events| - 1])
  }

  const EMPTY := Queue(map[], map[], map[], 0.0)

  /* ---- What every step keeps ---- */

  /** The limits a job's history respects, by its state. */
  predicate WithinLimits(j: Job, t: Tally, held: bool) {
    && t.claims <= 3 * (1 + t.resets) && t.confirms <= 1
    && (j.status == Pending ==>
          && j.lockedBy.None? && t.claims <= 3 * t.resets + j.attempts
          && (t.requeued.Some? ==> j.notBefore == Some(t.requeued.value + RATE_LIMIT_REQUEUE_DELAY_SECONDS)))
    && (held ==> (j.status == Extracting || j.status == Rejected) && t.claims <= 3 * t.resets + j.attempts + 1)
    && (held || j.status == Pending ==> j.attempts < MAX_RATE_LIMIT_ATTEMPTS)
    && (held || (j.status != Confirmed && j.status != Rejected) ==> t.confirms == 0)
  }

  ghost predicate Held(q: Queue, id: JobId) {
    exists w :: w in q.held && q.held[w] == id
  }

  /** A job is held by at most one worker, the one its row names. */
  ghost predicate OneHolder(q: Queue) {
    && (forall w :: w in q.held && q.held[w] in q.jobs ==> q.jobs[q.held[w]].lockedBy == Some(w))
    && forall v, w :: v in q.held && w in q.held && v != w ==> q.held[v] != q.held[w]
  }

  ghost predicate Inv(q: Queue) {
    && OneHolder(q)
    && (forall w :: w in q.held ==> q.held[w] in q.log)
    && (forall id :: id in q.jobs ==> id in q.log && WithinLimits(q.jobs[id], q.log[id], Held(q, id)))
    && forall id :: id in q.log ==> q.log[id].claims <= 3 * (1 + q.log[id].resets) && q.log[id].confirms <= 1
  }

  /** Changing one row and its history keeps the invariant when the new row is within
      its limits and nobody's claim on it changes. */
  lemma PutKeepsInv(q: Queue, id: JobId, j: Job, t: Tally)
    requires Inv(q) && WithinLimits(j, t, Held(q, id))
    requires forall w :: w in q.held && q.held[w] == id ==> j.lockedBy == Some(w)
    ensures Inv(Put(q, id, j, t))
  {
    var r := Put(q, id, j, t);
    assert forall other :: Held(r, other) == Held(q, other);
  }

  lemma ReleaseKeepsInv(q: Queue, w: WorkerId)
    requires Inv(q) && w in q.held
    ensures Inv(q.(held := q.held - {w}))
    ensures !Held(q.(held := q.held - {w}), q.held[w])
  {
    var r := q.(held := q.held - {w});
    forall id | id in r.jobs ensures WithinLimits(r.jobs[id], r.log[id], Held(r, id)) {
      assert Held(r, id) ==> Held(q, id);
    }
  }

  lemma ClaimKeepsInv(q: Queue, w: WorkerId, id: JobId, locked: set<JobId>)
    requires Inv(q) && Enabled(q, Claim(w, id, locked))
    ensures Inv(Step(q, Claim(w, id, locked)))
  {
    var r := Step(q, Claim(w, id, locked));
    assert !Held(q, id);
    assert r.held[w] == id && Held(r, id);
    forall other | other in r.jobs ensures WithinLimits(r.jobs[other], r.log[other], Held(r, other)) {
      if other != id { assert Held(r, other) ==> Held(q, other); }
    }
  }

  lemma FinishKeepsInv(q: Queue, w: WorkerId, outcome: Outcome)
    requires Inv(q) && w in q.held
    ensures Inv(Finished(q, w, outcome))
  {
    var id, free := q.held[w], q.(held := q.held - {w});
    ReleaseKeepsInv(q, w);
    assert Held(q, id);
    if id in q.jobs {
      var j := Ended(q.jobs[id], outcome, q.now);
      PutKeepsInv(free, id, j, if j.status == Pending then q.log[id].(requeued := Some(q.now)) else q.log[id]);
    }
  }

  lemma StepKeepsInv(q: Queue, e: Event)
    requires Inv(q)
    ensures Inv(Step(q, e))
  {
    if Enabled(q, e) {
      match e
      case Claim(w, id, locked) => ClaimKeepsInv(q, w, id, locked);
      case Finish(w, outcome) => FinishKeepsInv(q, w, outcome);
      case Crash(w) => ReleaseKeepsInv(q, w);
      case Delete(id) =>
        assert forall other :: Held(Step(q, e), other) == Held(q, other);
      case Tick(now) =>
        assert forall other :: Held(Step(q, e), other) == Held(q, other);
      case Enqueue(id, kind, created) => PutKeepsInv(q, id, Step(q, e).jobs[id], Step(q, e).log[id]);
      case Reextract(id) => PutKeepsInv(q, id, Step(q, e).jobs[id], Step(q, e).log[id]);
      case Retry(id) => PutKeepsInv(q, id, Step(q, e).jobs[id], Step(q, e).log[id]);
      case Reject(id) => PutKeepsInv(q, id, Step(q, e).jobs[id], Step(q, e).log[id]);
      case Confirm(id) => PutKeepsInv(q, id, Step(q, e).jobs[id], Step(q, e).log[id]);
    }
  }

  lemma {:induction false} RunKeepsInv(q: Queue, events: seq<Event>)
    requires Inv(q)
    ensures Inv(Run(q, events))
  {
    if events != [] {
      RunKeepsInv(q, events[..|events| - 1]);
      StepKeepsInv(Run(q, events[..|events| - 1]), events[|events| - 1]);
    }
  }

  /** Over every interleaving of workers and users, from an empty table: a job has at
      most one holder and is not pending while held; it is confirmed at most once; and
      it is claimed at most three times per fresh start a user gave it. */
  lemma QueueSafety(events: seq<Event>)
    ensures var q := Run(EMPTY, events);
            && (forall v, w :: v in q.held && w in q.held && q.held[v] == q.held[w] ==> v == w)
            && (forall w :: w in q.held && q.held[w] in q.jobs ==> !HasStatus(q, q.held[w], Pending))
            && forall id :: id in q.log ==>
                 q.log[id].confirms <= 1 && q.log[id].claims <= MAX_RATE_LIMIT_ATTEMPTS * (1 + q.log[id].resets)
  {
    RunKeepsInv(EMPTY, events);
    var q := Run(EMPTY, events);
    forall w | w in q.held && q.held[w] in q.jobs ensures !HasStatus(q, q.held[w], Pending) {
      assert Held(q, q.held[w]);
    }
  }

  /** In every run, a job requeued after a rate limit is claimed again no sooner than
      30 seconds later, unless a user gave it a fresh start meanwhile. */
  lemma RequeuedJobsWait(events: seq<Event>, w: WorkerId, id: JobId, locked: set<JobId>)
    requires var q := Run(EMPTY, events); Enabled(q, Claim(w, id, locked)) && Past(q, id).requeued.Some?
    ensures var q := Run(EMPTY, events); q.now >= Past(q, id).requeued.value + RATE_LIMIT_REQUEUE_DELAY_SECONDS
  {
    RunKeepsInv(EMPTY, events);
  }

  /* ---- What a run leads to ---- */

  /** Could a free worker claim the job at `later`, every other row being locked? */
  ghost predicate ClaimedAlone(q: Queue, w: WorkerId, id: JobId, later: real) {
    Enabled(Step(q, Tick(later)), Claim(w, id, q.jobs.Keys - {id}))
  }

  /** The job waits for a worker, for any from that time on and for none before it; the
      users' three ways on are closed. */
  ghost predicate WaitsUntil(q: Queue, id: JobId, start: real) {
    && HasStatus(q, id, Pending) && !Held(q, id) && q.jobs[id].lockedBy.None?
    && !Enabled(q, Confirm(id)) && !Enabled(q, Reextract(id)) && !Enabled(q, Retry(id))
    && forall w, later :: w !in q.held && later >= q.now ==> (ClaimedAlone(q, w, id, later) <==> later >= start)
  }

  /** Nothing but the users' decision is missing: confirm, reextract or reject. */
  ghost predicate InReview(q: Queue, id: JobId) {
    && HasStatus(q, id, AwaitingReview) && !Held(q, id)
    && Enabled(q, Confirm(id)) && Enabled(q, Reextract(id)) && !Enabled(q, Retry(id))
    && forall w, later :: !ClaimedAlone(q, w, id, later)
  }

  /** Nothing but a retry brings the job on. */
  ghost predicate GivenUp(q: Queue, id: JobId) {
    && HasStatus(q, id, Failed) && !Held(q, id)
    && Enabled(q, Retry(id)) && !Enabled(q, Confirm(id)) && !Enabled(q, Reextract(id))
    && forall w, later :: !ClaimedAlone(q, w, id, later)
  }

  /** What one event does to the count of a job's rate limits in a row. */
  function StrikesAfter(q: Queue, e: Event, id: JobId, strikes: nat): nat {
    if !Enabled(q, e) then strikes
    else
      match e
      case Finish(w, outcome) =>
        if q.held[w] != id || outcome.Broke? then strikes else if outcome.Done? then 0 else strikes + 1
      case Enqueue(other, _, _) => if other == id then 0 else strikes
      case Reextract(other) => if other == id then 0 else strikes
      case Retry(other) => if other == id then 0 else strikes
      case _ => strikes
  }

  /** How often the job was rate limited, counting from the last run that got through
      and the last fresh start. */
  function Strikes(events: seq<Event>, id: JobId): nat {
    if events == [] then 0
    else
      var init := events[..|events| - 1];
      StrikesAfter(Run(EMPTY, init), events[|events| - 1], id, Strikes(init, id))
  }

  lemma StepCountsStrikes(q: Queue, e: Event, id: JobId, strikes: nat)
    requires id in Step(q, e).jobs && (id in q.jobs ==> q.jobs[id].attempts == strikes)
    ensures Step(q, e).jobs[id].attempts == StrikesAfter(q, e, id, strikes)
  {
    assert e.Claim? && Enabled(q, e) ==> e.id in q.jobs;
    hide CanClaim;
  }

  /** The column the worker keeps is this count. */
  lemma {:induction false} AttemptsAreStrikes(events: seq<Event>, id: JobId)
    requires id in Run(EMPTY, events).jobs
    ensures Run(EMPTY, events).jobs[id].attempts == Strikes(events, id)
  {
    if events != [] {
      var init, e := events[..|events| - 1], events[|events| - 1];
      var q := Run(EMPTY, init);
      if id in q.jobs { AttemptsAreStrikes(init, id); }
      hide Step, StrikesAfter, Enabled;
      StepCountsStrikes(q, e, id, Strikes(init, id));
    }
  }

  lemma Reviewable(q: Queue, id: JobId)
    requires HasStatus(q, id, AwaitingReview) && !Held(q, id)
    ensures InReview(q, id)
  {
  }

  lemma Retriable(q: Queue, id: JobId)
    requires HasStatus(q, id, Failed) && !Held(q, id)
    ensures GivenUp(q, id)
  {
  }

  lemma Waiting(q: Queue, id: JobId, start: real)
    requires HasStatus(q, id, Pending) && !Held(q, id) && q.jobs[id].lockedBy.None?
    requires if q.jobs[id].notBefore.Some? then start == q.jobs[id].notBefore.value else start == q.now
    ensures WaitsUntil(q, id, start)
  {
  }

  lemma EndReleases(q: Queue, w: WorkerId, outcome: Outcome)
    requires Inv(q) && w in q.held
    ensures !Held(Step(q, Finish(w, outcome)), q.held[w])
  {
    ReleaseKeepsInv(q, w);
    var free := q.(held := q.held - {w});
    assert Step(q, Finish(w, outcome)).held == free.held;
    assert forall v :: v in free.held ==> free.held[v] != q.held[w] by { assert !Held(free, q.held[w]); }
  }

  /** What the end of a run leads to, when the job had been rate limited so often before. */
  ghost predicate LeadsOn(q: Queue, w: WorkerId, outcome: Outcome, strikes: nat)
    requires w in q.held
  {
    var id, r := q.held[w], Step(q, Finish(w, outcome));
    if id !in q.jobs then r.jobs == q.jobs
    else
      && id in r.jobs && r.jobs[id].kind == q.jobs[id].kind && r.jobs[id].created == q.jobs[id].created
      && match outcome {
           case Done => InReview(r, id)
           case Broke => GivenUp(r, id)
           case RateLimited => if strikes >= 2 then GivenUp(r, id) else WaitsUntil(r, id, q.now + 30.0)
         }
  }

  lemma EndLeadsOn(q: Queue, w: WorkerId, outcome: Outcome)
    requires w in q.held && q.held[w] in q.jobs
    requires !Held(Step(q, Finish(w, outcome)), q.held[w])
    ensures LeadsOn(q, w, outcome, q.jobs[q.held[w]].attempts)
  {
    hide Held, InReview, GivenUp, WaitsUntil;
    var id, r := q.held[w], Step(q, Finish(w, outcome));
    match outcome
    case Done => Reviewable(r, id);
    case Broke => Retriable(r, id);
    case RateLimited =>
      if q.jobs[id].attempts >= 2 { Retriable(r, id); } else { Waiting(r, id, q.now + 30.0); }
  }

  /** In every reachable state, a run that gets through leaves its job for review; one
      that breaks, or is rate limited for the third time in a row, leaves it to a retry;
      an earlier rate limit puts it back for exactly 30 seconds. The job remains what it
      was, and one deleted meanwhile is not brought back. */
  lemma RunsLeadOn(events: seq<Event>, w: WorkerId, outcome: Outcome)
    requires w in Run(EMPTY, events).held
    ensures var q := Run(EMPTY, events); LeadsOn(q, w, outcome, Strikes(events, q.held[w]))
  {
    var q := Run(EMPTY, events);
    var id := q.held[w];
    RunKeepsInv(EMPTY, events);
    EndReleases(q, w, outcome);
    if id in q.jobs {
      AttemptsAreStrikes(events, id);
      hide *;
      EndLeadsOn(q, w, outcome);
    }
  }

  /** A fresh start, by a reextract or a retry, makes the job claimable at once, with
      the count of rate limits at zero; only a reextract changes what kind of run it is. */
  lemma FreshStarts(events: seq<Event>, id: JobId, e: Event)
    requires e == Reextract(id) || e == Retry(id)
    requires Enabled(Run(EMPTY, events), e)
    ensures var q, r := Run(EMPTY, events), Run(EMPTY, events + [e]);
            && WaitsUntil(r, id, r.now) && Strikes(events + [e], id) == 0
            && r.jobs[id].created == q.jobs[id].created
            && r.jobs[id].kind == if e.Retry? then q.jobs[id].kind else ReextractRun
  {
    var q := Run(EMPTY, events);
    RunKeepsInv(EMPTY, events);
    RunMore(EMPTY, events, e);
    assert (events + [e])[..|events|] == events;
    assert !Held(q, id);
    hide Inv, Run, WaitsUntil;
    var r := Step(q, e);
    assert r.held == q.held && !Held(r, id);
    hide Held;
    Waiting(r, id, r.now);
  }

  lemma RunMore(q: Queue, events: seq<Event>, e: Event)
    ensures Run(q, events + [e]) == Step(Run(q, events), e)
  {
    assert (events + [e])[..|events|] == events;
  }

  /** The job an event is about. */
  function Subject(q: Queue, e: Event): Option<JobId> {
    match e
    case Claim(_, id, _) => Some(id)
    case Finish(w, _) => if w in q.held then Some(q.held[w]) else None
    case Crash(_) => None
    case Enqueue(id, _, _) => Some(id)
    case Reextract(id) => Some(id)
    case Retry(id) => Some(id)
    case Reject(id) => Some(id)
    case Confirm(id) => Some(id)
    case Delete(id) => Some(id)
    case Tick(_) => None
  }

  /** A step touches at most the row of the job it is about and never a job's age; a row
      goes exactly when it is deleted and comes only by an upload, fresh; a reject and a
      confirm take effect; and waiting changes nothing but the time. */
  lemma StepTouchesOneJob(q: Queue, e: Event)
    ensures var r := Step(q, e);
            && (forall id | Some(id) != Subject(q, e) ::
                  (id in r.jobs <==> id in q.jobs) && (id in q.jobs ==> r.jobs[id] == q.jobs[id]))
            && (forall id | id in q.jobs && id in r.jobs :: r.jobs[id].created == q.jobs[id].created)
            && (forall id | id in q.jobs :: id !in r.jobs <==> e == Delete(id))
            && (forall id | id in r.jobs && id !in q.jobs ::
                  e.Enqueue? && r.jobs[id] == Job(Pending, e.kind, e.created, None, 0, None))
            && (forall id | id in q.jobs && e == Reject(id) :: HasStatus(r, id, Rejected))
            && (forall id | HasStatus(q, id, AwaitingReview) && e == Confirm(id) :: HasStatus(r, id, Confirmed))
            && (e.Tick? && e.now >= q.now ==> r == q.(now := e.now))
  {
  }

  /** Claims are first come, first served: no waiting row that is free, and whose waiting
      time is over, is older than the one claimed. */
  lemma ClaimsAreInOrder(q: Queue, w: WorkerId, id: JobId, locked: set<JobId>, other: JobId)
    requires Enabled(q, Claim(w, id, locked))
    ensures var r := Step(q, Claim(w, id, locked));
            && HasStatus(r, id, Extracting) && r.jobs[id].lockedBy == Some(w) && Held(r, id)
            && r.jobs[id].kind == q.jobs[id].kind
            && q.jobs[id].status == Pending && id !in locked
            && (other in q.jobs && other !in locked && q.jobs[other].status == Pending
                && (q.jobs[other].notBefore.Some? ==> q.jobs[other].notBefore.value <= q.now)
                ==> q.jobs[id].created <= q.jobs[other].created)
  {
    assert Step(q, Claim(w, id, locked)).held[w] == id;
  }

  /** The only job of its table waits for a worker, with so many rate limits behind it. */
  ghost predicate Struck(q: Queue, n: nat) {
    && q.jobs.Keys == {0} && HasStatus(q, 0, Pending) && q.jobs[0].lockedBy.None? && q.jobs[0].attempts == n
    && (q.jobs[0].notBefore.Some? ==> q.jobs[0].notBefore.value <= q.now)
    && q.held == map[] && Past(q, 0).claims == n
  }

  lemma StrikeAgain(q: Queue, n: nat)
    requires Struck(q, n) && n <= 2
    ensures var r := Step(Step(Step(q, Claim(0, 0, {})), Finish(0, RateLimited)), Tick(q.now + 30.0));
            && r.now == q.now + 30.0
            && if n < 2 then Struck(r, n + 1) else HasStatus(r, 0, Failed) && r.held == map[] && Past(r, 0).claims == 3
  {
    var claimed := Step(q, Claim(0, 0, {}));
    assert CanClaim(q.jobs, 0, {}, q.now);
    assert claimed.held == map[0 := 0] && claimed.held - {0} == map[];
    var ended := Step(claimed, Finish(0, RateLimited));
    assert ended.jobs.Keys == {0} && ended.held == map[];
  }

  lemma ConfirmFirst(q: Queue)
    requires Struck(q, 0)
    ensures var r := Step(Step(Step(q, Claim(0, 0, {})), Finish(0, Done)), Confirm(0));
            && HasStatus(r, 0, Confirmed) && r.held == map[]
            && Past(r, 0) == Past(q, 0).(claims := 1, confirms := Past(q, 0).confirms + 1)
  {
    var claimed := Step(q, Claim(0, 0, {}));
    assert CanClaim(q.jobs, 0, {}, q.now);
    assert claimed.held == map[0 := 0] && claimed.held - {0} == map[];
    var ended := Step(claimed, Finish(0, Done));
    assert HasStatus(ended, 0, AwaitingReview) && ended.held == map[];
  }

  lemma Uploaded()
    ensures var q := Run(EMPTY, [Enqueue(0, ExtractRun, 0)]);
            Struck(q, 0) && q.now == 0.0 && Past(q, 0) == Tally(0, 0, 0, None)
  {
    RunMore(EMPTY, [], Enqueue(0, ExtractRun, 0));
    assert [] + [Enqueue(0, ExtractRun, 0)] == [Enqueue(0, ExtractRun, 0)];
  }

  /** From the empty table a document reaches its confirm. */
  lemma ConfirmedRun() returns (events: seq<Event>)
    ensures var q := Run(EMPTY, events);
            HasStatus(q, 0, Confirmed) && Past(q, 0) == Tally(1, 0, 1, None) && q.held == map[]
  {
    hide *;
    Uploaded();
    events := [Enqueue(0, ExtractRun, 0)];
    ConfirmFirst(Run(EMPTY, events));
    events := Thrice(events, Claim(0, 0, {}), Finish(0, Done), Confirm(0));
  }

  /** And a job that is rate limited three times in a row is given up. */
  lemma GivenUpRun() returns (events: seq<Event>)
    ensures var q := Run(EMPTY, events); GivenUp(q, 0) && Past(q, 0).claims == 3
  {
    hide *;
    var claim, stop := Claim(0, 0, {}), Finish(0, RateLimited);
    Uploaded();
    events := [Enqueue(0, ExtractRun, 0)];
    StrikeAgain(Run(EMPTY, events), 0);
    events := Thrice(events, claim, stop, Tick(30.0));
    StrikeAgain(Run(EMPTY, events), 1);
    events := Thrice(events, claim, stop, Tick(60.0));
    StrikeAgain(Run(EMPTY, events), 2);
    events := Thrice(events, claim, stop, Tick(90.0));
    GivenUpWhenIdle(Run(EMPTY, events));
  }

  lemma GivenUpWhenIdle(q: Queue)
    requires HasStatus(q, 0, Failed) && q.held == map[]
    ensures GivenUp(q, 0)
  {
    Retriable(q, 0);
  }

  lemma Thrice(events: seq<Event>, first: Event, second: Event, third: Event) returns (more: seq<Event>)
    ensures more == events + [first] + [second] + [third]
    ensures Run(EMPTY, more) == Step(Step(Step(Run(EMPTY, events), first), second), third)
  {
    RunMore(EMPTY, events, first);
    RunMore(EMPTY, events + [first], second);
    RunMore(EMPTY, events + [first] + [second], third);
    more := events + [first] + [second] + [third];
  }

  /* ---- Jobs that nothing will run again ---- */

  /** Gone, or out of every worker's hands in a state no worker and no retry leaves. */
  ghost predicate Settled(q: Queue, id: JobId) {
    && id in q.log
    && (id in q.jobs ==> !Held(q, id) && q.jobs[id].status in {Extracting, Confirmed, Rejected})
  }

  lemma SettledStep(q: Queue, e: Event, id: JobId)
    requires Settled(q, id)
    ensures Settled(Step(q, e), id)
    ensures Step(q, e).log[id].claims == q.log[id].claims && Step(q, e).log[id].confirms == q.log[id].confirms
    ensures id in Step(q, e).jobs ==> id in q.jobs
  {
    var r := Step(q, e);
    if id in r.jobs && Enabled(q, e) {
      forall w | w in r.held ensures r.held[w] != id {
        assert w in q.held ==> (q.held[w] == id ==> Held(q, id));
      }
    }
  }

  /** A settled job stays settled: it is never claimed and never confirmed again. So a
      confirmed job is not confirmed twice even though a later reject may relabel it,
      and a job whose worker died stays `extracting` until it is rejected or deleted. */
  lemma {:induction false} SettledForGood(q: Queue, events: seq<Event>, id: JobId)
    requires Settled(q, id)
    ensures Settled(Run(q, events), id)
    ensures Run(q, events).log[id].claims == q.log[id].claims && Run(q, events).log[id].confirms == q.log[id].confirms
    ensures id in Run(q, events).jobs ==> id in q.jobs
  {
    if events != [] {
      SettledForGood(q, events[..|events| - 1], id);
      SettledStep(Run(q, events[..|events| - 1]), events[|events| - 1], id);
    }
  }

  lemma CrashSettles(q: Queue, w: WorkerId)
    requires Inv(q) && w in q.held
    ensures Settled(Step(q, Crash(w)), q.held[w])
  {
    ReleaseKeepsInv(q, w);
    assert Held(q, q.held[w]);
  }

  /** Whatever happens next, the job is rejected for as long as it exists. */
  ghost predicate StaysRejected(q: Queue, id: JobId) {
    forall events :: id in Run(q, events).jobs ==> HasStatus(Run(q, events), id, Rejected)
  }

  /** Rejecting has no status guard, and the worker that runs the job writes its outcome
      over the reject. So a reject is final exactly when no worker holds the job. */
  lemma RejectIsFinalExactly(q: Queue, id: JobId)
    requires Inv(q) && id in q.jobs
    ensures StaysRejected(Step(q, Reject(id)), id) <==> !Held(q, id)
  {
    var r := Step(q, Reject(id));
    if Held(q, id) {
      var w :| w in q.held && q.held[w] == id;
      var events := [Finish(w, Done)];
      assert events[..0] == [];
      assert Run(r, events) == Step(r, Finish(w, Done));
      assert !HasStatus(Run(r, events), id, Rejected) && !StaysRejected(r, id);
    } else {
      assert !Held(r, id);
      forall events | id in Run(r, events).jobs ensures HasStatus(Run(r, events), id, Rejected) {
        RejectedForGood(r, events, id);
      }
    }
  }

  lemma {:induction false} RejectedForGood(q: Queue, events: seq<Event>, id: JobId)
    requires id in q.log && HasStatus(q, id, Rejected) && !Held(q, id)
    ensures Settled(Run(q, events), id)
    ensures id in Run(q, events).jobs ==> HasStatus(Run(q, events), id, Rejected)
  {
    if events != [] {
      RejectedForGood(q, events[..|events| - 1], id);
      var before := Run(q, events[..|events| - 1]);
      SettledStep(before, events[|events| - 1], id);
    }
  }

  /* ---- The queue drains when users are idle ---- */

  /** Worker steps a job can still cause. */
  function Fuel(j: Job): nat {
    if j.status == Pending then 2 * Left(j.attempts)
    else if j.status == Extracting || j.status == Rejected then 2 * Left(j.attempts + 1)
    else 0
  }

  function Left(attempts: nat): nat {
    if attempts < MAX_RATE_LIMIT_ATTEMPTS then MAX_RATE_LIMIT_ATTEMPTS - attempts else 0
  }

  ghost function TotalFuel(jobs: map<JobId, Job>): nat {
    if jobs == map[] then 0
    else
      var id :| id in jobs;
      Fuel(jobs[id]) + TotalFuel(jobs - {id})
  }

  ghost function Work(q: Queue): nat {
    TotalFuel(q.jobs) + |q.held|
  }

  /** The total does not depend on the order of the rows. */
  lemma {:induction false} TotalFuelWithout(jobs: map<JobId, Job>, id: JobId)
    requires id in jobs
    ensures TotalFuel(jobs) == Fuel(jobs[id]) + TotalFuel(jobs - {id})
    decreases |jobs|
  {
    var first :| first in jobs && TotalFuel(jobs) == Fuel(jobs[first]) + TotalFuel(jobs - {first});
    if first != id {
      TotalFuelWithout(jobs - {first}, id);
      TotalFuelWithout(jobs - {id}, first);
      assert jobs - {first} - {id} == jobs - {id} - {first};
    }
  }

  lemma TotalFuelSet(jobs: map<JobId, Job>, id: JobId, j: Job)
    requires id in jobs
    ensures TotalFuel(jobs[id := j]) == TotalFuel(jobs) - Fuel(jobs[id]) + Fuel(j)
  {
    TotalFuelWithout(jobs, id);
    TotalFuelWithout(jobs[id := j], id);
    assert jobs[id := j] - {id} == jobs - {id};
  }

  predicate ByWorker(e: Event) {
    e.Claim? || e.Finish? || e.Crash?
  }

  lemma HeldGrows<K, V>(m: map<K, V>, k: K, v: V)
    requires k !in m
    ensures |m[k := v]| == |m| + 1
  {
    assert m[k := v].Keys == m.Keys + {k} && |m[k := v].Keys| == |m[k := v]| && |m.Keys| == |m|;
  }

  lemma HeldShrinks<K, V>(m: map<K, V>, k: K)
    requires k in m
    ensures |m - {k}| == |m| - 1
  {
    assert (m - {k}).Keys == m.Keys - {k} && |(m - {k}).Keys| == |m - {k}| && |m.Keys| == |m|;
  }

  lemma EndingUsesFuel(j: Job, outcome: Outcome, now: real)
    requires j.status == Extracting || j.status == Rejected
    ensures Fuel(Ended(j, outcome, now)) <= Fuel(j)
  {
  }

  lemma FinishUsesWork(q: Queue, w: WorkerId, outcome: Outcome)
    requires Inv(q) && w in q.held
    ensures Work(Finished(q, w, outcome)) < Work(q)
  {
    var id := q.held[w];
    HeldShrinks(q.held, w);
    assert Held(q, id);
    if id in q.jobs {
      assert q.jobs[id].status == Extracting || q.jobs[id].status == Rejected;
      hide Inv;
      EndingUsesFuel(q.jobs[id], outcome, q.now);
      TotalFuelSet(q.jobs, id, Ended(q.jobs[id], outcome, q.now));
      hide TotalFuel, Fuel, Ended, Held;
    }
  }

  /** Every step a worker takes uses up work; waiting costs nothing. */
  lemma WorkerStepsUseWork(q: Queue, e: Event)
    requires Inv(q) && Enabled(q, e) && (ByWorker(e) || e.Tick?)
    ensures ByWorker(e) ==> Work(Step(q, e)) < Work(q)
    ensures e.Tick? ==> Work(Step(q, e)) == Work(q)
  {
    hide TotalFuel;
    assert e.Claim? ==> q.jobs[e.id].attempts < MAX_RATE_LIMIT_ATTEMPTS;
    hide Inv, CanClaim, Finished;
    match e
    case Tick(_) =>
    case Claim(w, id, _) =>
      TotalFuelSet(q.jobs, id, q.jobs[id].(status := Extracting, lockedBy := Some(w)));
      HeldGrows(q.held, w, id);
    case Crash(w) => HeldShrinks(q.held, w);
    case Finish(w, outcome) => FinishUsesWork(q, w, outcome);
  }

  function WorkerSteps(events: seq<Event>): nat {
    if events == [] then 0 else WorkerSteps(events[..|events| - 1]) + if ByWorker(events[|events| - 1]) then 1 else 0
  }

  /** No user acts, and every worker step of the run really happens. */
  ghost predicate UsersIdle(q: Queue, events: seq<Event>) {
    forall k :: 0 <= k < |events| ==>
      (ByWorker(events[k]) || events[k].Tick?) && Enabled(Run(q, events[..k]), events[k])
  }

  /** While users are idle the workers take at most `Work(q)` more steps, however they
      interleave and however every run ends. */
  lemma {:induction false} QueueDrains(q: Queue, events: seq<Event>)
    requires Inv(q) && UsersIdle(q, events)
    ensures WorkerSteps(events) + Work(Run(q, events)) <= Work(q)
  {
    hide Inv, Step, Enabled, Work, ByWorker;
    if events != [] {
      var n := |events| - 1;
      var before := events[..n];
      forall k | 0 <= k < n
        ensures (ByWorker(before[k]) || before[k].Tick?) && Enabled(Run(q, before[..k]), before[k])
      {
        assert before[..k] == events[..k];
      }
      QueueDrains(q, before);
      RunKeepsInv(q, before);
      WorkerStepsUseWork(Run(q, before), events[n]);
    }
  }

  lemma OldestExists(jobs: map<JobId, Job>, ids: set<JobId>) returns (oldest: JobId)
    requires ids != {} && ids <= jobs.Keys
    ensures oldest in ids && forall id :: id in ids ==> jobs[oldest].created <= jobs[id].created
    decreases |ids|
  {
    oldest :| oldest in ids;
    if ids != {oldest} {
      var rest := ids - {oldest};
      assert ids == rest + {oldest};
      var other := OldestExists(jobs, rest);
      if jobs[other].created < jobs[oldest].created { oldest := other; }
    }
  }

  /** And they do not stop early: as long as a job is pending, an idle worker can claim
      one, at the latest when the job's waiting time is over. */
  lemma PendingJobsAreClaimed(q: Queue, id: JobId, w: WorkerId, later: real) returns (claimed: JobId)
    requires HasStatus(q, id, Pending) && w !in q.held && later >= q.now
    requires q.jobs[id].notBefore.Some? ==> later >= q.jobs[id].notBefore.value
    ensures Enabled(Step(q, Tick(later)), Claim(w, claimed, {}))
  {
    var ids := set i | i in q.jobs && Claimable(q.jobs[i], later);
    assert id in ids;
    claimed := OldestExists(q.jobs, ids);
    forall other | other in q.jobs && Claimable(q.jobs[other], later)
      ensures q.jobs[claimed].created <= q.jobs[other].created {
      assert other in ids;
    }
  }

  /* ---- The table, updated in place ---- */

  class JobTable {
    var jobs: map<JobId, Job>
    ghost var held: map<WorkerId, JobId>
    ghost var log: map<JobId, Tally>
    var now: real

    ghost function State(): Queue reads this { Queue(jobs, held, log, now) }

    ghost predicate Valid() reads this { Inv(State()) }

    constructor ()
      ensures Valid() && State() == EMPTY
    {
      jobs, now := map[], 0.0;
      held, log := map[], map[];
    }

    /** The ghost half of a step: workers and history. */
    ghost method Record(before: Queue, e: Event)
      modifies this`held, this`log
      ensures held == Step(before, e).held && log == Step(before, e).log
    {
      held, log := Step(before, e).held, Step(before, e).log;
    }

    /** The claim statement: an oldest claimable row nobody else has locked, or none. */
    method ClaimJob(worker: WorkerId, locked: set<JobId>) returns (claimed: Option<JobId>)
      requires Valid() && worker !in held
      modifies this
      ensures Valid()
      ensures claimed.None? <==> forall id :: id in old(jobs) && id !in locked ==> !Claimable(old(jobs)[id], old(now))
      ensures claimed.None? ==> State() == old(State())
      ensures claimed.Some? ==> Enabled(old(State()), Claim(worker, claimed.value, locked))
      ensures claimed.Some? ==> State() == Step(old(State()), Claim(worker, claimed.value, locked))
    {
      claimed := None;
      var rows := jobs.Keys;
      while rows != {}
        invariant rows <= jobs.Keys && State() == old(State())
        invariant claimed.Some? ==> claimed.value in jobs && claimed.value !in locked
        invariant claimed.Some? ==> Claimable(jobs[claimed.value], now)
        invariant forall id :: id in jobs && id !in rows && id !in locked && Claimable(jobs[id], now)
                    ==> claimed.Some? && jobs[claimed.value].created <= jobs[id].created
        decreases rows
      {
        var id :| id in rows;
        rows := rows - {id};
        if id !in locked && Claimable(jobs[id], now)
          && (claimed.None? || jobs[id].created < jobs[claimed.value].created) {
          claimed := Some(id);
        }
      }
      if claimed.Some? {
        var id := claimed.value;
        assert CanClaim(jobs, id, locked, now);
        StepKeepsInv(State(), Claim(worker, id, locked));
        jobs := jobs[id := jobs[id].(status := Extracting, lockedBy := Some(worker))];
        Record(old(State()), Claim(worker, id, locked));
      }
    }

    /** The end of `process_job`: the job may have been deleted while it ran. */
    method FinishJob(worker: WorkerId, id: JobId, outcome: Outcome)
      requires Valid() && worker in held && held[worker] == id
      modifies this
      ensures Valid() && State() == Step(old(State()), Finish(worker, outcome))
    {
      StepKeepsInv(State(), Finish(worker, outcome));
      hide Inv;
      if id in jobs {
        match outcome
        case Done => jobs := jobs[id := jobs[id].(status := AwaitingReview, attempts := 0, notBefore := None)];
        case Broke => jobs := jobs[id := jobs[id].(status := Failed)];
        case RateLimited => HandleRateLimited(id);
      }
      Record(old(State()), Finish(worker, outcome));
    }

    method HandleRateLimited(id: JobId)
      requires id in jobs
      modifies this`jobs
      ensures jobs == old(jobs)[id := Ended(old(jobs)[id], RateLimited, now)]
    {
      var attempts := jobs[id].attempts + 1;
      var job := jobs[id].(attempts := attempts);
      if attempts >= MAX_RATE_LIMIT_ATTEMPTS {
        job := job.(status := Failed);
      } else {
        job := job.(status := Pending, lockedBy := None, notBefore := Some(now + RATE_LIMIT_REQUEUE_DELAY_SECONDS));
      }
      jobs := jobs[id := job];
    }

    method ReextractJob(id: JobId) returns (ok: bool)
      requires Valid()
      modifies this
      ensures Valid() && State() == Step(old(State()), Reextract(id))
      ensures ok <==> old(HasStatus(State(), id, AwaitingReview))
    {
      StepKeepsInv(State(), Reextract(id));
      hide Inv;
      if id !in jobs || jobs[id].status != AwaitingReview { return false; }
      jobs := jobs[id := jobs[id].(kind := ReextractRun, status := Pending, attempts := 0, notBefore := None,
        lockedBy := None)];
      Record(old(State()), Reextract(id));
      ok := true;
    }

    method RetryJob(id: JobId) returns (ok: bool)
      requires Valid()
      modifies this
      ensures Valid() && State() == Step(old(State()), Retry(id))
      ensures ok <==> old(HasStatus(State(), id, Failed))
    {
      StepKeepsInv(State(), Retry(id));
      hide Inv;
      if id !in jobs || jobs[id].status != Failed { return false; }
      var job := jobs[id].(status := Pending, lockedBy := None);
      jobs := jobs[id := job.(attempts := 0, notBefore := None)];
      Record(old(State()), Retry(id));
      ok := true;
    }

    method RejectJob(id: JobId) returns (ok: bool)
      requires Valid()
      modifies this
      ensures Valid() && State() == Step(old(State()), Reject(id))
      ensures ok <==> id in old(jobs)
    {
      StepKeepsInv(State(), Reject(id));
      hide Inv;
      if id !in jobs { return false; }
      jobs := jobs[id := jobs[id].(status := Rejected)];
      Record(old(State()), Reject(id));
      ok := true;
    }

    method ConfirmJob(id: JobId) returns (ok: bool)
      requires Valid()
      modifies this
      ensures Valid() && State() == Step(old(State()), Confirm(id))
      ensures ok <==> old(HasStatus(State(), id, AwaitingReview))
    {
      StepKeepsInv(State(), Confirm(id));
      hide Inv;
      if id !in jobs || jobs[id].status != AwaitingReview { return false; }
      jobs := jobs[id := jobs[id].(status := Confirmed)];
      Record(old(State()), Confirm(id));
      ok := true;
    }
  }
}
