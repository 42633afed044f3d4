/** The durable relay queue of relayer/queue.ts as a state machine over its transitions: what each
    transition does, and what every one of them keeps. */
module RelayQueue {
  import opened Numbers
  import opened Text

  const MAX_COMPLETED_IDS := 2000
  const MAX_DEAD_JOBS := 100

  datatype Job<T> = Job(id: string, payload: T, attempts: nat, nextAttemptAtMs: int, lastError: Option<string>)
  datatype DeadJob<T> = DeadJob(job: Job<T>, error: string)

  // What is held in memory and journalled to disk.
  datatype QueueState<T> = QueueState(jobs: seq<Job<T>>, completedIds: seq<string>, dead: seq<DeadJob<T>>)

  // What pump captured before it awaited the handler: an index into jobs, and the job found there.
  datatype Flight<T> = Flight(dueIndex: nat, job: Job<T>)

  datatype Options = Options(maxAttempts: int, retryBaseMs: nat, retryMaxBackoffMs: nat)

  // The running queue and the journal of its last successful write; no journal reads as empty.
  datatype Relay<T> = Relay(mem: QueueState<T>, inFlight: Option<Flight<T>>, disk: QueueState<T>)

  function Empty<T>(): QueueState<T> {
    QueueState([], [], [])
  }

  // ----- transitions -----

  function Persist<T>(r: Relay<T>, ok: bool): Relay<T> {
    if ok then r.(disk := r.mem) else r
  }

  predicate Seen<T>(q: QueueState<T>, id: string) {
    || (exists i :: 0 <= i < |q.jobs| && q.jobs[i].id == id)
    || id in q.completedIds
    || (exists i :: 0 <= i < |q.dead| && q.dead[i].job.id == id)
  }

  function EnqueueStep<T>(r: Relay<T>, id: string, payload: T, now: int, ok: bool): Relay<T> {
    if Seen(r.mem, id) then r
    else Persist(r.(mem := r.mem.(jobs := r.mem.jobs + [Job(id, payload, 0, now, None)])), ok)
  }

  // The first job that is due.
  function DueIndex<T>(jobs: seq<Job<T>>, now: int, from: nat := 0): (i: Option<nat>)
    requires from <= |jobs|
    ensures i.Some? ==> from <= i.value < |jobs| && jobs[i.value].nextAttemptAtMs <= now
    ensures i.Some? ==> forall j :: from <= j < i.value ==> jobs[j].nextAttemptAtMs > now
    ensures i.None? ==> forall j :: from <= j < |jobs| ==> jobs[j].nextAttemptAtMs > now
    decreases |jobs| - from
  {
    if from == |jobs| then None
    else if jobs[from].nextAttemptAtMs <= now then Some(from)
    else DueIndex(jobs, now, from + 1)
  }

  // The synchronous part of pump: the attempt is counted in memory only.
  function BeginStep<T>(r: Relay<T>, now: int): Relay<T> {
    var due := DueIndex(r.mem.jobs, now);
    if due.None? || r.inFlight.Some? then r else
      var job := r.mem.jobs[due.value].(attempts := r.mem.jobs[due.value].attempts + 1);
      r.(mem := r.mem.(jobs := r.mem.jobs[due.value := job]), inFlight := Some(Flight(due.value, job)))
  }

  function Without<A>(s: seq<A>, i: nat): (t: seq<A>)
    requires i < |s|
    ensures |t| == |s| - 1
    ensures forall k :: 0 <= k < |t| ==> t[k] == if k < i then s[k] else s[k + 1]
  {
    s[..i] + s[i + 1..]
  }

  // The newest max elements.
  function Newest<A>(s: seq<A>, max: nat): (t: seq<A>)
    ensures |t| == if |s| < max then |s| else max
    ensures forall k :: 0 <= k < |t| ==> t[k] == s[k + (|s| - |t|)]
  {
    if |s| > max then s[|s| - max..] else s
  }

  // The handler resolved.
  function SucceedStep<T>(r: Relay<T>, ok: bool): Relay<T>
    requires r.inFlight.Some? && r.inFlight.value.dueIndex < |r.mem.jobs|
  {
    var f := r.inFlight.value;
    Persist(r.(mem := r.mem.(jobs := Without(r.mem.jobs, f.dueIndex),
                             completedIds := Newest(r.mem.completedIds + [f.job.id], MAX_COMPLETED_IDS)),
               inFlight := None), ok)
  }

  lemma WaitNonnegative(base: nat, n: nat)
    ensures base * Pow(2, n) >= 0
  {
    PowPositive(2, n);
  }

  function Backoff(o: Options, attempts: nat): (ms: nat)
    requires attempts >= 1
    ensures ms <= o.retryMaxBackoffMs
  {
    WaitNonnegative(o.retryBaseMs, attempts - 1);
    var wait := o.retryBaseMs * Pow(2, attempts - 1);
    if wait < o.retryMaxBackoffMs then wait else o.retryMaxBackoffMs
  }

  // The first wait is the configured one, each further wait twice the one before, up to the maximum.
  lemma BackoffDoubles(o: Options, attempts: nat)
    requires attempts >= 1
    ensures Backoff(o, 1) == if o.retryBaseMs < o.retryMaxBackoffMs then o.retryBaseMs else o.retryMaxBackoffMs
    ensures Backoff(o, attempts + 1)
         == if 2 * Backoff(o, attempts) < o.retryMaxBackoffMs then 2 * Backoff(o, attempts) else o.retryMaxBackoffMs
  {
    var base, p := o.retryBaseMs, Pow(2, attempts - 1);
    assert Pow(2, 1 - 1) == 1;
    assert Pow(2, attempts) == 2 * p;
    Associates(base, p);
  }

  lemma Associates(base: int, p: int)
    ensures base * (2 * p) == 2 * (base * p)
  {}

  // The handler rejected: dead-letter after the last attempt, otherwise retry later.
  function FailStep<T>(o: Options, r: Relay<T>, message: string, now: int, ok: bool): Relay<T>
    requires r.inFlight.Some? && r.inFlight.value.dueIndex < |r.mem.jobs| && r.inFlight.value.job.attempts >= 1
  {
    var f := r.inFlight.value;
    var mem :=
      if f.job.attempts >= o.maxAttempts then
        r.mem.(jobs := Without(r.mem.jobs, f.dueIndex),
               dead := Newest(r.mem.dead + [DeadJob(f.job, message)], MAX_DEAD_JOBS))
      else
        var later := f.job.(nextAttemptAtMs := now + Backoff(o, f.job.attempts), lastError := Some(message));
        r.mem.(jobs := r.mem.jobs[f.dueIndex := later]);
    Persist(r.(mem := mem, inFlight := None), ok)
  }

  // The process dies and a new one loads the journal.
  function CrashStep<T>(r: Relay<T>): Relay<T> {
    Relay(r.disk, None, r.disk)
  }

  datatype Event<T> =
    | Enqueue(id: string, payload: T, now: int, ok: bool)
    | Begin(now: int)
    | Resolve(ok: bool)
    | Reject(message: string, now: int, ok: bool)
    | Crash

  // The captured index still denotes the captured job.
  ghost predicate FlightPoints<T>(r: Relay<T>) {
    r.inFlight.Some? ==>
      var f := r.inFlight.value;
      f.dueIndex < |r.mem.jobs| && r.mem.jobs[f.dueIndex] == f.job && f.job.attempts >= 1
  }

  // Any event at any time; a handler can only settle while it is in flight.
  function Next<T>(o: Options, r: Relay<T>, e: Event<T>): Relay<T>
    requires FlightPoints(r)
  {
    match e
    case Enqueue(id, payload, now, ok) => EnqueueStep(r, id, payload, now, ok)
    case Begin(now) => BeginStep(r, now)
    case Resolve(ok) => if r.inFlight.Some? then SucceedStep(r, ok) else r
    case Reject(message, now, ok) => if r.inFlight.Some? then FailStep(o, r, message, now, ok) else r
    case Crash => CrashStep(r)
  }

  // ----- ids -----

  function Ids<T>(jobs: seq<Job<T>>): (ids: seq<string>)
    ensures |ids| == |jobs| && forall i :: 0 <= i < |jobs| ==> ids[i] == jobs[i].id
  {
    seq(|jobs|, i requires 0 <= i < |jobs| => jobs[i].id)
  }

  function DeadIds<T>(dead: seq<DeadJob<T>>): (ids: seq<string>)
    ensures |ids| == |dead| && forall i :: 0 <= i < |dead| ==> ids[i] == dead[i].job.id
  {
    seq(|dead|, i requires 0 <= i < |dead| => dead[i].job.id)
  }

  // Every id the queue knows, with multiplicity.
  ghost function IdBag<T>(q: QueueState<T>): multiset<string> {
    multiset(Ids(q.jobs)) + multiset(q.completedIds) + multiset(DeadIds(q.dead))
  }

  ghost predicate AllDistinct(bag: multiset<string>) {
    forall id :: bag[id] <= 1
  }

  ghost predicate Bounded<T>(q: QueueState<T>) {
    AllDistinct(IdBag(q)) && |q.completedIds| <= MAX_COMPLETED_IDS && |q.dead| <= MAX_DEAD_JOBS
  }

  ghost predicate Invariant<T>(r: Relay<T>) {
    FlightPoints(r) && Bounded(r.mem) && Bounded(r.disk)
  }

  lemma InIds<T>(jobs: seq<Job<T>>, id: string)
    ensures (exists i :: 0 <= i < |jobs| && jobs[i].id == id) <==> id in multiset(Ids(jobs))
  {
    hide Ids;
    var ids := Ids(jobs);
    if i :| 0 <= i < |jobs| && jobs[i].id == id {
      assert ids[i] == id;
    }
    if id in ids {
      var i :| 0 <= i < |ids| && ids[i] == id;
      assert jobs[i].id == id;
    }
  }

  lemma InDeadIds<T>(dead: seq<DeadJob<T>>, id: string)
    ensures (exists i :: 0 <= i < |dead| && dead[i].job.id == id) <==> id in multiset(DeadIds(dead))
  {
    hide DeadIds;
    var ids := DeadIds(dead);
    if i :| 0 <= i < |dead| && dead[i].job.id == id {
      assert ids[i] == id;
    }
    if id in ids {
      var i :| 0 <= i < |ids| && ids[i] == id;
      assert dead[i].job.id == id;
    }
  }

  lemma SeenInBag<T>(q: QueueState<T>, id: string)
    ensures Seen(q, id) <==> id in IdBag(q)
  {
    hide Ids, DeadIds;
    InIds(q.jobs, id);
    InDeadIds(q.dead, id);
  }

  lemma BagAppend<A>(s: seq<A>, x: A)
    ensures multiset(s + [x]) == multiset(s) + multiset{x}
  {}

  lemma BagWithout<A>(s: seq<A>, i: nat)
    requires i < |s|
    ensures multiset(s) == multiset(Without(s, i)) + multiset{s[i]}
  {
    assert s == s[..i] + ([s[i]] + s[i + 1..]);
  }

  lemma BagNewest<A>(s: seq<A>, max: nat)
    ensures multiset(Newest(s, max)) <= multiset(s)
  {
    if |s| > max {
      assert s == s[..|s| - max] + s[|s| - max..];
    }
  }

  lemma IdsAppend<T>(jobs: seq<Job<T>>, job: Job<T>)
    ensures Ids(jobs + [job]) == Ids(jobs) + [job.id]
  {
    hide Ids;
  }

  lemma IdsWithout<T>(jobs: seq<Job<T>>, i: nat)
    requires i < |jobs|
    ensures Ids(Without(jobs, i)) == Without(Ids(jobs), i)
  {
    hide Ids;
  }

  lemma IdsUpdate<T>(jobs: seq<Job<T>>, i: nat, job: Job<T>)
    requires i < |jobs| && job.id == jobs[i].id
    ensures Ids(jobs[i := job]) == Ids(jobs)
  {
    hide Ids;
  }

  lemma DeadIdsAppend<T>(dead: seq<DeadJob<T>>, d: DeadJob<T>)
    ensures DeadIds(dead + [d]) == DeadIds(dead) + [d.job.id]
  {
    hide DeadIds;
  }

  lemma DeadIdsNewest<T>(dead: seq<DeadJob<T>>, max: nat)
    ensures DeadIds(Newest(dead, max)) == Newest(DeadIds(dead), max)
  {
    hide DeadIds;
  }

  // ----- what each transition does to the ids -----

  lemma AppendedIds<T>(jobs: seq<Job<T>>, job: Job<T>)
    ensures multiset(Ids(jobs + [job])) == multiset(Ids(jobs)) + multiset{job.id}
  {
    hide Ids;
    IdsAppend(jobs, job);
    BagAppend(Ids(jobs), job.id);
  }

  lemma RemovedIds<T>(jobs: seq<Job<T>>, i: nat)
    requires i < |jobs|
    ensures multiset(Ids(jobs)) == multiset(Ids(Without(jobs, i))) + multiset{jobs[i].id}
  {
    hide Ids, Without;
    IdsWithout(jobs, i);
    BagWithout(Ids(jobs), i);
  }

  lemma CompletedIds(ids: seq<string>, id: string)
    ensures multiset(Newest(ids + [id], MAX_COMPLETED_IDS)) <= multiset(ids) + multiset{id}
  {
    hide Newest;
    BagAppend(ids, id);
    BagNewest(ids + [id], MAX_COMPLETED_IDS);
  }

  lemma DeadLetteredIds<T>(dead: seq<DeadJob<T>>, d: DeadJob<T>)
    ensures multiset(DeadIds(Newest(dead + [d], MAX_DEAD_JOBS))) <= multiset(DeadIds(dead)) + multiset{d.job.id}
  {
    hide Newest, DeadIds;
    DeadIdsAppend(dead, d);
    DeadIdsNewest(dead + [d], MAX_DEAD_JOBS);
    BagAppend(DeadIds(dead), d.job.id);
    BagNewest(DeadIds(dead + [d]), MAX_DEAD_JOBS);
  }

  lemma SubBagDistinct(a: multiset<string>, b: multiset<string>)
    requires a <= b && AllDistinct(b)
    ensures AllDistinct(a)
  {}

  lemma MovedBag(jobs: multiset<string>, rest: multiset<string>, kept: multiset<string>,
                 into: multiset<string>, other: multiset<string>, id: string)
    requires jobs == rest + multiset{id} && kept <= into + multiset{id}
    ensures rest + kept + other <= jobs + into + other
  {}

  lemma EnqueueKeeps<T>(r: Relay<T>, id: string, payload: T, now: int, ok: bool)
    requires Invariant(r)
    ensures Invariant(EnqueueStep(r, id, payload, now, ok))
  {
    hide Ids, DeadIds, Seen;
    SeenInBag(r.mem, id);
    if !Seen(r.mem, id) {
      var job := Job(id, payload, 0, now, None);
      AppendedIds(r.mem.jobs, job);
      assert IdBag(r.mem.(jobs := r.mem.jobs + [job])) == IdBag(r.mem) + multiset{id};
    }
  }

  lemma BeginKeeps<T>(r: Relay<T>, now: int)
    requires Invariant(r)
    ensures Invariant(BeginStep(r, now))
  {
    hide Ids, DeadIds, AllDistinct, DueIndex;
    var due := DueIndex(r.mem.jobs, now);
    if due.Some? {
      var job := r.mem.jobs[due.value];
      IdsUpdate(r.mem.jobs, due.value, job.(attempts := job.attempts + 1));
    }
  }

  lemma ResolveKeeps<T>(r: Relay<T>, ok: bool)
    requires Invariant(r) && r.inFlight.Some?
    ensures Invariant(SucceedStep(r, ok))
  {
    hide Ids, DeadIds, AllDistinct, Without, Newest;
    var f := r.inFlight.value;
    var jobs := Without(r.mem.jobs, f.dueIndex);
    var completed := Newest(r.mem.completedIds + [f.job.id], MAX_COMPLETED_IDS);
    RemovedIds(r.mem.jobs, f.dueIndex);
    CompletedIds(r.mem.completedIds, f.job.id);
    MovedBag(multiset(Ids(r.mem.jobs)), multiset(Ids(jobs)), multiset(completed), multiset(r.mem.completedIds),
             multiset(DeadIds(r.mem.dead)), f.job.id);
    SubBagDistinct(IdBag(QueueState(jobs, completed, r.mem.dead)), IdBag(r.mem));
  }

  lemma RejectKeeps<T>(o: Options, r: Relay<T>, message: string, now: int, ok: bool)
    requires Invariant(r) && r.inFlight.Some?
    ensures Invariant(FailStep(o, r, message, now, ok))
  {
    hide Ids, DeadIds, AllDistinct, Without, Newest, Backoff;
    var f := r.inFlight.value;
    if f.job.attempts >= o.maxAttempts {
      var jobs := Without(r.mem.jobs, f.dueIndex);
      var dead := Newest(r.mem.dead + [DeadJob(f.job, message)], MAX_DEAD_JOBS);
      RemovedIds(r.mem.jobs, f.dueIndex);
      DeadLetteredIds(r.mem.dead, DeadJob(f.job, message));
      MovedBag(multiset(Ids(r.mem.jobs)), multiset(Ids(jobs)), multiset(DeadIds(dead)), multiset(DeadIds(r.mem.dead)),
               multiset(r.mem.completedIds), f.job.id);
      assert IdBag(QueueState(jobs, r.mem.completedIds, dead)) <= IdBag(r.mem);
      SubBagDistinct(IdBag(QueueState(jobs, r.mem.completedIds, dead)), IdBag(r.mem));
    } else {
      var later := f.job.(nextAttemptAtMs := now + Backoff(o, f.job.attempts), lastError := Some(message));
      IdsUpdate(r.mem.jobs, f.dueIndex, later);
    }
  }

  // Ids stay pairwise distinct across jobs, completed ids and dead letters, and the captured index
  // keeps denoting the captured job, through every event in any order, crashes and failed writes included.
  lemma NextKeeps<T>(o: Options, r: Relay<T>, e: Event<T>)
    requires Invariant(r)
    ensures Invariant(Next(o, r, e))
  {
    hide Bounded, EnqueueStep, BeginStep, SucceedStep, FailStep;
    match e
    case Enqueue(id, payload, now, ok) => EnqueueKeeps(r, id, payload, now, ok);
    case Begin(now) => BeginKeeps(r, now);
    case Resolve(ok) => if r.inFlight.Some? { ResolveKeeps(r, ok); }
    case Reject(message, now, ok) => if r.inFlight.Some? { RejectKeeps(o, r, message, now, ok); }
    case Crash =>
  }
}
