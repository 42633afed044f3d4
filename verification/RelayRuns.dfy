/** Whole runs of the relay queue of relayer/queue.ts: what its state says about everything that
    happened, and the class that performs the transitions. */
module RelayRuns {
  import opened Text
  import opened RelayQueue

  /** What happened so far: the ids accepted by enqueue, completed and dead-lettered, oldest first, the
      number of attempts started for the latest job accepted under each id, and the number of crashes. */
  datatype Log = Log(accepted: seq<string>, completed: seq<string>, deadLettered: seq<string>,
                     attempts: map<string, nat>, crashes: nat)

  datatype World<T> = World(relay: Relay<T>, log: Log)

  function Started(log: Log, id: string): nat {
    if id in log.attempts then log.attempts[id] else 0
  }

  // The log after one event, read off the state it happens in.
  ghost function Record<T>(o: Options, r: Relay<T>, log: Log, e: Event<T>): Log {
    match e
    case Enqueue(id, _, _, _) =>
      if Seen(r.mem, id) then log
      else log.(accepted := log.accepted + [id], attempts := log.attempts[id := 0])
    case Begin(now) =>
      var due := DueIndex(r.mem.jobs, now);
      if due.None? || r.inFlight.Some? then log
      else var id := r.mem.jobs[due.value].id; log.(attempts := log.attempts[id := Started(log, id) + 1])
    case Resolve(_) =>
      if r.inFlight.Some? then log.(completed := log.completed + [r.inFlight.value.job.id]) else log
    case Reject(_, _, _) =>
      if r.inFlight.Some? && r.inFlight.value.job.attempts >= o.maxAttempts then
        log.(deadLettered := log.deadLettered + [r.inFlight.value.job.id])
      else log
    case Crash => log.(crashes := log.crashes + 1)
  }

  // The first n events of a run from an empty queue without a journal.
  ghost function Run<T>(o: Options, events: seq<Event<T>>, n: nat): (w: World<T>)
    requires n <= |events|
    ensures Invariant(w.relay)
  {
    hide Next, Record;
    if n == 0 then
      World(Relay(Empty(), None, Empty()), Log([], [], [], map[], 0))
    else
      var w := Run(o, events, n - 1);
      NextKeeps(o, w.relay, events[n - 1]);
      World(Next(o, w.relay, events[n - 1]), Record(o, w.relay, w.log, events[n - 1]))
  }

  predicate WriteSucceeds<T>(e: Event<T>) {
    match e
    case Enqueue(_, _, _, ok) => ok
    case Resolve(ok) => ok
    case Reject(_, _, ok) => ok
    case Begin(_) => true
    case Crash => true
  }

  // ----- conservation -----

  // Every accepted job is pending, completed or dead-lettered, and the two lists the queue keeps are
  // the newest entries of what was completed and dead-lettered.
  ghost predicate Accounted<T>(w: World<T>) {
    && multiset(w.log.accepted)
       == multiset(Ids(w.relay.mem.jobs)) + multiset(w.log.completed) + multiset(w.log.deadLettered)
    && w.relay.mem.completedIds == Newest(w.log.completed, MAX_COMPLETED_IDS)
    && DeadIds(w.relay.mem.dead) == Newest(w.log.deadLettered, MAX_DEAD_JOBS)
  }

  lemma NewestAppend<A>(s: seq<A>, x: A, max: nat)
    requires max > 0
    ensures Newest(Newest(s, max) + [x], max) == Newest(s + [x], max)
  {}

  lemma EnqueueAccounts<T>(o: Options, w: World<T>, e: Event<T>)
    requires Invariant(w.relay) && Accounted(w) && e.Enqueue?
    ensures Accounted(World(Next(o, w.relay, e), Record(o, w.relay, w.log, e)))
  {
    hide Ids, DeadIds, Seen, Newest;
    AppendedIds(w.relay.mem.jobs, Job(e.id, e.payload, 0, e.now, None));
    BagAppend(w.log.accepted, e.id);
  }

  lemma BeginAccounts<T>(o: Options, w: World<T>, e: Event<T>)
    requires Invariant(w.relay) && Accounted(w) && e.Begin?
    ensures Accounted(World(Next(o, w.relay, e), Record(o, w.relay, w.log, e)))
  {
    hide Ids, DeadIds, Newest, DueIndex, Invariant;
    var due := DueIndex(w.relay.mem.jobs, e.now);
    if due.Some? {
      var job := w.relay.mem.jobs[due.value];
      IdsUpdate(w.relay.mem.jobs, due.value, job.(attempts := job.attempts + 1));
    }
  }

  lemma ResolveAccounts<T>(o: Options, w: World<T>, e: Event<T>)
    requires Invariant(w.relay) && Accounted(w) && e.Resolve?
    ensures Accounted(World(Next(o, w.relay, e), Record(o, w.relay, w.log, e)))
  {
    hide Ids, DeadIds, Newest, Without;
    if w.relay.inFlight.Some? {
      var f := w.relay.inFlight.value;
      RemovedIds(w.relay.mem.jobs, f.dueIndex);
      BagAppend(w.log.completed, f.job.id);
      NewestAppend(w.log.completed, f.job.id, MAX_COMPLETED_IDS);
    }
  }

  lemma RejectAccounts<T>(o: Options, w: World<T>, e: Event<T>)
    requires Invariant(w.relay) && Accounted(w) && e.Reject?
    ensures Accounted(World(Next(o, w.relay, e), Record(o, w.relay, w.log, e)))
  {
    hide Ids, DeadIds, Newest, Without, Backoff;
    if w.relay.inFlight.Some? {
      var f := w.relay.inFlight.value;
      if f.job.attempts >= o.maxAttempts {
        var d := DeadJob(f.job, e.message);
        RemovedIds(w.relay.mem.jobs, f.dueIndex);
        BagAppend(w.log.deadLettered, f.job.id);
        NewestAppend(w.log.deadLettered, f.job.id, MAX_DEAD_JOBS);
        DeadIdsAppend(w.relay.mem.dead, d);
        DeadIdsNewest(w.relay.mem.dead + [d], MAX_DEAD_JOBS);
      } else {
        var later := f.job.(nextAttemptAtMs := e.now + Backoff(o, f.job.attempts), lastError := Some(e.message));
        IdsUpdate(w.relay.mem.jobs, f.dueIndex, later);
      }
    }
  }

  // ----- the journal -----

  // The journal lags behind memory by at most the attempt in flight.
  ghost predicate Synced<T>(r: Relay<T>) {
    && r.disk.completedIds == r.mem.completedIds && r.disk.dead == r.mem.dead
    && |r.disk.jobs| == |r.mem.jobs|
    && forall i :: 0 <= i < |r.mem.jobs| ==>
         && r.disk.jobs[i].id == r.mem.jobs[i].id
         && r.disk.jobs[i].attempts <= r.mem.jobs[i].attempts <= r.disk.jobs[i].attempts + Flying(r, i)
  }

  function Flying<T>(r: Relay<T>, i: nat): (n: nat)
    ensures n <= 1
  {
    if r.inFlight.Some? && r.inFlight.value.dueIndex == i then 1 else 0
  }

  lemma SyncKept<T>(o: Options, r: Relay<T>, e: Event<T>)
    requires Invariant(r) && Synced(r) && WriteSucceeds(e)
    ensures Synced(Next(o, r, e))
  {
    hide Seen, Without, Newest, Backoff, DueIndex, Bounded;
  }

  lemma CrashAccounts<T>(o: Options, w: World<T>)
    requires Invariant(w.relay) && Accounted(w) && Synced(w.relay)
    ensures Accounted(World(Next(o, w.relay, Crash), Record(o, w.relay, w.log, Crash)))
  {
    hide Ids, DeadIds, Newest, Bounded;
    assert Ids(w.relay.disk.jobs) == Ids(w.relay.mem.jobs);
  }

  // ----- attempts -----

  function Limit(o: Options): nat {
    if o.maxAttempts < 1 then 1 else o.maxAttempts
  }

  // A job's counter never exceeds the attempts started for it, and both stay within the limit, up to one
  // extra attempt for each crash.
  ghost predicate Counted<T>(o: Options, w: World<T>) {
    && (forall i :: 0 <= i < |w.relay.mem.jobs| ==>
         var job := w.relay.mem.jobs[i];
         && job.attempts <= Started(w.log, job.id) <= job.attempts + w.log.crashes
         && Started(w.log, job.id) <= Limit(o) - 1 + w.log.crashes + Flying(w.relay, i))
    && (forall id :: Started(w.log, id) <= Limit(o) + w.log.crashes)
  }

  lemma OnceDiffers<A>(s: seq<A>, i: nat, j: nat)
    requires i < |s| && j < |s| && i != j && multiset(s)[s[i]] <= 1
    ensures s[i] != s[j]
  {
    var k: nat := if j < i then j else j - 1;
    BagWithout(s, i);
    assert Without(s, i)[k] == s[j];
    assert s[j] in multiset(Without(s, i));
  }

  lemma JobIdsDiffer<T>(r: Relay<T>, i: nat, j: nat)
    requires Invariant(r) && i < |r.mem.jobs| && j < |r.mem.jobs| && i != j
    ensures r.mem.jobs[i].id != r.mem.jobs[j].id
  {
    hide Ids, DeadIds;
    var ids := Ids(r.mem.jobs);
    assert IdBag(r.mem)[ids[i]] <= 1;
    OnceDiffers(ids, i, j);
  }

  lemma EnqueueCounts<T>(o: Options, w: World<T>, e: Event<T>)
    requires Invariant(w.relay) && Counted(o, w) && e.Enqueue?
    ensures Counted(o, World(Next(o, w.relay, e), Record(o, w.relay, w.log, e)))
  {
    hide Bounded;
    var next := World(Next(o, w.relay, e), Record(o, w.relay, w.log, e));
    if !Seen(w.relay.mem, e.id) {
      assert forall id :: Started(next.log, id) == if id == e.id then 0 else Started(w.log, id);
      forall i | 0 <= i < |w.relay.mem.jobs|
        ensures next.relay.mem.jobs[i] == w.relay.mem.jobs[i] && w.relay.mem.jobs[i].id != e.id
        ensures Flying(next.relay, i) == Flying(w.relay, i)
      {}
    }
  }

  lemma BeginCounts<T>(o: Options, w: World<T>, e: Event<T>)
    requires Invariant(w.relay) && Counted(o, w) && e.Begin?
    ensures Counted(o, World(Next(o, w.relay, e), Record(o, w.relay, w.log, e)))
  {
    hide Bounded, DueIndex;
    var due := DueIndex(w.relay.mem.jobs, e.now);
    var next := World(Next(o, w.relay, e), Record(o, w.relay, w.log, e));
    if due.Some? && w.relay.inFlight.None? {
      var started := w.relay.mem.jobs[due.value].id;
      assert forall id :: Started(next.log, id) == Started(w.log, id) + if id == started then 1 else 0;
      forall i | 0 <= i < |w.relay.mem.jobs| && i != due.value
        ensures next.relay.mem.jobs[i] == w.relay.mem.jobs[i] && w.relay.mem.jobs[i].id != started
        ensures Flying(w.relay, i) == 0
      {
        JobIdsDiffer(w.relay, i, due.value);
      }
      assert Flying(next.relay, due.value) == 1 && Flying(w.relay, due.value) == 0;
    }
  }

  lemma SettleCounts<T>(o: Options, w: World<T>, e: Event<T>)
    requires Invariant(w.relay) && Counted(o, w) && (e.Resolve? || e.Reject?)
    ensures Counted(o, World(Next(o, w.relay, e), Record(o, w.relay, w.log, e)))
  {
    hide Bounded, Newest, Backoff;
    var next := World(Next(o, w.relay, e), Record(o, w.relay, w.log, e));
    assert forall id :: Started(next.log, id) == Started(w.log, id);
    if w.relay.inFlight.Some? {
      var f := w.relay.inFlight.value;
      var removed := |next.relay.mem.jobs| < |w.relay.mem.jobs|;
      forall i | 0 <= i < |next.relay.mem.jobs|
        ensures var job := next.relay.mem.jobs[i];
                && job.attempts <= Started(w.log, job.id) <= job.attempts + w.log.crashes
                && Started(w.log, job.id) <= Limit(o) - 1 + w.log.crashes
      {
        var before: nat := if removed && i >= f.dueIndex then i + 1 else i;
        assert w.relay.mem.jobs[before].id == next.relay.mem.jobs[i].id;
        assert before != f.dueIndex ==> Flying(w.relay, before) == 0;
      }
    }
  }

  lemma CrashCounts<T>(o: Options, w: World<T>)
    requires Invariant(w.relay) && Counted(o, w) && Synced(w.relay)
    ensures Counted(o, World(Next(o, w.relay, Crash), Record(o, w.relay, w.log, Crash)))
  {
    hide Bounded;
    var next := World(Next(o, w.relay, Crash), Record(o, w.relay, w.log, Crash));
    assert forall id :: Started(next.log, id) == Started(w.log, id);
    forall i | 0 <= i < |w.relay.mem.jobs|
      ensures var job := next.relay.mem.jobs[i];
              && job.attempts <= Started(w.log, job.id) <= job.attempts + next.log.crashes
              && Started(w.log, job.id) <= Limit(o) - 1 + next.log.crashes
    {
      assert w.relay.mem.jobs[i].id == w.relay.disk.jobs[i].id;
    }
  }

  // ----- the run theorem -----

  ghost predicate Sound<T>(o: Options, w: World<T>, durable: bool) {
    Accounted(w) && Counted(o, w) && (durable ==> Synced(w.relay))
  }

  lemma StepSound<T>(o: Options, w: World<T>, e: Event<T>, durable: bool)
    requires Invariant(w.relay) && Sound(o, w, durable)
    requires if durable then WriteSucceeds(e) else !e.Crash?
    ensures Sound(o, World(Next(o, w.relay, e), Record(o, w.relay, w.log, e)), durable)
  {
    hide Invariant, Accounted, Counted, Synced, Next, Record;
    if durable { SyncKept(o, w.relay, e); }
    match e
    case Enqueue(_, _, _, _) => EnqueueAccounts(o, w, e); EnqueueCounts(o, w, e);
    case Begin(_) => BeginAccounts(o, w, e); BeginCounts(o, w, e);
    case Resolve(_) => ResolveAccounts(o, w, e); SettleCounts(o, w, e);
    case Reject(_, _, _) => RejectAccounts(o, w, e); SettleCounts(o, w, e);
    case Crash => CrashAccounts(o, w); CrashCounts(o, w);
  }

  ghost predicate AllWritesSucceed<T>(events: seq<Event<T>>) {
    forall i :: 0 <= i < |events| ==> WriteSucceeds(events[i])
  }

  ghost predicate NeverCrashes<T>(events: seq<Event<T>>) {
    forall i :: 0 <= i < |events| ==> !events[i].Crash?
  }

  lemma {:induction false} RunIsSound<T>(o: Options, events: seq<Event<T>>, n: nat)
    requires n <= |events|
    requires AllWritesSucceed(events) || NeverCrashes(events)
    ensures Sound(o, Run(o, events, n), AllWritesSucceed(events))
  {
    hide Next, Record, Invariant, WriteSucceeds;
    if n > 0 {
      hide Sound;
      RunIsSound(o, events, n - 1);
      StepSound(o, Run(o, events, n - 1), events[n - 1], AllWritesSucceed(events));
    }
  }

  lemma {:induction false} NoCrashCounted<T>(o: Options, events: seq<Event<T>>, n: nat)
    requires n <= |events| && NeverCrashes(events)
    ensures Run(o, events, n).log.crashes == 0
  {
    hide Invariant, Next;
    if n > 0 {
      NoCrashCounted(o, events, n - 1);
    }
  }

  // Over every run in which either no journal write fails or the process never crashes, however enqueues
  // fall between the start and the end of an attempt: accepted = pending + completed + dead-lettered, and
  // no accepted job is attempted more often than the limit plus the number of crashes.
  lemma RunAccounts<T>(o: Options, events: seq<Event<T>>)
    requires AllWritesSucceed(events) || NeverCrashes(events)
    ensures var w := Run(o, events, |events|);
            && Accounted(w)
            && (forall id :: Started(w.log, id) <= Limit(o) + w.log.crashes)
            && (NeverCrashes(events) ==> w.log.crashes == 0)
  {
    hide Run, Accounted, AllWritesSucceed, NeverCrashes, Synced;
    RunIsSound(o, events, |events|);
    if NeverCrashes(events) {
      NoCrashCounted(o, events, |events|);
    }
  }

  lemma CancelBag(a: multiset<string>, b: multiset<string>, rest: multiset<string>)
    ensures a + rest == b + rest <==> a == b
  {
    if a + rest == b + rest {
      assert (a + rest) - rest == a && (b + rest) - rest == b;
    }
  }

  // A crash keeps the account exactly when the journal holds the pending ids and the two lists.
  lemma CrashLosesNothingExactly<T>(o: Options, w: World<T>)
    requires Invariant(w.relay) && Accounted(w)
    ensures Accounted(World(Next(o, w.relay, Crash), Record(o, w.relay, w.log, Crash)))
       <==> && multiset(Ids(w.relay.disk.jobs)) == multiset(Ids(w.relay.mem.jobs))
            && w.relay.disk.completedIds == w.relay.mem.completedIds
            && DeadIds(w.relay.disk.dead) == DeadIds(w.relay.mem.dead)
  {
    hide Ids, DeadIds, Newest, Bounded;
    var rest := multiset(w.log.completed) + multiset(w.log.deadLettered);
    var disk, mem := multiset(Ids(w.relay.disk.jobs)), multiset(Ids(w.relay.mem.jobs));
    CancelBag(disk, mem, rest);
    assert multiset(w.log.accepted) == mem + rest;
    assert disk + multiset(w.log.completed) + multiset(w.log.deadLettered) == disk + rest;
  }

  // ----- the class -----

  class DurableRelayQueue<T(==)> {
    const options: Options
    var jobs: seq<Job<T>>
    var completedIds: seq<string>
    var dead: seq<DeadJob<T>>
    var inFlight: Option<Flight<T>>
    var journal: Option<QueueState<T>>

    ghost function State(): Relay<T>
      reads this
    {
      Relay(QueueState(jobs, completedIds, dead), inFlight,
            if journal.Some? then journal.value else Empty())
    }

    // A new process over what the last one left on disk.
    constructor (options: Options, left: Option<QueueState<T>>)
      ensures this.options == options && journal == left
      ensures forall before: Relay<T> :: before.disk == (if left.Some? then left.value else Empty())
                ==> State() == CrashStep(before)
    {
      this.options := options;
      journal := left;
      inFlight := None;
      if left.Some? {
        jobs, completedIds, dead := left.value.jobs, left.value.completedIds, left.value.dead;
      } else {
        jobs, completedIds, dead := [], [], [];
      }
    }

    method Save(ok: bool)
      modifies this`journal
      ensures State() == Persist(old(State()), ok)
    {
      if ok {
        journal := Some(QueueState(jobs, completedIds, dead));
      }
    }

    method Add(id: string, payload: T, now: int, ok: bool) returns (accepted: bool)
      modifies this
      ensures State() == EnqueueStep(old(State()), id, payload, now, ok)
      ensures accepted == !Seen(old(State()).mem, id)
    {
      if Seen(QueueState(jobs, completedIds, dead), id) {
        return false;
      }
      jobs := jobs + [Job(id, payload, 0, now, None)];
      Save(ok);
      return true;
    }

    method PumpStart(now: int) returns (handed: Option<Job<T>>)
      modifies this
      ensures State() == BeginStep(old(State()), now)
      ensures handed.Some? <==> old(inFlight).None? && exists i :: 0 <= i < |old(jobs)| && old(jobs)[i].nextAttemptAtMs <= now
    {
      var due := DueIndex(jobs, now);
      if due.None? || inFlight.Some? {
        return None;
      }
      var job := jobs[due.value];
      job := job.(attempts := job.attempts + 1);
      jobs := jobs[due.value := job];
      inFlight := Some(Flight(due.value, job));
      return Some(job);
    }

    method PumpResolved(ok: bool)
      requires Invariant(State()) && inFlight.Some?
      modifies this
      ensures State() == SucceedStep(old(State()), ok) && Invariant(State())
    {
      hide AllDistinct, Ids, DeadIds, IdBag, EnqueueStep, BeginStep, FailStep, CrashStep, Without;
      NextKeeps(options, State(), Resolve(ok));
      var f := inFlight.value;
      jobs := Without(jobs, f.dueIndex);
      completedIds := completedIds + [f.job.id];
      if |completedIds| > MAX_COMPLETED_IDS {
        completedIds := completedIds[|completedIds| - MAX_COMPLETED_IDS..];
      }
      inFlight := None;
      Save(ok);
    }

    method PumpRejected(message: string, now: int, ok: bool)
      requires Invariant(State()) && inFlight.Some?
      modifies this
      ensures State() == FailStep(options, old(State()), message, now, ok) && Invariant(State())
    {
      hide AllDistinct, Ids, DeadIds, IdBag, EnqueueStep, BeginStep, SucceedStep, CrashStep, Without, Backoff;
      NextKeeps(options, State(), Reject(message, now, ok));
      var f := inFlight.value;
      if f.job.attempts >= options.maxAttempts {
        jobs := Without(jobs, f.dueIndex);
        dead := dead + [DeadJob(f.job, message)];
        assert |dead| - 1 <= MAX_DEAD_JOBS;
        if |dead| > MAX_DEAD_JOBS {
          dead := dead[1..];
        }
      } else {
        var job := f.job.(nextAttemptAtMs := now + Backoff(options, f.job.attempts), lastError := Some(message));
        jobs := jobs[f.dueIndex := job];
      }
      inFlight := None;
      Save(ok);
    }
  }
}
