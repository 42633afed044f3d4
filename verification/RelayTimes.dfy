/** When attempts of the relay queue of relayer/queue.ts start, and with what: no job before it is due, none
    that was not accepted, over runs in which writes fail and the process crashes at any point. */
module RelayTimes {
  import opened Text
  import opened RelayQueue
  import opened RelayRuns

  // The queue after the first n events.
  ghost function RelayAt<T>(o: Options, events: seq<Event<T>>, n: nat): Relay<T>
    requires n <= |events|
  {
    Run(o, events, n).relay
  }

  // Event j accepted the job: its id was not known then.
  ghost predicate AcceptedAt<T>(o: Options, events: seq<Event<T>>, j: nat, job: Job<T>)
    requires j < |events|
  {
    && events[j].Enqueue? && events[j].id == job.id && events[j].payload == job.payload
    && !Seen(RelayAt(o, events, j).mem, job.id)
  }

  // Event j is the rejection of this job's attempt.
  ghost predicate RejectedAt<T>(o: Options, events: seq<Event<T>>, j: nat, id: string, attempts: nat)
    requires j < |events|
  {
    var flight := RelayAt(o, events, j).inFlight;
    events[j].Reject? && flight.Some? && flight.value.job.id == id && flight.value.job.attempts == attempts
  }

  // Event j set the time the job is due: its acceptance, or a rejection and the wait after it.
  ghost predicate DueFrom<T>(o: Options, events: seq<Event<T>>, j: nat, job: Job<T>)
    requires j < |events|
  {
    || (AcceptedAt(o, events, j, job) && job.nextAttemptAtMs == events[j].now && job.lastError == None)
    || (exists a: nat :: RejectedAt(o, events, j, job.id, a) && 1 <= a < o.maxAttempts
                         && job.nextAttemptAtMs == events[j].now + Backoff(o, a) && job.lastError == Some(events[j].message))
  }

  ghost predicate Explained<T>(o: Options, events: seq<Event<T>>, n: nat, job: Job<T>)
    requires n <= |events|
  {
    && (exists j: nat | j < n :: AcceptedAt(o, events, j, job))
    && (exists j: nat | j < n :: DueFrom(o, events, j, job))
  }

  // A dead letter is an accepted job whose last allowed attempt was rejected with this error.
  ghost predicate DeadExplained<T>(o: Options, events: seq<Event<T>>, n: nat, d: DeadJob<T>)
    requires n <= |events|
  {
    && d.job.attempts >= o.maxAttempts
    && (exists j: nat | j < n :: AcceptedAt(o, events, j, d.job))
    && (exists j: nat | j < n :: RejectedAt(o, events, j, d.job.id, d.job.attempts) && d.error == events[j].message)
  }

  ghost predicate JobsExplained<T>(o: Options, events: seq<Event<T>>, n: nat, jobs: seq<Job<T>>)
    requires n <= |events|
  {
    forall i :: 0 <= i < |jobs| ==> Explained(o, events, n, jobs[i])
  }

  ghost predicate LettersExplained<T>(o: Options, events: seq<Event<T>>, n: nat, dead: seq<DeadJob<T>>)
    requires n <= |events|
  {
    forall i :: 0 <= i < |dead| ==> DeadExplained(o, events, n, dead[i])
  }

  ghost predicate AllExplained<T>(o: Options, events: seq<Event<T>>, n: nat, q: QueueState<T>)
    requires n <= |events|
  {
    JobsExplained(o, events, n, q.jobs) && LettersExplained(o, events, n, q.dead)
  }

  lemma ExplainedOn<T>(o: Options, events: seq<Event<T>>, n: nat, job: Job<T>)
    requires n < |events| && Explained(o, events, n, job)
    ensures Explained(o, events, n + 1, job)
  {
    hide AcceptedAt, DueFrom;
    var i: nat :| i < n && AcceptedAt(o, events, i, job);
    var j: nat :| j < n && DueFrom(o, events, j, job);
    assert i < n + 1 && j < n + 1;
  }

  lemma DeadExplainedOn<T>(o: Options, events: seq<Event<T>>, n: nat, d: DeadJob<T>)
    requires n < |events| && DeadExplained(o, events, n, d)
    ensures DeadExplained(o, events, n + 1, d)
  {
    hide AcceptedAt, RelayAt;
    var i: nat :| i < n && AcceptedAt(o, events, i, d.job);
    var j: nat :| j < n && RejectedAt(o, events, j, d.job.id, d.job.attempts) && d.error == events[j].message;
    assert i < n + 1 && j < n + 1;
  }

  lemma AllExplainedOn<T>(o: Options, events: seq<Event<T>>, n: nat, q: QueueState<T>)
    requires n < |events| && AllExplained(o, events, n, q)
    ensures AllExplained(o, events, n + 1, q)
  {
    hide Explained, DeadExplained;
    forall i | 0 <= i < |q.jobs| ensures Explained(o, events, n + 1, q.jobs[i]) {
      ExplainedOn(o, events, n, q.jobs[i]);
    }
    forall i | 0 <= i < |q.dead| ensures DeadExplained(o, events, n + 1, q.dead[i]) {
      DeadExplainedOn(o, events, n, q.dead[i]);
    }
  }

  // The job with one more attempt is due when the job was.
  lemma SameDue<T>(o: Options, events: seq<Event<T>>, n: nat, job: Job<T>, again: Job<T>)
    requires n <= |events| && Explained(o, events, n, job) && again == job.(attempts := again.attempts)
    ensures Explained(o, events, n, again)
  {
    hide RelayAt, Backoff;
    var i: nat :| i < n && AcceptedAt(o, events, i, job);
    var j: nat :| j < n && DueFrom(o, events, j, job);
    assert AcceptedAt(o, events, i, again);
    assert DueFrom(o, events, j, again);
  }

  lemma NewExplained<T>(o: Options, events: seq<Event<T>>, n: nat)
    requires n < |events| && events[n].Enqueue? && !Seen(RelayAt(o, events, n).mem, events[n].id)
    ensures Explained(o, events, n + 1, Job(events[n].id, events[n].payload, 0, events[n].now, None))
  {
    hide RelayAt;
    var job := Job(events[n].id, events[n].payload, 0, events[n].now, None);
    assert AcceptedAt(o, events, n, job);
    assert DueFrom(o, events, n, job);
  }

  lemma RetryExplained<T>(o: Options, events: seq<Event<T>>, n: nat, job: Job<T>)
    requires n < |events| && RejectedAt(o, events, n, job.id, job.attempts) && 1 <= job.attempts < o.maxAttempts
    requires Explained(o, events, n, job)
    ensures Explained(o, events, n + 1, job.(nextAttemptAtMs := events[n].now + Backoff(o, job.attempts),
                                             lastError := Some(events[n].message)))
  {
    hide RelayAt, Backoff;
    var later := job.(nextAttemptAtMs := events[n].now + Backoff(o, job.attempts), lastError := Some(events[n].message));
    var i: nat :| i < n && AcceptedAt(o, events, i, job);
    assert AcceptedAt(o, events, i, later);
    assert DueFrom(o, events, n, later);
  }

  lemma LetterExplained<T>(o: Options, events: seq<Event<T>>, n: nat, job: Job<T>)
    requires n < |events| && RejectedAt(o, events, n, job.id, job.attempts) && job.attempts >= o.maxAttempts
    requires Explained(o, events, n, job)
    ensures DeadExplained(o, events, n + 1, DeadJob(job, events[n].message))
  {
    hide AcceptedAt, RejectedAt, DueFrom;
    var i: nat :| i < n && AcceptedAt(o, events, i, job);
    assert RejectedAt(o, events, n, job.id, job.attempts);
  }

  lemma UpdatedExplained<T>(o: Options, events: seq<Event<T>>, n: nat, jobs: seq<Job<T>>, i: nat, job: Job<T>)
    requires n <= |events| && i < |jobs| && JobsExplained(o, events, n, jobs) && Explained(o, events, n, job)
    ensures JobsExplained(o, events, n, jobs[i := job])
    ensures JobsExplained(o, events, n, Without(jobs, i))
  {
    hide Explained;
  }

  lemma AppendedExplained<T>(o: Options, events: seq<Event<T>>, n: nat, jobs: seq<Job<T>>, job: Job<T>)
    requires n <= |events| && JobsExplained(o, events, n, jobs) && Explained(o, events, n, job)
    ensures JobsExplained(o, events, n, jobs + [job])
  {
    hide Explained;
  }

  lemma LetterAppended<T>(o: Options, events: seq<Event<T>>, n: nat, dead: seq<DeadJob<T>>, d: DeadJob<T>)
    requires n <= |events| && LettersExplained(o, events, n, dead) && DeadExplained(o, events, n, d)
    ensures LettersExplained(o, events, n, Newest(dead + [d], MAX_DEAD_JOBS))
  {
    hide DeadExplained;
  }

  lemma JobExplained<T>(o: Options, events: seq<Event<T>>, n: nat, jobs: seq<Job<T>>, i: nat)
    requires n <= |events| && i < |jobs| && JobsExplained(o, events, n, jobs)
    ensures Explained(o, events, n, jobs[i])
  {}

  lemma EnqueueExplains<T>(o: Options, events: seq<Event<T>>, n: nat)
    requires n < |events| && events[n].Enqueue? && AllExplained(o, events, n + 1, RelayAt(o, events, n).mem)
    ensures var e := events[n]; AllExplained(o, events, n + 1, EnqueueStep(RelayAt(o, events, n), e.id, e.payload, e.now, e.ok).mem)
  {
    hide RelayAt, JobsExplained, LettersExplained, Explained, Seen;
    var r, e := RelayAt(o, events, n), events[n];
    if !Seen(r.mem, e.id) {
      NewExplained(o, events, n);
      AppendedExplained(o, events, n + 1, r.mem.jobs, Job(e.id, e.payload, 0, e.now, None));
    }
  }

  lemma BeginExplains<T>(o: Options, events: seq<Event<T>>, n: nat)
    requires n < |events| && events[n].Begin? && AllExplained(o, events, n + 1, RelayAt(o, events, n).mem)
    ensures AllExplained(o, events, n + 1, BeginStep(RelayAt(o, events, n), events[n].now).mem)
  {
    hide RelayAt, JobsExplained, LettersExplained, Explained, DueIndex;
    var r, e := RelayAt(o, events, n), events[n];
    var due := DueIndex(r.mem.jobs, e.now);
    if due.Some? {
      var job := r.mem.jobs[due.value];
      JobExplained(o, events, n + 1, r.mem.jobs, due.value);
      SameDue(o, events, n + 1, job, job.(attempts := job.attempts + 1));
      UpdatedExplained(o, events, n + 1, r.mem.jobs, due.value, job.(attempts := job.attempts + 1));
    }
  }

  lemma SettleExplains<T>(o: Options, events: seq<Event<T>>, n: nat)
    requires n < |events| && (events[n].Resolve? || events[n].Reject?)
    requires Invariant(RelayAt(o, events, n)) && RelayAt(o, events, n).inFlight.Some?
    requires AllExplained(o, events, n, RelayAt(o, events, n).mem) && AllExplained(o, events, n + 1, RelayAt(o, events, n).mem)
    ensures AllExplained(o, events, n + 1, Next(o, RelayAt(o, events, n), events[n]).mem)
  {
    hide RelayAt, JobsExplained, LettersExplained, Explained, DeadExplained, Bounded, Without, Newest, Backoff;
    var r, e := RelayAt(o, events, n), events[n];
    var f := r.inFlight.value;
    JobExplained(o, events, n, r.mem.jobs, f.dueIndex);
    JobExplained(o, events, n + 1, r.mem.jobs, f.dueIndex);
    UpdatedExplained(o, events, n + 1, r.mem.jobs, f.dueIndex, f.job);
    if e.Reject? {
      assert RejectedAt(o, events, n, f.job.id, f.job.attempts);
      if f.job.attempts >= o.maxAttempts {
        LetterExplained(o, events, n, f.job);
        LetterAppended(o, events, n + 1, r.mem.dead, DeadJob(f.job, e.message));
      } else {
        RetryExplained(o, events, n, f.job);
        var later := f.job.(nextAttemptAtMs := e.now + Backoff(o, f.job.attempts), lastError := Some(e.message));
        UpdatedExplained(o, events, n + 1, r.mem.jobs, f.dueIndex, later);
      }
    }
  }

  lemma StepExplains<T>(o: Options, events: seq<Event<T>>, n: nat)
    requires n < |events| && Invariant(RelayAt(o, events, n))
    requires AllExplained(o, events, n, RelayAt(o, events, n).mem) && AllExplained(o, events, n, RelayAt(o, events, n).disk)
    ensures var t := Next(o, RelayAt(o, events, n), events[n]);
            AllExplained(o, events, n + 1, t.mem) && AllExplained(o, events, n + 1, t.disk)
  {
    var r, e := RelayAt(o, events, n), events[n];
    AllExplainedOn(o, events, n, r.mem);
    AllExplainedOn(o, events, n, r.disk);
    NextWrites(o, r, e);
    match e
    case Enqueue(_, _, _, _) => EnqueueExplains(o, events, n);
      hide RelayAt, EnqueueStep, AllExplained, Invariant;
    case Begin(_) => BeginExplains(o, events, n);
      hide RelayAt, BeginStep, AllExplained, Invariant;
    case Crash =>
      hide RelayAt, AllExplained, Invariant;
    case _ =>
      if r.inFlight.Some? { SettleExplains(o, events, n); }
      hide RelayAt, SucceedStep, FailStep, AllExplained, Invariant;
  }

  // What is on disk after an event was there before, or is what memory holds after it.
  lemma NextWrites<T>(o: Options, r: Relay<T>, e: Event<T>)
    requires Invariant(r)
    ensures var t := Next(o, r, e); t.disk == r.disk || t.disk == t.mem
  {
    hide Bounded, Seen, DueIndex, Without, Newest, Backoff;
  }

  lemma {:induction false} RunExplains<T>(o: Options, events: seq<Event<T>>, n: nat)
    requires n <= |events|
    ensures AllExplained(o, events, n, RelayAt(o, events, n).mem) && AllExplained(o, events, n, RelayAt(o, events, n).disk)
  {
    hide RelayAt, Next, AllExplained, Invariant;
    if n > 0 {
      RunExplains(o, events, n - 1);
      RelayNext(o, events, n - 1);
      StepExplains(o, events, n - 1);
    } else {
      NothingYet(o, events);
    }
  }

  lemma RelayNext<T>(o: Options, events: seq<Event<T>>, n: nat)
    requires n < |events|
    ensures Invariant(RelayAt(o, events, n)) && RelayAt(o, events, n + 1) == Next(o, RelayAt(o, events, n), events[n])
  {
    hide Next, Record, Invariant;
  }

  lemma NothingYet<T>(o: Options, events: seq<Event<T>>)
    ensures AllExplained(o, events, 0, RelayAt(o, events, 0).mem) && AllExplained(o, events, 0, RelayAt(o, events, 0).disk)
  {
    hide Next, Record, Explained, DeadExplained, Invariant;
    assert RelayAt(o, events, 0) == Relay(Empty(), None, Empty());
  }

  // Over every run: an attempt starts for an accepted job, with the payload it was accepted with, not before
  // that time, and after a rejection on record not before the wait that followed it is over.
  lemma AttemptsWait<T>(o: Options, events: seq<Event<T>>, k: nat)
    requires k < |events| && RelayAt(o, events, k).inFlight.None? && RelayAt(o, events, k + 1).inFlight.Some?
    ensures var job := RelayAt(o, events, k + 1).inFlight.value.job;
            && events[k].Begin? && job.nextAttemptAtMs <= events[k].now
            && Explained(o, events, k, job)
  {
    hide RelayAt, Explained, JobsExplained, LettersExplained, Bounded, DueIndex, Seen, Without, Newest, Backoff;
    RunExplains(o, events, k);
    RelayNext(o, events, k);
    var r, e := RelayAt(o, events, k), events[k];
    if e.Begin? {
      var due := DueIndex(r.mem.jobs, e.now);
      if due.Some? {
        var job := r.mem.jobs[due.value];
        JobExplained(o, events, k, r.mem.jobs, due.value);
        SameDue(o, events, k, job, job.(attempts := job.attempts + 1));
      }
    }
  }

  // Over every run: a dead letter is an accepted job that was rejected in its last allowed attempt.
  lemma DeadLettersExhausted<T>(o: Options, events: seq<Event<T>>, i: nat)
    requires i < |RelayAt(o, events, |events|).mem.dead|
    ensures DeadExplained(o, events, |events|, RelayAt(o, events, |events|).mem.dead[i])
  {
    hide Explained, DeadExplained, RelayAt;
    RunExplains(o, events, |events|);
  }
}
