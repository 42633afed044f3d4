/** The emergency unlock of contracts-stellar/src/lib.rs for one vault: enabling, the random delay, and
    when documents are released, over whole runs. */
module Emergency {
  import opened Text
  import opened Ledger

  const BASE_DELAY := 600
  const DEFAULT_JITTER_WINDOW := 3600
  const MIN_JITTER_WINDOW := 300
  const MAX_JITTER_WINDOW := 604800
  const CONFIRMATIONS := 3
  const SEQUENCE_DELTA := 256
  const SECONDS_PER_LEDGER := 5
  const BASE_LEDGERS := BASE_DELAY / SECONDS_PER_LEDGER
  const DAY := 86400
  const POST_DEATH_SEQUENCE_DELTA := 256

  datatype Schedule = Schedule(cycle: nat, requestSequence: nat, fulfilled: bool,
                               unlockAt: nat, unlockSequence: nat, jitter: nat)

  // What the storage holds for one vault: its record, schedule, cycle (absent: 0), jitter window and keeper.
  datatype Record = Record(creator: Address, isActive: bool, emergencyMode: bool, inactivityPeriod: nat,
                           lastProof: nat, lastProofSequence: nat)
  datatype Grant = Grant(keeper: Address, expiresAt: nat)
  datatype UnlockState = UnlockState(record: Record, schedule: Option<Schedule>, cycle: nat, window: Option<nat>,
                                     grant: Option<Grant>)

  datatype Condition = Anytime | LiveOnly | EmergencyOnly | PostDeathOnly

  function Min(a: nat, b: nat): nat {
    if a < b then a else b
  }

  function SaturatingAdd(a: nat, b: nat, max: nat): nat {
    Min(a + b, max)
  }

  // ----- transitions -----

  datatype Op =
    | SetMode(owner: Address, enabled: bool)
    | SetWindow(owner: Address, jitterWindow: nat)
    | Fulfill(word: nat)
    | ProveLife(owner: Address)
    | AuthorizeKeeper(owner: Address, keeper: Address, expiresAt: nat)
    | RevokeKeeper(owner: Address)
    | KeeperProof(keeper: Address)
    | SyncProof(timestamp: nat, authentic: bool)  // authentic: sent by the bound relayer, signed by the bound owner
    | Configure(owner: Address, inactivityPeriod: nat)
    | Deactivate(owner: Address)

  function Start(creator: Address, now: Time): UnlockState {
    UnlockState(Record(creator, true, false, 30 * DAY, now.timestamp, now.sequence), None, 0, None, None)
  }

  function SetModeStep(s: UnlockState, owner: Address, enabled: bool, now: Time): Outcome<UnlockState> {
    if s.record.creator != owner || !s.record.isActive then Reverted
    else
      var record := s.record.(emergencyMode := enabled);
      if !enabled then Done(s.(record := record, schedule := None))
      else if s.schedule.Some? && !s.schedule.value.fulfilled then Reverted
      else
        var cycle := SaturatingAdd(s.cycle, 1, U64_MAX);
        Done(s.(record := record, cycle := cycle, schedule := Some(Schedule(cycle, now.sequence, false, 0, 0, 0))))
  }

  function SetWindowStep(s: UnlockState, owner: Address, jitterWindow: nat): Outcome<UnlockState> {
    if s.record.creator != owner || !(MIN_JITTER_WINDOW <= jitterWindow <= MAX_JITTER_WINDOW) then Reverted
    else Done(s.(window := Some(jitterWindow)))
  }

  function WindowOf(s: UnlockState): nat {
    if s.window.Some? then s.window.value else DEFAULT_JITTER_WINDOW
  }

  // The drawn delay in seconds, and in ledgers as a 32-bit number.
  function Jitter(word: nat, window: nat): (r: nat)
    requires window > 0
    ensures r < window
  {
    word % window
  }

  function ExtraLedgers(jitter: nat): (r: nat)
    ensures jitter <= MAX_JITTER_WINDOW ==> r == jitter / SECONDS_PER_LEDGER
  {
    jitter / SECONDS_PER_LEDGER % (U32_MAX + 1)
  }

  // The random word is an arbitrary 64-bit value; sums that leave 32 or 64 bits panic.
  function FulfillStep(s: UnlockState, word: nat, now: Time): Outcome<UnlockState> {
    if !s.record.emergencyMode || s.schedule.None? || s.schedule.value.fulfilled then Reverted
    else
      var schedule, window := s.schedule.value, WindowOf(s);
      if schedule.cycle != s.cycle || schedule.cycle == 0 then Reverted
      else if schedule.requestSequence + CONFIRMATIONS > U32_MAX
              || now.sequence < schedule.requestSequence + CONFIRMATIONS || window == 0 then Reverted
      else
        var jitter := Jitter(word, window);
        var extra := ExtraLedgers(jitter);
        if now.timestamp + BASE_DELAY + jitter > U64_MAX then Reverted
        else
          var sequence := SaturatingAdd(SaturatingAdd(SaturatingAdd(now.sequence, BASE_LEDGERS, U32_MAX),
                                                      SEQUENCE_DELTA, U32_MAX), extra, U32_MAX);
          Done(s.(schedule := Some(schedule.(fulfilled := true, jitter := jitter,
                                             unlockAt := now.timestamp + BASE_DELAY + jitter,
                                             unlockSequence := sequence))))
  }

  // A proof of life that stands for a moment, recorded now.
  function Proved(s: UnlockState, timestamp: nat, now: Time): UnlockState {
    s.(record := s.record.(lastProof := timestamp, lastProofSequence := now.sequence))
  }

  function Step(s: UnlockState, op: Op, now: Time): Outcome<UnlockState> {
    match op
    case SetMode(owner, enabled) => SetModeStep(s, owner, enabled, now)
    case SetWindow(owner, jitterWindow) => SetWindowStep(s, owner, jitterWindow)
    case Fulfill(word) => FulfillStep(s, word, now)
    case ProveLife(owner) =>
      if s.record.creator != owner || !s.record.isActive then Reverted
      else Done(Proved(s, now.timestamp, now))
    case AuthorizeKeeper(owner, keeper, expiresAt) =>
      if s.record.creator != owner || !s.record.isActive || expiresAt <= now.timestamp then Reverted
      else Done(s.(grant := Some(Grant(keeper, expiresAt))))
    case RevokeKeeper(owner) =>
      if s.record.creator != owner then Reverted else Done(s.(grant := None))
    case KeeperProof(keeper) =>
      if !s.record.isActive || s.grant.None? || s.grant.value.keeper != keeper
         || now.timestamp >= s.grant.value.expiresAt then Reverted
      else Done(Proved(s, now.timestamp, now))
    case SyncProof(timestamp, authentic) =>
      if !authentic || timestamp <= s.record.lastProof || timestamp > SaturatingAdd(now.timestamp, 300, U64_MAX) then Reverted
      else Done(Proved(s, timestamp, now))
    case Configure(owner, inactivityPeriod) =>
      if s.record.creator != owner || !s.record.isActive || !(DAY <= inactivityPeriod <= 365 * DAY) then Reverted
      else Done(s.(record := s.record.(inactivityPeriod := inactivityPeriod)))
    case Deactivate(owner) =>
      if s.record.creator != owner || !s.record.isActive then Reverted
      else Done(s.(record := s.record.(isActive := false)))
  }

  // ----- release -----

  predicate IsDead(r: Record, now: Time) {
    && now.timestamp >= r.lastProof + r.inactivityPeriod
    && now.sequence >= r.lastProofSequence + POST_DEATH_SEQUENCE_DELTA
  }

  predicate IsMature(s: UnlockState, now: Time) {
    && s.schedule.Some? && s.schedule.value.fulfilled
    && now.timestamp >= s.schedule.value.unlockAt && now.sequence >= s.schedule.value.unlockSequence
  }

  // Whether a document under a condition can be requested; an overflowing sum panics.
  function Released(s: UnlockState, condition: Condition, now: Time): Outcome<bool> {
    if condition.Anytime? then Done(true)
    else if s.record.lastProof + s.record.inactivityPeriod > U64_MAX
            || s.record.lastProofSequence + POST_DEATH_SEQUENCE_DELTA > U32_MAX then Reverted
    else
      var dead := IsDead(s.record, now);
      match condition
      case LiveOnly => Done(!dead)
      case EmergencyOnly => Done(dead || (s.record.emergencyMode && IsMature(s, now)))
      case PostDeathOnly => Done(dead)
  }

  // ----- runs -----

  // When the current enabling, its fulfilment and the last proof of life happened, the moment that proof stands
  // for, the inactivity period last configured, the window read at fulfilment, and how often emergency mode was
  // enabled.
  datatype History = History(enabledAt: Time, fulfilledAt: Time, usedWindow: nat, provedAt: Time, provedFor: nat,
                             period: nat, enablings: nat)

  datatype World = World(state: UnlockState, history: History, now: Time)

  datatype Call = Call(op: Op, at: Time)

  function Remember(h: History, before: UnlockState, c: Call): History {
    if Step(before, c.op, c.at).Reverted? then h else
      match c.op
      case SetMode(_, enabled) => if enabled then h.(enabledAt := c.at, enablings := h.enablings + 1) else h
      case Fulfill(_) => h.(fulfilledAt := c.at, usedWindow := WindowOf(before))
      case ProveLife(_) => h.(provedAt := c.at, provedFor := c.at.timestamp)
      case KeeperProof(_) => h.(provedAt := c.at, provedFor := c.at.timestamp)
      case SyncProof(timestamp, _) => h.(provedAt := c.at, provedFor := timestamp)
      case Configure(_, period) => h.(period := period)
      case _ => h
  }

  function Run(creator: Address, created: Time, calls: seq<Call>, n: nat): World
    requires n <= |calls|
  {
    if n == 0 then Begin(creator, created)
    else
      Advance(Run(creator, created, calls, n - 1), calls[n - 1])
  }

  // One call.
  function Advance(w: World, c: Call): World {
    World(After(w.state, Step(w.state, c.op, c.at)), Remember(w.history, w.state, c), c.at)
  }

  function Begin(creator: Address, created: Time): World {
    World(Start(creator, created), History(created, created, 0, created, created.timestamp, 30 * DAY, 0), created)
  }

  // Ledger time and sequence never go backwards, and the sequence is a 32-bit number.
  ghost predicate Chronological(created: Time, calls: seq<Call>) {
    && (|calls| > 0 ==> NotBefore(calls[0].at, created))
    && (forall i :: 0 < i < |calls| ==> NotBefore(calls[i].at, calls[i - 1].at))
  }

  // ----- invariants -----

  ghost predicate ScheduleHolds(s: Schedule, cycle: nat, h: History, now: Time) {
    && s.cycle == cycle >= 1
    && s.requestSequence == h.enabledAt.sequence && NotBefore(now, h.enabledAt)
    && (s.fulfilled ==>
          && NotBefore(now, h.fulfilledAt) && NotBefore(h.fulfilledAt, h.enabledAt)
          && h.fulfilledAt.sequence >= h.enabledAt.sequence + CONFIRMATIONS
          && s.jitter < h.usedWindow <= MAX_JITTER_WINDOW
          && s.unlockAt == h.fulfilledAt.timestamp + BASE_DELAY + s.jitter
          && s.unlockSequence == Min(U32_MAX, h.fulfilledAt.sequence + BASE_LEDGERS + SEQUENCE_DELTA + s.jitter / SECONDS_PER_LEDGER))
  }

  ghost predicate Invariant(w: World) {
    && (w.state.record.emergencyMode <==> w.state.schedule.Some?)
    && (w.state.schedule.Some? ==> ScheduleHolds(w.state.schedule.value, w.state.cycle, w.history, w.now))
    && (w.state.window.Some? ==> MIN_JITTER_WINDOW <= w.state.window.value <= MAX_JITTER_WINDOW)
    && w.state.cycle == Min(U64_MAX, w.history.enablings)
    && w.state.record.lastProof == w.history.provedFor
    && DAY <= w.state.record.inactivityPeriod == w.history.period <= 365 * DAY
    && w.state.record.lastProofSequence == w.history.provedAt.sequence && NotBefore(w.now, w.history.provedAt)
  }

  lemma SaturatedSum(a: nat, b: nat, c: nat, max: nat)
    ensures SaturatingAdd(SaturatingAdd(a, b, max), c, max) == Min(max, a + b + c)
  {}

  lemma FulfillKeeps(w: World, word: nat, at: Time)
    requires Invariant(w) && NotBefore(at, w.now)
    ensures var c := Call(Fulfill(word), at);
            Invariant(World(After(w.state, Step(w.state, c.op, at)), Remember(w.history, w.state, c), at))
  {
    hide Jitter, ExtraLedgers;
    var o := FulfillStep(w.state, word, at);
    if o.Done? {
      var s := o.state.schedule.value;
      SaturatedSum(SaturatingAdd(at.sequence, BASE_LEDGERS, U32_MAX), SEQUENCE_DELTA, s.jitter / SECONDS_PER_LEDGER, U32_MAX);
    }
  }

  lemma SetModeKeeps(w: World, c: Call)
    requires Invariant(w) && NotBefore(c.at, w.now) && c.op.SetMode?
    ensures Invariant(Advance(w, c))
  {
    hide FulfillStep, SetWindowStep;
  }

  lemma ScheduleLater(s: Schedule, cycle: nat, h: History, now: Time, later: Time)
    requires ScheduleHolds(s, cycle, h, now) && NotBefore(later, now)
    ensures ScheduleHolds(s, cycle, h, later)
  {}

  lemma OthersKeep(w: World, c: Call)
    requires Invariant(w) && NotBefore(c.at, w.now) && !c.op.SetMode? && !c.op.Fulfill?
    ensures Invariant(Advance(w, c))
  {
    var h := Remember(w.history, w.state, c);
    if w.state.schedule.Some? {
      ScheduleLater(w.state.schedule.value, w.state.cycle, w.history, w.now, c.at);
      assert ScheduleHolds(w.state.schedule.value, w.state.cycle, h, c.at);
    }
    hide ScheduleHolds, FulfillStep, SetModeStep;
  }

  lemma StepKeeps(w: World, c: Call)
    requires Invariant(w) && NotBefore(c.at, w.now)
    ensures Invariant(Advance(w, c))
  {
    hide Invariant, Step, Remember;
    if c.op.Fulfill? {
      FulfillKeeps(w, c.op.word, c.at);
    } else if c.op.SetMode? {
      SetModeKeeps(w, c);
    } else {
      OthersKeep(w, c);
    }
  }

  // In every reachable state emergency mode holds exactly when a schedule exists, the schedule belongs to the
  // stored cycle, and the cycle is the number of times the mode was enabled.
  lemma {:induction false} RunKeeps(creator: Address, created: Time, calls: seq<Call>, n: nat)
    requires n <= |calls| && Chronological(created, calls)
    ensures Invariant(Run(creator, created, calls, n))
    ensures Run(creator, created, calls, n).now == if n == 0 then created else calls[n - 1].at
  {
    if n > 0 {
      hide Invariant, Step, Remember;
      RunKeeps(creator, created, calls, n - 1);
      StepKeeps(Run(creator, created, calls, n - 1), calls[n - 1]);
    }
  }

  // Each enabling starts a new cycle, one above every earlier one, until the counter is full; nothing else does.
  lemma CycleGrows(s: UnlockState, op: Op, now: Time)
    requires Step(s, op, now).Done? && s.cycle < U64_MAX
    ensures Step(s, op, now).state.cycle == s.cycle + if op.SetMode? && op.enabled then 1 else 0
  {
    hide FulfillStep;
    if op.Fulfill? { FulfillMovesOnlySchedule(s, op.word, now); }
  }

  lemma FulfillMovesOnlySchedule(s: UnlockState, word: nat, now: Time)
    ensures FulfillStep(s, word, now).Done? ==>
              FulfillStep(s, word, now).state == s.(schedule := FulfillStep(s, word, now).state.schedule)
  {}

  // The drawn delay stands: a fulfilled schedule changes only by switching the mode.
  lemma DrawnDelayStands(s: UnlockState, op: Op, now: Time)
    requires s.schedule.Some? && s.schedule.value.fulfilled && !op.SetMode?
    ensures After(s, Step(s, op, now)).schedule == s.schedule
  {}

  // The owner counts as dead: a whole inactivity period after the moment the last proof of life stands for, and
  // 256 ledgers after it was recorded.
  ghost predicate Silent(h: History, now: Time) {
    now.timestamp >= h.provedFor + h.period && now.sequence >= h.provedAt.sequence + POST_DEATH_SEQUENCE_DELTA
  }

  // The full delay since the current enabling has passed, in ledgers and in seconds, jitter included.
  ghost predicate DelayPassed(w: World, now: Time) {
    && w.state.record.emergencyMode && w.state.schedule.Some?
    && var jitter := w.state.schedule.value.jitter;
       && jitter < w.history.usedWindow <= MAX_JITTER_WINDOW
       && now.sequence >= Min(U32_MAX, w.history.enabledAt.sequence + CONFIRMATIONS + BASE_LEDGERS
                                       + SEQUENCE_DELTA + jitter / SECONDS_PER_LEDGER)
       && now.timestamp >= w.history.enabledAt.timestamp + BASE_DELAY + jitter
  }

  lemma ReleasedAfterDelay(w: World, now: Time)
    requires Invariant(w) && NotBefore(now, w.now)
    requires !Silent(w.history, now) && Released(w.state, EmergencyOnly, now) == Done(true)
    ensures DelayPassed(w, now)
  {}

  // Over whole runs: while the owner is not dead, an emergency document is released only after that delay.
  lemma EmergencyDelay(creator: Address, created: Time, calls: seq<Call>, now: Time)
    requires Chronological(created, calls) && NotBefore(now, Run(creator, created, calls, |calls|).now)
    requires var w := Run(creator, created, calls, |calls|);
             !Silent(w.history, now) && Released(w.state, EmergencyOnly, now) == Done(true)
    ensures DelayPassed(Run(creator, created, calls, |calls|), now)
  {
    hide Run, DelayPassed, Invariant;
    RunKeeps(creator, created, calls, |calls|);
    ReleasedAfterDelay(Run(creator, created, calls, |calls|), now);
  }

  // The drawn delay of the enabling in force has passed, counted from the ledger it was drawn in.
  ghost predicate Matured(w: World, now: Time) {
    && w.state.schedule.Some? && w.state.schedule.value.fulfilled
    && var jitter := w.state.schedule.value.jitter;
       && now.timestamp >= w.history.fulfilledAt.timestamp + BASE_DELAY + jitter
       && now.sequence >= Min(U32_MAX, w.history.fulfilledAt.sequence + BASE_LEDGERS + SEQUENCE_DELTA
                                       + jitter / SECONDS_PER_LEDGER)
  }

  // In terms of what happened, when each condition releases; it panics only where the sums leave their width.
  lemma ReleasedExactly(w: World, condition: Condition, now: Time)
    requires Invariant(w)
    ensures Released(w.state, condition, now).Done?
       <==> || condition.Anytime?
            || (w.history.provedFor + w.history.period <= U64_MAX && w.history.provedAt.sequence + 256 <= U32_MAX)
    ensures Released(w.state, condition, now).Done? ==>
              (Released(w.state, condition, now).state <==>
                 match condition
                 case Anytime => true
                 case LiveOnly => !Silent(w.history, now)
                 case EmergencyOnly => Silent(w.history, now) || Matured(w, now)
                 case PostDeathOnly => Silent(w.history, now))
  {}

  // Post-mortem documents, and emergency documents without emergency mode, wait for the inactivity period, never
  // under a day, after the moment the last proof of life stands for, and 256 ledgers after it was recorded; live
  // documents are released only before.
  lemma PostDeathDelay(creator: Address, created: Time, calls: seq<Call>, condition: Condition, now: Time)
    requires Chronological(created, calls)
    requires Released(Run(creator, created, calls, |calls|).state, condition, now) == Done(true)
    ensures var w := Run(creator, created, calls, |calls|);
            && (condition.PostDeathOnly? || (condition.EmergencyOnly? && !w.state.record.emergencyMode) ==>
                  Silent(w.history, now))
            && (condition.LiveOnly? ==> !Silent(w.history, now))
            && w.history.period >= DAY
  {
    hide Run;
    RunKeeps(creator, created, calls, |calls|);
  }

  // ----- who acts -----

  // Only the creator switches, configures, proves in person, grants or withdraws; a keeper proves only under an
  // unexpired grant in its name, a heartbeat only if it is authentic, newer than the last proof and not more
  // than five minutes ahead.
  lemma WhoActs(s: UnlockState, op: Op, now: Time)
    ensures Step(s, op, now).Done? ==>
              match op
              case Fulfill(_) => true
              case KeeperProof(k) =>
                s.record.isActive && s.grant.Some? && s.grant.value.keeper == k && now.timestamp < s.grant.value.expiresAt
              case SyncProof(timestamp, authentic) =>
                authentic && s.record.lastProof < timestamp <= now.timestamp + 300
              case _ => s.record.creator == op.owner
  {
    hide FulfillStep;
  }

  // Switching the mode fails only for others than the creator, on an inactive vault, or while a delay is pending.
  lemma SwitchesExactly(s: UnlockState, owner: Address, enabled: bool, now: Time)
    ensures Step(s, SetMode(owner, enabled), now).Done?
       <==> && owner == s.record.creator && s.record.isActive
            && !(enabled && s.schedule.Some? && !s.schedule.value.fulfilled)
    ensures Step(s, SetMode(owner, enabled), now).Done? ==>
              var t := Step(s, SetMode(owner, enabled), now).state;
              t.record.emergencyMode == enabled && t.record == s.record.(emergencyMode := enabled) && t.grant == s.grant
  {}

  // Drawing the delay: anyone may, once, three ledgers after the enabling; the delay is the random word modulo
  // the window, and nothing but the schedule changes.
  lemma DrawsExactly(w: World, word: nat, now: Time)
    requires Invariant(w)
    ensures Step(w.state, Fulfill(word), now).Done?
       <==> && w.state.record.emergencyMode && !w.state.schedule.value.fulfilled
            && w.history.enabledAt.sequence + 3 <= Min(now.sequence, U32_MAX)
            && now.timestamp + 600 + word % (if w.state.window.Some? then w.state.window.value else 3600) <= U64_MAX
    ensures Step(w.state, Fulfill(word), now).Done? ==>
              var t := Step(w.state, Fulfill(word), now).state;
              && t == w.state.(schedule := t.schedule) && t.schedule.Some? && t.schedule.value.fulfilled
              && t.schedule.value.jitter == word % (if w.state.window.Some? then w.state.window.value else 3600)
  {
    hide ExtraLedgers;
  }

  // What the owner's settings need, and that each does only what it says: windows from five minutes to a week,
  // inactivity periods from a day to 365 days, grants that end in the future.
  lemma SettingsExactly(s: UnlockState, op: Op, now: Time)
    requires op.SetWindow? || op.Configure? || op.AuthorizeKeeper? || op.RevokeKeeper? || op.Deactivate?
    ensures Step(s, op, now).Done?
       <==> && op.owner == s.record.creator && (op.SetWindow? || op.RevokeKeeper? || s.record.isActive)
            && (op.SetWindow? ==> 300 <= op.jitterWindow <= 604800)
            && (op.Configure? ==> 86400 <= op.inactivityPeriod <= 31536000)
            && (op.AuthorizeKeeper? ==> now.timestamp < op.expiresAt)
    ensures var t := After(s, Step(s, op, now));
            && t.schedule == s.schedule && t.cycle == s.cycle && t.record.lastProof == s.record.lastProof
            && t.record.lastProofSequence == s.record.lastProofSequence && t.record.emergencyMode == s.record.emergencyMode
            && (if Step(s, op, now).Done? && op.SetWindow? then t.window == Some(op.jitterWindow) else t.window == s.window)
            && (if Step(s, op, now).Done? && op.Deactivate? then !t.record.isActive else t.record.isActive == s.record.isActive)
            && (if Step(s, op, now).Done? && op.Configure? then t.record.inactivityPeriod == op.inactivityPeriod
                else t.record.inactivityPeriod == s.record.inactivityPeriod)
  {}

  // A proof of life in person succeeds whenever the vault is active, and is counted from now.
  lemma ProofCounts(s: UnlockState, now: Time)
    ensures Step(s, ProveLife(s.record.creator), now).Done? <==> s.record.isActive
    ensures Step(s, ProveLife(s.record.creator), now).Done? ==>
              var t := Step(s, ProveLife(s.record.creator), now).state;
              t.record.lastProof == now.timestamp && t.record.lastProofSequence == now.sequence
              && t == s.(record := t.record)
  {}

  predicate ChangesGrant(op: Op) {
    op.AuthorizeKeeper? || op.RevokeKeeper?
  }

  // Call m was the creator's grant, and no later completed call among the first n changed it.
  ghost predicate GrantedBy(creator: Address, created: Time, calls: seq<Call>, n: nat, m: nat, g: Grant)
    requires m < n <= |calls|
  {
    && calls[m].op == AuthorizeKeeper(creator, g.keeper, g.expiresAt)
    && Step(Run(creator, created, calls, m).state, calls[m].op, calls[m].at).Done?
    && forall k :: m < k < n ==>
         !(ChangesGrant(calls[k].op) && Step(Run(creator, created, calls, k).state, calls[k].op, calls[k].at).Done?)
  }

  lemma SameCreator(w: World, c: Call)
    ensures Advance(w, c).state.record.creator == w.state.record.creator
    ensures !ChangesGrant(c.op) ==> Advance(w, c).state.grant == w.state.grant
  {
    if c.op.Fulfill? { FulfillMovesOnlySchedule(w.state, c.op.word, c.at); }
    hide FulfillStep;
  }

  lemma {:induction false} CreatorStays(creator: Address, created: Time, calls: seq<Call>, n: nat)
    requires n <= |calls|
    ensures Run(creator, created, calls, n).state.record.creator == creator
  {
    if n > 0 {
      CreatorStays(creator, created, calls, n - 1);
      SameCreator(Run(creator, created, calls, n - 1), calls[n - 1]);
    }
  }

  // The stored grant is the creator's last one.
  lemma {:induction false} GrantWasGiven(creator: Address, created: Time, calls: seq<Call>, n: nat) returns (m: nat)
    requires n <= |calls| && Run(creator, created, calls, n).state.grant.Some?
    ensures m < n && GrantedBy(creator, created, calls, n, m, Run(creator, created, calls, n).state.grant.value)
  {
    hide Step, Remember;
    var w, c := Run(creator, created, calls, n - 1), calls[n - 1];
    CreatorStays(creator, created, calls, n - 1);
    SameCreator(w, c);
    if ChangesGrant(c.op) && Step(w.state, c.op, c.at).Done? {
      m := n - 1;
      GrantSet(w.state, c.op, c.at);
    } else {
      m := GrantWasGiven(creator, created, calls, n - 1);
    }
  }

  lemma GrantSet(s: UnlockState, op: Op, now: Time)
    requires ChangesGrant(op) && Step(s, op, now).Done?
    ensures s.record.creator == op.owner
    ensures Step(s, op, now).state.grant == if op.AuthorizeKeeper? then Some(Grant(op.keeper, op.expiresAt)) else None
  {}

  // Over runs: a keeper's proof of life completes only under the creator's latest grant, which names it, has not
  // been withdrawn or replaced, and has not expired.
  lemma KeeperWasAuthorized(creator: Address, created: Time, calls: seq<Call>, i: nat) returns (m: nat, g: Grant)
    requires i < |calls| && calls[i].op.KeeperProof?
    requires Step(Run(creator, created, calls, i).state, calls[i].op, calls[i].at).Done?
    ensures m < i && GrantedBy(creator, created, calls, i, m, g)
    ensures g.keeper == calls[i].op.keeper && calls[i].at.timestamp < g.expiresAt
  {
    WhoActs(Run(creator, created, calls, i).state, calls[i].op, calls[i].at);
    hide Step, Run;
    m := GrantWasGiven(creator, created, calls, i);
    g := Run(creator, created, calls, i).state.grant.value;
  }

  // ----- storage -----

  class UnlockStorage {
    var records: map<nat, Record>
    var schedules: map<nat, Schedule>
    var cycles: map<nat, nat>
    var windows: map<nat, nat>
    var keepers: map<nat, Grant>

    ghost function View(id: nat): UnlockState
      requires id in records
      reads this
    {
      UnlockState(records[id], if id in schedules then Some(schedules[id]) else None,
                  if id in cycles then cycles[id] else 0, if id in windows then Some(windows[id]) else None,
                  if id in keepers then Some(keepers[id]) else None)
    }

    // Only the entries of one vault may differ.
    twostate predicate OnlyVault(id: nat)
      reads this
    {
      && (forall j :: j != id ==> (j in records <==> j in old(records)))
      && (id in records <==> id in old(records))
      && (forall j :: j in records && j != id ==> View(j) == old(View(j)))
    }

    method SetEmergencyMode(owner: Address, id: nat, enabled: bool, now: Time) returns (ok: bool)
      modifies this
      ensures OnlyVault(id)
      ensures id !in records ==> !ok
      ensures id in records ==>
                var o := SetModeStep(old(View(id)), owner, enabled, now);
                ok == o.Done? && View(id) == After(old(View(id)), o)
    {
      if id !in records || records[id].creator != owner || !records[id].isActive {
        return false;
      }
      if enabled {
        if id in schedules && !schedules[id].fulfilled {
          return false;
        }
        var cycle := SaturatingAdd(if id in cycles then cycles[id] else 0, 1, U64_MAX);
        cycles := cycles[id := cycle];
        schedules := schedules[id := Schedule(cycle, now.sequence, false, 0, 0, 0)];
      } else {
        schedules := schedules - {id};
      }
      records := records[id := records[id].(emergencyMode := enabled)];
      return true;
    }

    method SetEmergencyJitterWindow(owner: Address, id: nat, jitterWindow: nat) returns (ok: bool)
      modifies this`windows
      ensures OnlyVault(id)
      ensures id !in records ==> !ok
      ensures id in records ==>
                var o := SetWindowStep(old(View(id)), owner, jitterWindow);
                ok == o.Done? && View(id) == After(old(View(id)), o)
    {
      if id !in records || records[id].creator != owner {
        return false;
      }
      if jitterWindow < MIN_JITTER_WINDOW || jitterWindow > MAX_JITTER_WINDOW {
        return false;
      }
      windows := windows[id := jitterWindow];
      return true;
    }

    method FulfillEmergencyUnlockDelay(id: nat, word: nat, now: Time) returns (ok: bool)
      modifies this`schedules
      ensures OnlyVault(id)
      ensures id !in records ==> !ok
      ensures id in records ==>
                var o := FulfillStep(old(View(id)), word, now);
                ok == o.Done? && View(id) == After(old(View(id)), o)
    {
      if id !in records || !records[id].emergencyMode || id !in schedules || schedules[id].fulfilled {
        return false;
      }
      var schedule := schedules[id];
      var currentCycle := if id in cycles then cycles[id] else 0;
      if schedule.cycle != currentCycle || schedule.cycle == 0 {
        return false;
      }
      if schedule.requestSequence + CONFIRMATIONS > U32_MAX || now.sequence < schedule.requestSequence + CONFIRMATIONS {
        return false;
      }
      var window := if id in windows then windows[id] else DEFAULT_JITTER_WINDOW;
      if window == 0 {
        return false;
      }
      var jitter := word % window;
      var extraLedgers := jitter / SECONDS_PER_LEDGER % (U32_MAX + 1);
      if now.timestamp + BASE_DELAY + jitter > U64_MAX {
        return false;
      }
      var sequence := SaturatingAdd(now.sequence, BASE_LEDGERS, U32_MAX);
      sequence := SaturatingAdd(sequence, SEQUENCE_DELTA, U32_MAX);
      sequence := SaturatingAdd(sequence, extraLedgers, U32_MAX);
      schedules := schedules[id := schedule.(fulfilled := true, jitter := jitter,
                                             unlockAt := now.timestamp + BASE_DELAY + jitter,
                                             unlockSequence := sequence)];
      return true;
    }

    method RecordProofOfLife(owner: Address, id: nat, now: Time) returns (ok: bool)
      modifies this`records
      ensures OnlyVault(id)
      ensures id !in records ==> !ok
      ensures id in records ==>
                var o := Step(old(View(id)), ProveLife(owner), now);
                ok == o.Done? && View(id) == After(old(View(id)), o)
    {
      if id !in records || records[id].creator != owner || !records[id].isActive {
        return false;
      }
      records := records[id := records[id].(lastProof := now.timestamp, lastProofSequence := now.sequence)];
      return true;
    }

    method AuthorizeAKeeper(owner: Address, id: nat, keeper: Address, expiresAt: nat, now: Time) returns (ok: bool)
      modifies this`keepers
      ensures OnlyVault(id)
      ensures id !in records ==> !ok
      ensures id in records ==>
                var o := Step(old(View(id)), AuthorizeKeeper(owner, keeper, expiresAt), now);
                ok == o.Done? && View(id) == After(old(View(id)), o)
    {
      if id !in records || records[id].creator != owner || !records[id].isActive || expiresAt <= now.timestamp {
        return false;
      }
      keepers := keepers[id := Grant(keeper, expiresAt)];
      return true;
    }

    method RevokeTheKeeper(owner: Address, id: nat, now: Time) returns (ok: bool)
      modifies this`keepers
      ensures OnlyVault(id)
      ensures id !in records ==> !ok
      ensures id in records ==>
                var o := Step(old(View(id)), RevokeKeeper(owner), now);
                ok == o.Done? && View(id) == After(old(View(id)), o)
    {
      if id !in records || records[id].creator != owner {
        return false;
      }
      keepers := keepers - {id};
      return true;
    }

    method ProveLifeByKeeper(keeper: Address, id: nat, now: Time) returns (ok: bool)
      modifies this`records
      ensures OnlyVault(id)
      ensures id !in records ==> !ok
      ensures id in records ==>
                var o := Step(old(View(id)), KeeperProof(keeper), now);
                ok == o.Done? && View(id) == After(old(View(id)), o)
    {
      if id !in records || !records[id].isActive || id !in keepers || keepers[id].keeper != keeper
         || now.timestamp >= keepers[id].expiresAt {
        return false;
      }
      records := records[id := records[id].(lastProof := now.timestamp, lastProofSequence := now.sequence)];
      return true;
    }

    method SyncProofOfLife(id: nat, timestamp: nat, authentic: bool, now: Time) returns (ok: bool)
      modifies this`records
      ensures OnlyVault(id)
      ensures id !in records ==> !ok
      ensures id in records ==>
                var o := Step(old(View(id)), SyncProof(timestamp, authentic), now);
                ok == o.Done? && View(id) == After(old(View(id)), o)
    {
      if id !in records || timestamp <= records[id].lastProof || timestamp > SaturatingAdd(now.timestamp, 300, U64_MAX)
         || !authentic {
        return false;
      }
      records := records[id := records[id].(lastProof := timestamp, lastProofSequence := now.sequence)];
      return true;
    }

    method ConfigureVaultRelease(owner: Address, id: nat, inactivityPeriod: nat, now: Time) returns (ok: bool)
      modifies this`records
      ensures OnlyVault(id)
      ensures id !in records ==> !ok
      ensures id in records ==>
                var o := Step(old(View(id)), Configure(owner, inactivityPeriod), now);
                ok == o.Done? && View(id) == After(old(View(id)), o)
    {
      if id !in records || records[id].creator != owner || !records[id].isActive
         || !(DAY <= inactivityPeriod <= 365 * DAY) {
        return false;
      }
      records := records[id := records[id].(inactivityPeriod := inactivityPeriod)];
      return true;
    }
  }
}
