/** The block-cursor listener of relayer/listeners.ts and the fan-in that drops events already seen:
    what is delivered over runs in which any poll may fail at any point. */
module Listener {
  import opened Numbers
  import opened Text

  const SWEEP := 5000

  datatype AccessEvent =
    | Evm(contract: string, block: nat, index: nat)
    | Soroban(contract: string, token: string)

  // The id under which an event is deduplicated.
  function Id(e: AccessEvent): string {
    match e
    case Evm(contract, block, index) => "evm:" + contract + ":" + Print(block, 10) + ":" + Print(index, 10)
    case Soroban(contract, token) => "soroban:" + contract + ":" + token
  }

  predicate NoColon(s: string) {
    forall i :: 0 <= i < |s| ==> s[i] != ':'
  }

  lemma FirstColon(a: string, b: string, c: string, d: string)
    requires NoColon(a) && NoColon(c) && a + ":" + b == c + ":" + d
    ensures a == c && b == d
  {
    var s := a + ":" + b;
    assert forall i :: 0 <= i < |a| ==> s[i] == a[i] != ':';
    assert forall i :: 0 <= i < |c| ==> s[i] == c[i] != ':';
    assert s[|a|] == ':' && s[|c|] == ':';
    assert |a| == |c|;
    assert s[..|a|] == a && s[..|c|] == c;
    assert s[|a| + 1..] == b && s[|c| + 1..] == d;
  }

  lemma PrintInjective(m: nat, n: nat)
    requires Print(m, 10) == Print(n, 10)
    ensures m == n
  {
    hide Print, Parse, AreChars;
    ParsePrint(m, 0, 10);
    ParsePrint(n, 0, 10);
    assert PadStart(Print(m, 10), 0) == Print(m, 10) && PadStart(Print(n, 10), 0) == Print(n, 10);
  }

  lemma PrintNoColon(n: nat)
    ensures NoColon(Print(n, 10))
  {
    hide Print;
    PrintChars(n, 10);
  }

  lemma FirstChar(e: AccessEvent)
    ensures Id(e) != "" && (e.Evm? <==> Id(e)[0] == 'e')
  {
    hide Print;
    if e.Evm? {
      assert Id(e)[0] == "evm:"[0];
    } else {
      assert Id(e)[0] == "soroban:"[0];
    }
  }

  // Different logs have different ids, so dropping a seen id never drops a new log.
  lemma IdInjective(e: AccessEvent, f: AccessEvent)
    requires e.Evm? && NoColon(e.contract) && (f.Evm? ==> NoColon(f.contract))
    requires Id(e) == Id(f)
    ensures e == f
  {
    hide Print;
    FirstChar(e);
    FirstChar(f);
    var tailE := Print(e.block, 10) + ":" + Print(e.index, 10);
    var tailF := Print(f.block, 10) + ":" + Print(f.index, 10);
    assert Id(e)[4..] == e.contract + ":" + tailE;
    assert Id(f)[4..] == f.contract + ":" + tailF;
    FirstColon(e.contract, tailE, f.contract, tailF);
    PrintNoColon(e.block);
    PrintNoColon(f.block);
    FirstColon(Print(e.block, 10), Print(e.index, 10), Print(f.block, 10), Print(f.index, 10));
    PrintInjective(e.block, f.block);
    PrintInjective(e.index, f.index);
  }

  // ----- the chain -----

  // The indices of a contract's AccessRequested logs in each block.
  type Chain = (string, nat) -> seq<nat>

  function BlockLogs(chain: Chain, contract: string, b: nat): (logs: seq<AccessEvent>)
    ensures |logs| == |chain(contract, b)|
    ensures forall i :: 0 <= i < |logs| ==> logs[i] == Evm(contract, b, chain(contract, b)[i])
  {
    seq(|chain(contract, b)|, i requires 0 <= i < |chain(contract, b)| => Evm(contract, b, chain(contract, b)[i]))
  }

  // queryFilter over blocks from..last, oldest first.
  function Logs(chain: Chain, contract: string, from: nat, last: int): (logs: seq<AccessEvent>)
    decreases last
  {
    if last < from then []
    else Logs(chain, contract, from, last - 1) + BlockLogs(chain, contract, last)
  }

  lemma InBlockLogs(chain: Chain, contract: string, b: nat, e: AccessEvent)
    ensures e in BlockLogs(chain, contract, b)
       <==> e.Evm? && e.contract == contract && e.block == b && e.index in chain(contract, b)
  {
    hide BlockLogs;
    var here, indices := BlockLogs(chain, contract, b), chain(contract, b);
    if e.Evm? && e.contract == contract && e.block == b && e.index in indices {
      var i :| 0 <= i < |indices| && indices[i] == e.index;
      assert here[i] == e;
    }
  }

  lemma {:induction false} InLogs(chain: Chain, contract: string, from: nat, last: int, e: AccessEvent)
    ensures e in Logs(chain, contract, from, last)
       <==> e.Evm? && e.contract == contract && from <= e.block <= last && e.index in chain(contract, e.block)
    decreases last
  {
    if last >= from {
      InLogs(chain, contract, from, last - 1, e);
      InBlockLogs(chain, contract, last, e);
    }
  }

  // ----- transitions -----

  // How a poll ends: the head or the query request fails, an error follows the hand-over of the first n
  // logs, or nothing fails.
  datatype PollEnd = HeadFails | QueryFails | FailsAfter(n: nat) | Completes

  datatype Sink = Sink(seen: set<string>, delivered: seq<AccessEvent>)

  function EmitNew(s: Sink, e: AccessEvent): Sink {
    if Id(e) in s.seen then s else Sink(s.seen + {Id(e)}, s.delivered + [e])
  }

  // The first n of some events, one by one.
  function EmitFirst(s: Sink, es: seq<AccessEvent>, n: nat): Sink
    requires n <= |es|
  {
    if n == 0 then s else EmitNew(EmitFirst(s, es, n - 1), es[n - 1])
  }

  function SweepEnd(cursor: nat, head: nat): nat {
    if head < cursor + SWEEP then head else cursor + SWEEP
  }

  // One poll of a source whose cursor is at the given block.
  function PollStep(chain: Chain, contract: string, cursor: nat, s: Sink, head: nat, o: PollEnd): (r: (nat, Sink)) {
    var end := SweepEnd(cursor, head);
    if o.HeadFails? || end <= cursor || o.QueryFails? then (cursor, s) else
      var logs := Logs(chain, contract, cursor + 1, end);
      if o.FailsAfter? then (cursor, EmitFirst(s, logs, if o.n < |logs| then o.n else |logs|))
      else (end, EmitFirst(s, logs, |logs|))
  }

  // The block before the first one delivered, given the configured start (0: none) and the current head.
  function StartCursor(startBlock: nat, current: nat): (c: nat)
    ensures c <= current
  {
    if startBlock > 0 then (if startBlock - 1 < current then startBlock - 1 else current) else current
  }

  // ----- runs over several sources -----

  datatype Source = Source(contract: string, startBlock: nat, current: nat)

  // The blocks a source answers for: from its configured start, where one is given that the chain has reached,
  // and otherwise those still to come when it starts.
  predicate InScope(src: Source, b: nat) {
    if 0 < src.startBlock <= src.current then src.startBlock <= b else src.current < b
  }

  lemma ScopeStarts(src: Source, b: nat)
    ensures InScope(src, b) <==> StartCursor(src.startBlock, src.current) < b
  {}

  datatype Event =
    | Poll(source: nat, head: nat, outcome: PollEnd)
    | Other(token: string, contract: string)

  // The largest head seen is kept for the statement only.
  datatype World = World(cursors: seq<nat>, sink: Sink, highest: seq<nat>)

  function Begin(sources: seq<Source>): World {
    World(seq(|sources|, i requires 0 <= i < |sources| => StartCursor(sources[i].startBlock, sources[i].current)),
          Sink({}, []),
          seq(|sources|, i requires 0 <= i < |sources| => sources[i].current))
  }

  function Max(a: nat, b: nat): nat {
    if a < b then b else a
  }

  function Next(chain: Chain, sources: seq<Source>, w: World, e: Event): World
    requires |w.cursors| == |w.highest| == |sources|
  {
    match e
    case Other(token, contract) => w.(sink := EmitNew(w.sink, Soroban(contract, token)))
    case Poll(i, head, outcome) =>
      if i >= |sources| then w else
        var (cursor, sink) := PollStep(chain, sources[i].contract, w.cursors[i], w.sink, head, outcome);
        World(w.cursors[i := cursor], sink,
              w.highest[i := if outcome.HeadFails? then w.highest[i] else Max(w.highest[i], head)])
  }

  // The state after the first n events.
  function Run(chain: Chain, sources: seq<Source>, events: seq<Event>, n: nat): (w: World)
    requires n <= |events|
    ensures |w.cursors| == |w.highest| == |sources|
  {
    if n == 0 then Begin(sources)
    else Next(chain, sources, Run(chain, sources, events, n - 1), events[n - 1])
  }

  // ----- invariants -----

  // The seen set holds exactly the ids of what was delivered, each once.
  ghost predicate Deduplicated(s: Sink) {
    && (forall k :: 0 <= k < |s.delivered| ==> Id(s.delivered[k]) in s.seen)
    && (forall id :: id in s.seen ==> exists k :: 0 <= k < |s.delivered| && Id(s.delivered[k]) == id)
    && (forall j, k :: 0 <= j < k < |s.delivered| ==> Id(s.delivered[j]) != Id(s.delivered[k]))
  }

  lemma EmitNewKeeps(s: Sink, e: AccessEvent)
    requires Deduplicated(s)
    ensures var t := EmitNew(s, e);
            && Deduplicated(t) && s.seen <= t.seen && Id(e) in t.seen
            && forall k :: 0 <= k < |t.delivered| ==> t.delivered[k] in s.delivered || t.delivered[k] == e
  {
    hide Id;
    var t := EmitNew(s, e);
    if Id(e) !in s.seen {
      forall id | id in t.seen
        ensures exists k :: 0 <= k < |t.delivered| && Id(t.delivered[k]) == id
      {
        if id in s.seen {
          var k :| 0 <= k < |s.delivered| && Id(s.delivered[k]) == id;
          assert Id(t.delivered[k]) == id;
        } else {
          assert Id(t.delivered[|s.delivered|]) == id;
        }
      }
    }
  }

  lemma {:induction false} EmitFirstKeeps(s: Sink, es: seq<AccessEvent>, n: nat)
    requires Deduplicated(s) && n <= |es|
    ensures var t := EmitFirst(s, es, n);
            && Deduplicated(t) && s.seen <= t.seen
            && (forall k :: 0 <= k < n ==> Id(es[k]) in t.seen)
            && forall k :: 0 <= k < |t.delivered| ==> t.delivered[k] in s.delivered || t.delivered[k] in es
  {
    hide Id, EmitNew, Deduplicated;
    if n > 0 {
      EmitFirstKeeps(s, es, n - 1);
      EmitNewKeeps(EmitFirst(s, es, n - 1), es[n - 1]);
    }
  }

  // Every log in the blocks after the start up to the cursor has been seen.
  ghost predicate Covered(chain: Chain, src: Source, cursor: nat, s: Sink) {
    forall b: nat, x :: InScope(src, b) && b <= cursor && x in chain(src.contract, b)
      ==> Id(Evm(src.contract, b, x)) in s.seen
  }

  // A delivered log exists on the chain, in a block after a source's start and not above the head it saw.
  ghost predicate Genuine(chain: Chain, sources: seq<Source>, highest: seq<nat>, e: AccessEvent)
    requires |highest| == |sources|
  {
    e.Evm? ==> exists i :: 0 <= i < |sources| && From(chain, sources[i], highest[i], e)
  }

  ghost predicate From(chain: Chain, src: Source, highest: nat, e: AccessEvent) {
    && e.Evm? && e.contract == src.contract && e.index in chain(e.contract, e.block)
    && InScope(src, e.block) && e.block <= highest
  }

  ghost predicate Invariant(chain: Chain, sources: seq<Source>, w: World) {
    && |w.cursors| == |w.highest| == |sources|
    && Deduplicated(w.sink)
    && (forall i :: 0 <= i < |sources| ==>
          && StartCursor(sources[i].startBlock, sources[i].current) <= w.cursors[i] <= w.highest[i]
          && Covered(chain, sources[i], w.cursors[i], w.sink))
    && (forall e :: e in w.sink.delivered ==> Genuine(chain, sources, w.highest, e))
  }

  lemma PollCovers(chain: Chain, src: Source, cursor: nat, s: Sink, head: nat, o: PollEnd)
    requires Deduplicated(s) && Covered(chain, src, cursor, s)
    ensures var r := PollStep(chain, src.contract, cursor, s, head, o);
            && Deduplicated(r.1) && s.seen <= r.1.seen && Covered(chain, src, r.0, r.1)
            && cursor <= r.0 <= cursor + SWEEP && (r.0 == cursor || r.0 <= head)
            && (r != (cursor, s) ==> !o.HeadFails?)
  {
    hide Id, EmitFirst, Deduplicated, Logs, InScope;
    var r := PollStep(chain, src.contract, cursor, s, head, o);
    if r != (cursor, s) {
      var logs := Logs(chain, src.contract, cursor + 1, SweepEnd(cursor, head));
      EmitFirstKeeps(s, logs, if o.FailsAfter? && o.n < |logs| then o.n else |logs|);
      if o.Completes? {
        forall b: nat, x | cursor < b <= r.0 && x in chain(src.contract, b)
          ensures Id(Evm(src.contract, b, x)) in r.1.seen
        {
          InLogs(chain, src.contract, cursor + 1, r.0, Evm(src.contract, b, x));
        }
      }
    }
  }

  lemma PollGenuine(chain: Chain, src: Source, cursor: nat, s: Sink, head: nat, o: PollEnd, e: AccessEvent)
    requires Deduplicated(s) && StartCursor(src.startBlock, src.current) <= cursor
    ensures var r := PollStep(chain, src.contract, cursor, s, head, o);
            e in r.1.delivered ==> e in s.delivered || (!o.HeadFails? && From(chain, src, head, e))
  {
    hide Id, EmitFirst, Deduplicated, Logs, StartCursor, InScope;
    var r := PollStep(chain, src.contract, cursor, s, head, o);
    if r != (cursor, s) {
      var logs := Logs(chain, src.contract, cursor + 1, SweepEnd(cursor, head));
      EmitFirstKeeps(s, logs, if o.FailsAfter? && o.n < |logs| then o.n else |logs|);
      InLogs(chain, src.contract, cursor + 1, SweepEnd(cursor, head), e);
      if e.Evm? { ScopeStarts(src, e.block); }
    }
  }

  lemma GenuineGrows(chain: Chain, sources: seq<Source>, low: seq<nat>, high: seq<nat>, e: AccessEvent)
    requires |low| == |high| == |sources| && forall i :: 0 <= i < |low| ==> low[i] <= high[i]
    requires Genuine(chain, sources, low, e)
    ensures Genuine(chain, sources, high, e)
  {
    if e.Evm? {
      var i :| 0 <= i < |sources| && From(chain, sources[i], low[i], e);
      assert From(chain, sources[i], high[i], e);
    }
  }

  lemma NextKeeps(chain: Chain, sources: seq<Source>, w: World, e: Event)
    requires Invariant(chain, sources, w)
    ensures Invariant(chain, sources, Next(chain, sources, w, e))
  {
    hide Id, PollStep, Deduplicated, EmitNew, StartCursor, InScope, Genuine, From;
    var v := Next(chain, sources, w, e);
    match e
    case Other(token, contract) =>
      EmitNewKeeps(w.sink, Soroban(contract, token));
      forall d | d in v.sink.delivered ensures Genuine(chain, sources, v.highest, d) {
        SorobanGenuine(chain, sources, v.highest, contract, token);
      }
    case Poll(i, head, o) =>
      if i < |sources| {
        PollCovers(chain, sources[i], w.cursors[i], w.sink, head, o);
        forall d | d in v.sink.delivered ensures Genuine(chain, sources, v.highest, d) {
          PollGenuine(chain, sources[i], w.cursors[i], w.sink, head, o, d);
          if d in w.sink.delivered {
            GenuineGrows(chain, sources, w.highest, v.highest, d);
          } else {
            FromHead(chain, sources, i, head, v.highest, d);
          }
        }
      }
  }

  lemma SorobanGenuine(chain: Chain, sources: seq<Source>, highest: seq<nat>, contract: string, token: string)
    requires |highest| == |sources|
    ensures Genuine(chain, sources, highest, Soroban(contract, token))
  {}

  lemma FromHead(chain: Chain, sources: seq<Source>, i: nat, head: nat, highest: seq<nat>, e: AccessEvent)
    requires i < |sources| == |highest| && head <= highest[i] && From(chain, sources[i], head, e)
    ensures Genuine(chain, sources, highest, e)
  {
    assert From(chain, sources[i], highest[i], e);
  }

  lemma {:induction false} RunKeeps(chain: Chain, sources: seq<Source>, events: seq<Event>, n: nat)
    requires n <= |events|
    ensures Invariant(chain, sources, Run(chain, sources, events, n))
  {
    if n > 0 {
      hide Invariant, Next;
      RunKeeps(chain, sources, events, n - 1);
      NextKeeps(chain, sources, Run(chain, sources, events, n - 1), events[n - 1]);
    } else {
      forall i, b: nat | 0 <= i < |sources| ensures InScope(sources[i], b) <==> StartCursor(sources[i].startBlock, sources[i].current) < b {
        ScopeStarts(sources[i], b);
      }
      hide StartCursor, InScope;
    }
  }

  lemma OnceInBag(es: seq<AccessEvent>, k: nat)
    requires k < |es| && forall j :: 0 <= j < |es| && j != k ==> es[j] != es[k]
    ensures multiset(es)[es[k]] == 1
  {
    assert es == es[..k] + ([es[k]] + es[k + 1..]);
    assert es[k] !in es[..k] && es[k] !in es[k + 1..];
  }

  // Exactly once: however polls fail, and however sources interleave, every log in a source's blocks up to its
  // cursor has been handed to the consumer exactly once. An id counts as seen before the consumer is called, so
  // an event whose consumer fails was handed over that one time and is not offered again.
  lemma ExactlyOnce(chain: Chain, sources: seq<Source>, events: seq<Event>, i: nat, b: nat, x: nat)
    requires i < |sources| && forall j :: 0 <= j < |sources| ==> NoColon(sources[j].contract)
    requires x in chain(sources[i].contract, b)
    ensures var w := Run(chain, sources, events, |events|);
            InScope(sources[i], b) && b <= w.cursors[i]
            ==> multiset(w.sink.delivered)[Evm(sources[i].contract, b, x)] == 1
  {
    hide Id, Run, StartCursor, InScope;
    RunKeeps(chain, sources, events, |events|);
    var w := Run(chain, sources, events, |events|);
    var e := Evm(sources[i].contract, b, x);
    if InScope(sources[i], b) && b <= w.cursors[i] {
      assert Covered(chain, sources[i], w.cursors[i], w.sink);
      var k :| 0 <= k < |w.sink.delivered| && Id(w.sink.delivered[k]) == Id(e);
      assert Genuine(chain, sources, w.highest, w.sink.delivered[k]);
      IdInjective(e, w.sink.delivered[k]);
      OnceInBag(w.sink.delivered, k);
    }
  }

  // At most once and nothing invented: no event is ever delivered twice, and a delivered log is on the chain
  // between its source's start and the largest head that source saw.
  lemma NothingElse(chain: Chain, sources: seq<Source>, events: seq<Event>, k: nat)
    requires k < |Run(chain, sources, events, |events|).sink.delivered|
    ensures var w := Run(chain, sources, events, |events|);
            && multiset(w.sink.delivered)[w.sink.delivered[k]] == 1
            && Genuine(chain, sources, w.highest, w.sink.delivered[k])
  {
    hide Id, Run, StartCursor, InScope, Genuine;
    RunKeeps(chain, sources, events, |events|);
    OnceInBag(Run(chain, sources, events, |events|).sink.delivered, k);
  }

  predicate IsCompletedPoll(e: Event, i: nat) {
    e.Poll? && e.source == i && e.outcome.Completes?
  }

  lemma PollMoves(chain: Chain, contract: string, cursor: nat, s: Sink, head: nat, o: PollEnd)
    ensures var c := PollStep(chain, contract, cursor, s, head, o).0;
            c == if o.Completes? && cursor < head then (if head <= cursor + SWEEP then head else cursor + SWEEP) else cursor
  {
    hide EmitFirst, Logs;
  }

  // The cursor moves in completed polls only: to the head, or 5000 blocks where the head is further off. It
  // never decreases and never passes the largest head seen.
  lemma CursorMoves(chain: Chain, sources: seq<Source>, events: seq<Event>, n: nat, i: nat)
    requires 0 < n <= |events| && i < |sources|
    ensures var v, w := Run(chain, sources, events, n - 1), Run(chain, sources, events, n);
            && (IsCompletedPoll(events[n - 1], i) && v.cursors[i] < events[n - 1].head ==>
                  w.cursors[i] == if events[n - 1].head <= v.cursors[i] + SWEEP then events[n - 1].head else v.cursors[i] + SWEEP)
            && (!(IsCompletedPoll(events[n - 1], i) && v.cursors[i] < events[n - 1].head) ==> w.cursors[i] == v.cursors[i])
            && w.cursors[i] <= w.highest[i]
  {
    hide Id, PollStep, EmitNew, StartCursor, InScope, Invariant;
    RunKeeps(chain, sources, events, n);
    var v, e := Run(chain, sources, events, n - 1), events[n - 1];
    InvariantParts(chain, sources, Run(chain, sources, events, n), i);
    if e.Poll? && e.source == i {
      PollMoves(chain, sources[i].contract, v.cursors[i], v.sink, e.head, e.outcome);
    }
  }

  // How many of the first n events are completed polls of source i at heads from h on.
  function PollsFrom(events: seq<Event>, n: nat, i: nat, h: nat): (c: nat)
    requires n <= |events|
  {
    if n == 0 then 0 else
      PollsFrom(events, n - 1, i, h) + if IsCompletedPoll(events[n - 1], i) && events[n - 1].head >= h then 1 else 0
  }

  // Over runs: each completed poll at a head from h on brings the cursor 5000 blocks on, until it is at h.
  lemma {:induction false} CatchesUp(chain: Chain, sources: seq<Source>, events: seq<Event>, n: nat, i: nat, h: nat)
    requires n <= |events| && i < |sources|
    ensures var c := Run(chain, sources, events, n).cursors[i];
            c >= h || c >= StartCursor(sources[i].startBlock, sources[i].current) + SWEEP * PollsFrom(events, n, i, h)
  {
    hide Next, StartCursor, IsCompletedPoll;
    if n > 0 {
      CatchesUp(chain, sources, events, n - 1, i, h);
      CursorMoves(chain, sources, events, n, i);
    }
  }

  // So after enough polls that succeed, whatever failed in between, every log up to h was handed over once.
  lemma EventuallyDelivered(chain: Chain, sources: seq<Source>, events: seq<Event>, i: nat, h: nat, b: nat, x: nat)
    requires i < |sources| && forall j :: 0 <= j < |sources| ==> NoColon(sources[j].contract)
    requires SWEEP * PollsFrom(events, |events|, i, h) >= h
    requires InScope(sources[i], b) && b <= h && x in chain(sources[i].contract, b)
    ensures multiset(Run(chain, sources, events, |events|).sink.delivered)[Evm(sources[i].contract, b, x)] == 1
  {
    hide Run, StartCursor, InScope, PollsFrom;
    CatchesUp(chain, sources, events, |events|, i, h);
    ExactlyOnce(chain, sources, events, i, b, x);
  }

  lemma InvariantParts(chain: Chain, sources: seq<Source>, w: World, i: nat)
    requires Invariant(chain, sources, w) && i < |sources|
    ensures Deduplicated(w.sink) && Covered(chain, sources[i], w.cursors[i], w.sink) && w.cursors[i] <= w.highest[i]
  {
    hide Deduplicated, Covered, Genuine;
  }

  // ----- the classes -----

  class MultiChainListener {
    var seen: set<string>
    var delivered: seq<AccessEvent>

    ghost function State(): Sink
      reads this
    {
      Sink(seen, delivered)
    }

    constructor ()
      ensures State() == Sink({}, [])
    {
      seen, delivered := {}, [];
    }

    // Events handed to the consumer are recorded in order.
    method Offer(e: AccessEvent)
      modifies this
      ensures State() == EmitNew(old(State()), e)
    {
      if Id(e) in seen {
        return;
      }
      seen := seen + {Id(e)};
      delivered := delivered + [e];
    }
  }

  class EvmAccessRequestListener {
    const contract: string
    const sink: MultiChainListener
    var lastBlock: nat

    constructor (contract: string, sink: MultiChainListener, startBlock: nat, current: nat)
      ensures this.contract == contract && this.sink == sink && lastBlock == StartCursor(startBlock, current)
    {
      this.contract, this.sink := contract, sink;
      lastBlock := if startBlock > 0 then (if startBlock - 1 < current then startBlock - 1 else current) else current;
    }

    method Poll(chain: Chain, head: nat, outcome: PollEnd)
      modifies this, sink
      ensures (lastBlock, sink.State()) == PollStep(chain, contract, old(lastBlock), old(sink.State()), head, outcome)
    {
      hide Id, EmitNew, Logs;
      if outcome.HeadFails? {
        return;
      }
      var toBlock := if head < lastBlock + SWEEP then head else lastBlock + SWEEP;
      if toBlock <= lastBlock || outcome.QueryFails? {
        return;
      }
      var logs := Logs(chain, contract, lastBlock + 1, toBlock);
      var k := 0;
      while k < |logs|
        invariant k <= |logs| && lastBlock == old(lastBlock)
        invariant outcome.FailsAfter? ==> k <= outcome.n
        invariant sink.State() == EmitFirst(old(sink.State()), logs, k)
      {
        if outcome.FailsAfter? && k == outcome.n {
          return;
        }
        sink.Offer(logs[k]);
        k := k + 1;
      }
      if outcome.Completes? {
        lastBlock := toBlock;
      }
    }
  }
}
