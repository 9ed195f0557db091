/**
 * Replaying a range of a tree's stream into the engine, page by page, holding
 * each event back until the next one shows whether it was rejected.
 */
module ReplayStream {
  import opened TreeTypes
  import opened EngineTree
  import opened Replay
  import opened EngineWorker

  const REPLAY_PAGE_SIZE: int := 500

  datatype ReplayFault =
    | ReadFailed
    | OutOfStep
    | NotATreeEvent
    | BadRejection
    | BadPayload(event: Event)
    | CallRefused(event: Event, code: Code)
    | CallUnanswered(event: Event)
  {
    /** The fault is one event's own. */
    predicate OnEvent() {
      BadPayload? || CallRefused? || CallUnanswered?
    }
  }

  function Payloads(evs: seq<Event>): seq<Payload> {
    if evs == [] then [] else Payloads(Init(evs)) + [Last(evs).payload]
  }

  /** The engine calls a replay of the events makes, in order. */
  function CallsOf(evs: seq<Event>): seq<Payload> {
    Payloads(Effective(evs))
  }

  /** The call that failed, when one did. */
  function FailedCall(fault: ReplayFault): seq<Payload> {
    if fault.CallRefused? || fault.CallUnanswered? then [fault.event.payload] else []
  }

  /** One page of a stream: at most limit events from a version on. */
  function Page(log: seq<Event>, from: int, limit: int): seq<Event>
    requires from >= 1 && limit >= 1
  {
    if from > |log| then [] else if from - 1 + limit <= |log| then log[from - 1..from - 1 + limit] else log[from - 1..]
  }

  /** The events of versions from through to. */
  function Range(log: seq<Event>, from: int, to: int): seq<Event>
    requires 1 <= from <= to + 1
  {
    if to <= |log| then log[from - 1..to] else if from <= |log| then log[from - 1..] else []
  }

  predicate Numbered(log: seq<Event>) {
    forall i :: 0 <= i < |log| ==> log[i].version == i + 1
  }

  /** The call for ev left the engine as it was, or its reply was lost after it took effect. */
  predicate LeftBy(fault: ReplayFault, ev: Event, before: Tree, after: Tree) {
    after == before ||
    (fault == CallUnanswered(ev) && Mutate(before, ev.payload).Ok? && after == Mutate(before, ev.payload).value.tree)
  }

  /**
   * A failed replay: the engine holds exactly the effective events up to
   * reached, or one event more when that event's reply was lost. It was asked
   * for those events, each once and in order, and then at most for the one
   * whose call failed.
   */
  predicate StoppedAt(tree: Id, t0: Tree, log: seq<Event>, from: int, to: int, reached: int, held: Tree, fault: ReplayFault, calls: seq<Payload>)
    requires 1 <= from <= to + 1
  {
    && from - 1 <= reached <= to
    && calls == CallsOf(Range(log, from, reached)) + FailedCall(fault)
    && (fault.OnEvent() ==> reached < to && reached < |log| && fault.event == log[reached])
    && var t := ReplayFrom(tree, t0, Effective(Range(log, from, reached)));
       t.Some? && (held == t.value || (fault.OnEvent() && LeftBy(fault, fault.event, t.value, held)))
  }

  class Replayer {
    const tree: Id
    const engine: Worker
    var pending: Option<Event>
    var reached: int
    var root: Option<Id>

    /** The engine calls made before this replay. */
    ghost const base: seq<Payload>

    constructor (tree: Id, engine: Worker, reached: int)
      ensures this.tree == tree && this.engine == engine && base == engine.calls
      ensures pending == None && this.reached == reached && root == None
    {
      this.tree, this.engine, this.reached, base := tree, engine, reached, engine.calls;
      pending, root := None, None;
    }

    /**
     * The replay has taken in evs, starting from t0: the engine holds what the
     * effective events up to reached build, and at most the last is held back.
     */
    ghost predicate Tracks(t0: Tree, evs: seq<Event>, first: int)
      reads this, engine
    {
      && WellRejected(tree, evs)
      && (pending.Some? ==> pending.value.version == first + |evs| - 1)
      && (if pending.Some? then evs != [] && pending.value == Last(evs) && !pending.value.IsRejection()
          else evs == [] || Last(evs).IsRejection())
      && reached == first - 1 + (if pending.Some? then |evs| - 1 else |evs|)
      && engine.held.Some?
      && engine.held == ReplayFrom(tree, t0, Effective(if pending.Some? then Init(evs) else evs))
      && engine.calls == base + CallsOf(if pending.Some? then Init(evs) else evs)
      && (t0.nodes == [] ==> root == RootOf(engine.held.value))
      && WellFormed(t0.kind, t0.nodes)
    }

    ghost predicate Stopped(t0: Tree, log: seq<Event>, from: int, to: int, fault: ReplayFault)
      requires 1 <= from <= to + 1
      reads this, engine
    {
      && engine.held.Some? && |base| <= |engine.calls| && engine.calls[..|base|] == base
      && StoppedAt(tree, t0, log, from, to, reached, engine.held.value, fault, engine.calls[|base|..])
    }

    /** Checks the held event and makes its engine call, once. */
    method Flush(ghost t0: Tree, ghost evs: seq<Event>, ghost first: int) returns (fault: Option<ReplayFault>)
      requires Tracks(t0, evs, first)
      modifies this, engine
      ensures fault.None? ==>
                && pending == None && reached == first - 1 + |evs|
                && engine.held.Some? && engine.held == ReplayFrom(tree, t0, Effective(evs))
                && engine.calls == old(engine.calls) + (if old(pending).Some? then [old(pending).value.payload] else [])
                && engine.calls == base + CallsOf(evs)
                && (t0.nodes == [] ==> root == RootOf(engine.held.value))
      ensures fault.Some? ==>
                && reached == old(reached) && old(pending).Some? && engine.held.Some?
                && fault.value.OnEvent() && fault.value.event == Last(evs)
                && engine.calls == old(engine.calls) + FailedCall(fault.value)
                && LeftBy(fault.value, Last(evs), old(engine.held).value, engine.held.value)
      ensures fault.Some? && !engine.faulty ==> ReplayFrom(tree, t0, Effective(evs)).None?
      ensures fault.Some? && fault.value.CallRefused? ==>
                fault.value.event == Last(evs) && ReplayFrom(tree, t0, Effective(evs)).None?
      ensures old(pending).Some? && Malformed(tree, old(engine.held).value.kind, old(pending).value.payload) ==>
                fault == Some(BadPayload(old(pending).value)) && engine.calls == old(engine.calls) && engine.held == old(engine.held)
    {
      hide Mutate, Acceptable, Malformed, RootOf, ReplayFrom, Effective, CallsOf, WellRejected, WellFormed;
      if pending.None? {
        return None;
      }
      var ev := pending.value;
      ghost var t := engine.held.value;
      HeldEvent(tree, t0, evs, t);
      MalformedIs(tree, t.kind, ev.payload);
      pending := None;
      if !Acceptable(tree, engine.held.value.kind, ev.payload) {
        return Some(BadPayload(ev));
      }
      var reply := engine.Apply(ev.payload);
      if reply.Refused? {
        return Some(CallRefused(ev, reply.code));
      }
      if reply.NoAnswer? {
        return Some(CallUnanswered(ev));
      }
      if ev.payload.RootAdded? {
        root := Some(ev.payload.user);
      } else if ev.payload.NodeRemoved? && root == Some(ev.payload.user) {
        root := None;
      }
      reached := ev.version;
      return None;
    }

    /** Takes the next event in version order. */
    method Accept(ev: Event, ghost t0: Tree, ghost evs: seq<Event>, ghost first: int) returns (fault: Option<ReplayFault>)
      requires Tracks(t0, evs, first) && ev.version == first + |evs|
      modifies this, engine
      ensures fault.None? ==> Tracks(t0, evs + [ev], first)
      ensures fault.Some? ==>
                && reached == old(reached) && engine.held.Some?
                && engine.calls == old(engine.calls) + FailedCall(fault.value)
                && (if fault.value.OnEvent()
                    then evs != [] && reached == first - 2 + |evs| && fault.value.event == Last(evs)
                         && LeftBy(fault.value, Last(evs), old(engine.held).value, engine.held.value)
                    else engine.held == old(engine.held))
      ensures fault.Some? && !engine.faulty ==>
                !WellRejected(tree, evs + [ev]) || (ReplayFrom(tree, t0, Effective(evs)).None? && !ev.IsRejection())
      ensures fault.Some? && fault.value.CallRefused? ==>
                evs != [] && fault.value.event == Last(evs) && ReplayFrom(tree, t0, Effective(evs)).None?
      ensures ev.IsRejection() ==>
                (fault.None? <==>
                   && old(pending).Some? && ev.payload.EventRejected? && ev.payload.tree == tree
                   && ev.payload.rejectedId == old(pending).value.id && ev.payload.rejectedVersion == old(pending).value.version
                   && ev.payload.rejectedType == old(pending).value.Type())
      ensures ev.Type() == ForeignType ==> fault == Some(NotATreeEvent)
    {
      ghost var after := evs + [ev];
      InitOfAppend(evs, ev);
      assert evs != [] ==> Fits(tree, evs, |evs| - 1);
      if ev.IsRejection() {
        if ev.payload.Unreadable? || ev.payload.tree != tree || pending.None? || !Names(tree, ev, pending.value) {
          RefusedRejection(tree, evs, ev);
          return Some(BadRejection);
        }
        TakesRejection(tree, evs, ev);
        pending := None;
        reached := ev.version;
        return None;
      }
      if !ev.Rejectable() {
        assert after[|evs|] == ev && !Fits(tree, after, |evs|);
        return Some(NotATreeEvent);
      }
      fault := Flush(t0, evs, first);
      if fault.Some? {
        return;
      }
      TakesEvent(tree, evs, ev);
      pending := Some(ev);
    }
  }

  /** What flushing the last event of evs has to do, from the tree t the events before it build. */
  lemma HeldEvent(tree: Id, t0: Tree, evs: seq<Event>, t: Tree)
    requires evs != [] && !Last(evs).IsRejection() && WellFormed(t0.kind, t0.nodes)
    requires ReplayFrom(tree, t0, Effective(Init(evs))) == Some(t)
    ensures WellFormed(t.kind, t.nodes)
    ensures ReplayFrom(tree, t0, Effective(evs)) ==
            if Applies(tree, t, Last(evs).payload) then Some(Mutate(t, Last(evs).payload).value.tree) else None
    ensures CallsOf(evs) == CallsOf(Init(evs)) + [Last(evs).payload]
    ensures Mutate(t, Last(evs).payload).Ok? ==>
              RootOf(Mutate(t, Last(evs).payload).value.tree) ==
              if Last(evs).payload.RootAdded? then Some(Last(evs).payload.user)
              else if Last(evs).payload.NodeRemoved? && RootOf(t) == Some(Last(evs).payload.user) then None
              else RootOf(t)
  {
    HeldEventReplay(tree, t0, evs);
    ReplayKeepsShape(tree, t0, Effective(Init(evs)));
    if Mutate(t, Last(evs).payload).Ok? { RootAfterMutation(t, Last(evs).payload); }
  }

  lemma HeldEventReplay(tree: Id, t0: Tree, evs: seq<Event>)
    requires evs != [] && !Last(evs).IsRejection()
    ensures ReplayFrom(tree, t0, Effective(evs)) ==
            var t := ReplayFrom(tree, t0, Effective(Init(evs)));
            if t.Some? && Applies(tree, t.value, Last(evs).payload) then Some(Mutate(t.value, Last(evs).payload).value.tree) else None
    ensures CallsOf(evs) == CallsOf(Init(evs)) + [Last(evs).payload]
  {
    assert evs == Init(evs) + [Last(evs)];
    EffectiveAppend(Init(evs), Last(evs));
    InitOfAppend(Effective(Init(evs)), Last(evs));
    ReplayAppend(tree, t0, Effective(Init(evs)), Last(evs));
  }

  lemma RefusedRejection(tree: Id, evs: seq<Event>, ev: Event)
    requires ev.IsRejection()
    requires ev.payload.Unreadable? || ev.payload.tree != tree || evs == [] || !Names(tree, ev, Last(evs))
    ensures !WellRejected(tree, evs + [ev])
  {
    assert (evs + [ev])[|evs|] == ev;
    assert !Fits(tree, evs + [ev], |evs|);
  }

  lemma TakesRejection(tree: Id, evs: seq<Event>, ev: Event)
    requires WellRejected(tree, evs) && evs != [] && ev.IsRejection() && Names(tree, ev, Last(evs))
    ensures WellRejected(tree, evs + [ev]) && Effective(evs + [ev]) == Effective(Init(evs))
  {
    EffectiveAppend(evs, ev);
    forall i | 0 <= i < |evs + [ev]| ensures Fits(tree, evs + [ev], i) {
      if i < |evs| { assert Fits(tree, evs, i); }
    }
  }

  lemma TakesEvent(tree: Id, evs: seq<Event>, ev: Event)
    requires WellRejected(tree, evs) && ev.Rejectable()
    ensures WellRejected(tree, evs + [ev])
  {
    forall i | 0 <= i < |evs + [ev]| ensures Fits(tree, evs + [ev], i) {
      if i < |evs| { assert Fits(tree, evs, i); }
    }
  }

  /** The replay through the range fails whenever it fails at a point where the next event is not a rejection. */
  lemma FailsThroughout(tree: Id, t0: Tree, evs: seq<Event>, rest: seq<Event>)
    requires WellRejected(tree, evs + rest) && (rest == [] || !rest[0].IsRejection())
    requires ReplayFrom(tree, t0, Effective(evs)).None?
    ensures ReplayFrom(tree, t0, Effective(evs + rest)).None?
  {
    EffectiveSplitsAt(tree, evs, rest);
    ReplayConcat(tree, t0, Effective(evs), Effective(rest));
  }

  /** The range can be replayed from t0: it is all there, every rejection in it fits, and every effective event applies. */
  predicate Replayable(tree: Id, t0: Tree, log: seq<Event>, from: int, to: int)
    requires 1 <= from <= to + 1
  {
    (to >= from ==> to <= |log|) && WellRejected(tree, Range(log, from, to)) && ReplayFrom(tree, t0, Effective(Range(log, from, to))).Some?
  }

  /** A refused call names an event of the range through which it cannot be replayed. */
  predicate RefusedAt(tree: Id, t0: Tree, log: seq<Event>, from: int, to: int, fault: ReplayFault)
    requires 1 <= from <= to + 1
  {
    fault.CallRefused? ==>
      var v := fault.event.version;
      && from <= v <= to && v <= |log| && log[v - 1] == fault.event
      && ReplayFrom(tree, t0, Effective(Range(log, from, v))).None?
  }

  /** A replay stopped short for a reason that rules out replaying the whole range. */
  lemma StopIsFinal(tree: Id, t0: Tree, log: seq<Event>, from: int, to: int, k: int)
    requires 1 <= from <= k + 1 && k < to && k < |log|
    requires !WellRejected(tree, Range(log, from, k + 1)) ||
             (ReplayFrom(tree, t0, Effective(Range(log, from, k))).None? && !log[k].IsRejection())
    ensures !Replayable(tree, t0, log, from, to)
  {
    if to <= |log| && WellRejected(tree, Range(log, from, to)) {
      assert Range(log, from, to) == Range(log, from, k + 1) + log[k + 1..to];
      WellRejectedPrefix(tree, Range(log, from, k + 1), log[k + 1..to]);
      assert Range(log, from, to) == Range(log, from, k) + log[k..to];
      FailsThroughout(tree, t0, Range(log, from, k), log[k..to]);
    }
  }

  lemma TrackedRange(log: seq<Event>, from: int, k: int)
    requires 1 <= from <= k + 1 <= |log| + 1 && Numbered(log)
    ensures |Range(log, from, k)| == k - from + 1
    ensures k >= from ==>
              && Init(Range(log, from, k)) == Range(log, from, k - 1)
              && Last(Range(log, from, k)) == log[k - 1] && log[k - 1].version == k
  {
  }

  /**
   * Replays versions from through to into the engine.
   *
   * Success means the whole range was replayed, by one call for each effective
   * event, in order. A failure leaves in the engine exactly what reached says. Without failed reads or calls, success is decided
   * by the range alone, not by where its pages end.
   */
  method ReplayRange(log: seq<Event>, r: Replayer, from: int, to: int, faultyReads: bool) returns (fault: Option<ReplayFault>)
    requires Numbered(log) && 1 <= from <= to + 1
    requires r.pending == None && r.reached == from - 1 && r.root == None && r.base == r.engine.calls
    requires r.engine.held.Some? && WellFormed(r.engine.held.value.kind, r.engine.held.value.nodes)
    requires r.engine.held.value.nodes == [] || from > 1
    modifies r, r.engine
    ensures fault.None? ==>
              && Replayable(r.tree, old(r.engine.held).value, log, from, to)
              && r.reached == to
              && r.engine.held == ReplayFrom(r.tree, old(r.engine.held).value, Effective(Range(log, from, to)))
              && r.engine.calls == old(r.engine.calls) + CallsOf(Range(log, from, to))
              && (from == 1 ==> r.root == RootOf(r.engine.held.value))
    ensures fault.Some? ==> r.Stopped(old(r.engine.held).value, log, from, to, fault.value)
    ensures fault.Some? ==> RefusedAt(r.tree, old(r.engine.held).value, log, from, to, fault.value)
    ensures fault.Some? && !faultyReads && !r.engine.faulty ==> !Replayable(r.tree, old(r.engine.held).value, log, from, to)
  {
    hide Effective, ReplayFrom, CallsOf, WellRejected, WellFormed, RootOf, StoppedAt;
    ghost var t0 := r.engine.held.value;
    var taken := from - 1;
    assert Range(log, from, taken) == [];
    StartsTracked(r, from);
    while taken < to
      invariant from - 1 <= taken <= to && (taken >= from ==> taken <= |log|)
      invariant r.Tracks(t0, Range(log, from, taken), from)
      decreases 1 + to - taken
    {
      var failed: bool := *;
      if faultyReads && failed {
        TrackedStops(r, t0, log, from, to, taken, ReadFailed);
        return Some(ReadFailed);
      }
      var want := if to - taken < REPLAY_PAGE_SIZE then to - taken else REPLAY_PAGE_SIZE;
      var page := Page(log, taken + 1, want);
      if page == [] {
        break;
      }
      taken, fault := TakePage(log, r, t0, from, to, taken, page);
      if fault.Some? {
        return;
      }
    }
    if taken != to {
      TrackedStops(r, t0, log, from, to, taken, OutOfStep);
      return Some(OutOfStep);
    }
    fault := FinishReplay(log, r, t0, from, to);
  }

  lemma StartsTracked(r: Replayer, from: int)
    requires r.pending == None && r.reached == from - 1 && r.root == None && r.base == r.engine.calls
    requires r.engine.held.Some? && WellFormed(r.engine.held.value.kind, r.engine.held.value.nodes)
    ensures r.Tracks(r.engine.held.value, [], from)
  {
  }

  /** Flushes the event still held once the whole range is taken in. */
  method FinishReplay(log: seq<Event>, r: Replayer, ghost t0: Tree, from: int, to: int) returns (fault: Option<ReplayFault>)
    requires Numbered(log) && 1 <= from <= to + 1 && (to >= from ==> to <= |log|)
    requires r.Tracks(t0, Range(log, from, to), from) && (t0.nodes == [] || from > 1)
    modifies r, r.engine
    ensures fault.None? ==>
              && Replayable(r.tree, t0, log, from, to) && r.reached == to
              && r.engine.held == ReplayFrom(r.tree, t0, Effective(Range(log, from, to)))
              && r.engine.calls == r.base + CallsOf(Range(log, from, to))
              && (from == 1 ==> r.root == RootOf(r.engine.held.value))
    ensures fault.Some? ==> r.Stopped(t0, log, from, to, fault.value) && RefusedAt(r.tree, t0, log, from, to, fault.value)
    ensures fault.Some? && !r.engine.faulty ==> !Replayable(r.tree, t0, log, from, to)
  {
    hide Effective, ReplayFrom, CallsOf, WellRejected, WellFormed, RootOf, Mutate, Acceptable, Malformed;
    if to >= from { TrackedRange(log, from, to); }
    TrackedValue(r, t0, log, from, to);
    ghost var before := r.engine.held.value;
    fault := r.Flush(t0, Range(log, from, to), from);
    if fault.Some? { CallStops(r, t0, log, from, to, r.reached, before, fault.value); }
  }

  lemma TrackedValue(r: Replayer, t0: Tree, log: seq<Event>, from: int, k: int)
    requires Numbered(log) && 1 <= from <= k + 1 && (k >= from ==> k <= |log|)
    requires r.Tracks(t0, Range(log, from, k), from)
    ensures from - 1 <= r.reached && k - 1 <= r.reached <= k
    ensures r.engine.held.Some? && ReplayFrom(r.tree, t0, Effective(Range(log, from, r.reached))) == r.engine.held
    ensures r.engine.calls == r.base + CallsOf(Range(log, from, r.reached))
  {
    hide Effective, ReplayFrom, CallsOf, WellRejected, WellFormed, RootOf;
    if k >= from { TrackedRange(log, from, k); }
  }

  /** A replay that stops without a call leaves the engine at reached. */
  lemma TrackedStops(r: Replayer, t0: Tree, log: seq<Event>, from: int, to: int, k: int, fault: ReplayFault)
    requires Numbered(log) && 1 <= from <= k + 1 <= to + 1 && (k >= from ==> k <= |log|)
    requires r.Tracks(t0, Range(log, from, k), from) && !fault.OnEvent()
    ensures r.Stopped(t0, log, from, to, fault)
  {
    TrackedValue(r, t0, log, from, k);
  }

  /** A replay that stops at an event leaves the engine at reached, but for that event's own call. */
  lemma CallStops(r: Replayer, t0: Tree, log: seq<Event>, from: int, to: int, reached: int, before: Tree, fault: ReplayFault)
    requires 1 <= from <= reached + 1 && reached <= to
    requires r.engine.held.Some? && r.reached == reached
    requires ReplayFrom(r.tree, t0, Effective(Range(log, from, reached))) == Some(before)
    requires r.engine.calls == r.base + CallsOf(Range(log, from, reached)) + FailedCall(fault)
    requires if fault.OnEvent()
             then reached < to && reached < |log| && fault.event == log[reached] && LeftBy(fault, fault.event, before, r.engine.held.value)
             else r.engine.held == Some(before)
    ensures r.Stopped(t0, log, from, to, fault)
  {
    hide Effective, ReplayFrom, Acceptable, CallsOf, Range;
  }

  lemma RefusedNext(tree: Id, t0: Tree, log: seq<Event>, from: int, to: int, k: int, fault: ReplayFault)
    requires Numbered(log) && 1 <= from <= k + 1 && k < to && k < |log|
    requires fault.CallRefused? ==>
               && Range(log, from, k) != [] && fault.event == Last(Range(log, from, k))
               && ReplayFrom(tree, t0, Effective(Range(log, from, k))).None?
    ensures RefusedAt(tree, t0, log, from, to, fault)
  {
    hide Effective, ReplayFrom;
    assert Range(log, from, k) != [] ==> Last(Range(log, from, k)) == log[k - 1];
  }

  lemma LastOfRange(log: seq<Event>, from: int, k: int)
    requires 1 <= from <= k + 1 && k < |log|
    ensures |Range(log, from, k)| == k - from + 1 && (k >= from ==> Last(Range(log, from, k)) == log[k - 1])
  {
  }

  /** Takes in the event at version k + 1. */
  method TakeNext(log: seq<Event>, r: Replayer, ghost t0: Tree, from: int, to: int, k: int, ev: Event)
    returns (fault: Option<ReplayFault>)
    requires Numbered(log) && 1 <= from <= k + 1 && k < to && k < |log| && ev == log[k]
    requires r.Tracks(t0, Range(log, from, k), from)
    modifies r, r.engine
    ensures fault.None? ==> r.Tracks(t0, Range(log, from, k + 1), from)
    ensures fault.Some? ==> r.Stopped(t0, log, from, to, fault.value) && RefusedAt(r.tree, t0, log, from, to, fault.value)
    ensures fault.Some? && !r.engine.faulty ==> !Replayable(r.tree, t0, log, from, to)
  {
    if ev.version > to || ev.version != k + 1 {
      assert false;
      return Some(OutOfStep);
    }
    ghost var evs := Range(log, from, k);
    assert Range(log, from, k + 1) == evs + [ev] && ev.version == from + |evs|;
    TrackedValue(r, t0, log, from, k);
    ghost var reached, before := r.reached, r.engine.held.value;
    hide *;
    fault := r.Accept(ev, t0, evs, from);
    if fault.Some? {
      TrackedRange(log, from, k);
      LastOfRange(log, from, k);
      CallStops(r, t0, log, from, to, reached, before, fault.value);
      RefusedNext(r.tree, t0, log, from, to, k, fault.value);
      if !r.engine.faulty { StopIsFinal(r.tree, t0, log, from, to, k); }
    }
  }

  /** Takes in one page, the events after version taken. */
  method TakePage(log: seq<Event>, r: Replayer, ghost t0: Tree, from: int, to: int, taken: int, page: seq<Event>)
    returns (k: int, fault: Option<ReplayFault>)
    requires Numbered(log) && 1 <= from <= taken + 1 && taken + |page| <= to && taken + |page| <= |log|
    requires page == log[taken..taken + |page|]
    requires r.Tracks(t0, Range(log, from, taken), from)
    modifies r, r.engine
    ensures fault.None? ==> k == taken + |page| && r.Tracks(t0, Range(log, from, k), from)
    ensures fault.Some? ==> r.Stopped(t0, log, from, to, fault.value) && RefusedAt(r.tree, t0, log, from, to, fault.value)
    ensures fault.Some? && !r.engine.faulty ==> !Replayable(r.tree, t0, log, from, to)
  {
    hide *;
    k := taken;
    for i := 0 to |page|
      invariant k == taken + i
      invariant r.Tracks(t0, Range(log, from, k), from)
    {
      assert page[i] == log[taken + i];
      fault := TakeNext(log, r, t0, from, to, k, page[i]);
      if fault.Some? {
        return;
      }
      k := k + 1;
    }
    fault := None;
  }
}
