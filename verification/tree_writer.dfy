/**
 * The writer of one tree: it rebuilds the tree in the engine, redelivers the
 * stream's last event, appends and projects, stores snapshots, and rejects an
 * event that cannot apply. Any read, write or call can fail, before or after it
 * took effect.
 *
 * Every operation is a run of protocol steps.
 */
module TreeWriting {
  import opened TreeTypes
  import opened EngineTree
  import opened TreeStore
  import opened Replay
  import opened Protocol
  import opened EngineWorker
  import opened ReplayStream
  import opened TreeConsumer
  import opened Delivery
  import opened TreeMembership
  import opened Building
  import opened WriterFacts
  import LoaderRules
  import ReplayOrder

  class TreeWriter {
    const tree: Id
    const faulty: bool
    var log: seq<Event>
    const store: StoreLink
    var snap: Option<Snapshot>
    const engine: Worker
    const consumer: Consumer

    /** What outlives the process. */
    ghost function Durable(): World
      reads this, store
    {
      World(log, store.s, snap)
    }

    ghost predicate Valid()
      reads this, store
    {
      && store.tree == tree && store.faulty == faulty && engine.faulty == faulty
      && consumer.tree == tree && consumer.store == store && consumer.engine == engine
      && Inv(tree, Durable())
    }

    constructor (tree: Id, faulty: bool)
      ensures Valid() && this.tree == tree && this.faulty == faulty
      ensures Durable() == EMPTY_WORLD && engine.held == None
      ensures fresh(store) && fresh(engine)
    {
      var s := new StoreLink(tree, EMPTY_STORE, faulty);
      var e := new Worker(faulty);
      var c := new Consumer(tree, s, e);
      this.tree, this.faulty, store, engine, consumer := tree, faulty, s, e, c;
      log, snap := [], None;
      new;
      EmptyWorldInv(tree);
    }

    /** A read of the stream, or None when it failed. */
    method ReadStream<T>(value: T) returns (r: Option<T>)
      ensures r.Some? ==> r.value == value
      ensures !faulty ==> r.Some?
    {
      var fails: bool := *;
      return if faulty && fails then None else Some(value);
    }

    /** The kind version 1 records, None for an empty stream. */
    method ReadShape() returns (r: Option<Option<Kind>>)
      requires Valid()
      ensures r.Some? ==> r.value == if log == [] then None else Some(KindOf(log))
      ensures !faulty ==> r.Some?
    {
      var first := ReadStream(if log == [] then None else Some(log[0]));
      if first.None? {
        return None;
      }
      if first.value.None? {
        return Some(None);
      }
      var p := first.value.value.payload;
      if !p.RootAdded? || p.tree != tree {
        assert false;
        return None;
      }
      return Some(Some(p.kind));
    }

    // ----- Building the tree -----

    /** Compares a full replay's engine with the active rows. */
    method CheckReplayed(root: Option<Id>, rows: seq<Row>) returns (fault: Option<BuildFault>)
      requires engine.held.Some? && engine.faulty == faulty
      ensures fault.None? ==> Matches(engine.held.value, root, rows)
      ensures fault.Some? ==> fault.value.Mismatch? || fault.value.MembershipFailed?
      ensures !faulty && fault.Some? ==> !Matches(engine.held.value, root, rows)
    {
      hide Reported, RowMembers, RootOfRows;
      if rows == [] {
        return if root.None? then None else Some(Mismatch);
      }
      if root.None? {
        return Some(Mismatch);
      }
      var first: Option<Id> := None;
      for i := 0 to |rows|
        invariant first == FirstRoot(rows[..i])
      {
        assert Init(rows[..i + 1]) == rows[..i];
        if first.None? && rows[i].depth == 0 {
          first := Some(rows[i].user);
        }
      }
      assert rows[..|rows|] == rows;
      if first.Some? && first != root {
        return Some(Mismatch);
      }
      var c := CheckMembership(engine, rows);
      match c
      case Agree => return None;
      case Differ(_, _, _) => return Some(Mismatch);
      case Failed(_) => return Some(MembershipFailed);
    }

    /** Creates the structure and replays the whole stream through the projected version. */
    method BuildFromStream(kind: Kind, p: int, rows: seq<Row>) returns (fault: Option<BuildFault>)
      requires Valid() && KindFits(kind, log) && p == Projected(tree, Durable())
      requires multiset(rows) == multiset(ActiveRows(store.s.nodes, tree))
      modifies engine
      ensures fault.None? ==> engine.held.Some? && engine.held == Target(tree, kind, log, p)
      ensures fault.Some? ==> !fault.value.RowsInvalid? && !fault.value.SnapshotFailed? && Grounded(tree, Durable(), RetryPrepare(BuildFailed(fault.value)))
      ensures !faulty && old(engine.held).None? && Target(tree, kind, log, p).Some? ==> fault.None?
    {
      hide Inv, Target, Matches, Replayable, Through, StoppedAt, LogOk, Effective, ReplayFrom, RefusedAt, RootOf, KindFits, CallsOf, Range;
      ghost var w := Durable();
      InvBasics(tree, w);
      assert WellFormed(kind, []);
      var ok := engine.Create(kind);
      if !ok {
        return Some(CreateFailed);
      }
      WholeStream(tree, kind, log, p);
      var r := new Replayer(tree, engine, 0);
      var failed := ReplayRange(log, r, 1, p, faulty);
      if failed.Some? {
        if failed.value.CallRefused? { RefusedInStream(tree, kind, log, p, failed.value); }
        return Some(ReplayFailed(failed.value));
      }
      TargetMatches(tree, kind, w, engine.held.value, rows);
      fault := CheckReplayed(r.root, rows);
    }

    /** Restores the snapshot and replays the events after it. */
    method BuildFromSnapshot(kind: Kind, p: int, rows: seq<Row>, s: Snapshot) returns (restored: bool, fault: Option<SnapshotFault>)
      requires Valid() && KindFits(kind, log) && p == Projected(tree, Durable()) && snap == Some(s)
      requires multiset(rows) == multiset(ActiveRows(store.s.nodes, tree))
      modifies engine
      ensures fault.None? ==> engine.held.Some? && engine.held == Target(tree, kind, log, p)
      ensures restored ==> engine.held.Some?
      ensures fault.Some? && fault.value.RestoreError? ==> !fault.value.reply.Restored?
      ensures fault.Some? && fault.value.Compared? ==> !fault.value.comparison.Agree?
      ensures !faulty && old(engine.held).None? && Target(tree, kind, log, p).Some? ==> restored && fault == if rows == [] then Some(NoRows) else None
    {
      hide Inv, Target, Replayable, Through, StoppedAt, LogOk, Effective, ReplayFrom, RefusedAt, CallsOf, Range, RootOf, Reported, RowMembers, WellFormed;
      ghost var w := Durable();
      InvBasics(tree, w);
      SnapshotAndTail(tree, w);
      TargetIsThrough(tree, kind, log, p);
      var reply := engine.Restore(s.tree);
      if !reply.Restored? {
        return false, Some(RestoreError(reply));
      }
      var r := new Replayer(tree, engine, s.version);
      var failed := ReplayRange(log, r, s.version + 1, p, faulty);
      if failed.Some? {
        return true, Some(TailFailed(failed.value));
      }
      if rows == [] {
        return true, Some(NoRows);
      }
      RowsMatchTarget(tree, kind, w, engine.held.value, rows);
      var c := CheckMembership(engine, rows);
      if !c.Agree? {
        return true, Some(Compared(c));
      }
      return true, None;
    }

    /** Deletes the stored snapshot. The delete can fail. */
    method DiscardSnapshot()
      requires Valid()
      modifies this`snap
      ensures Valid() && Reaches(tree, old(Durable()), Durable())
      ensures snap == None || snap == old(snap)
      ensures !faulty ==> snap == None
    {
      hide Inv;
      var fails: bool := *;
      InvBasics(tree, Durable());
      if faulty && fails {
        ReachesItself(tree, Durable());
        return;
      }
      ghost var w := Durable();
      snap := None;
      OneStep(tree, w, DropSnapshot, Durable());
    }

    /** The stored snapshot when a load can restore it. One it cannot restore is deleted. */
    method UsableSnapshot(kind: Kind, p: int) returns (r: Usable, kept: int)
      requires Valid() && KindFits(kind, log) && p == Projected(tree, Durable())
      modifies this`snap
      ensures Valid() && Reaches(tree, old(Durable()), Durable())
      ensures snap == old(snap)
      ensures r.Use? ==> snap == Some(r.snapshot) && kept == r.snapshot.version
      ensures kept == 0 || kept == VersionOf(snap)
      ensures r.NoSnapshot? ==> kept == 0
      ensures !faulty ==> r == if snap.Some? then Use(snap.value) else NoSnapshot
    {
      hide Inv;
      ghost var w := Durable();
      ReachesItself(tree, Durable());
      var found := ReadStream(snap);
      if found.None? || found.value.None? {
        return NoSnapshot, 0;
      }
      var s := found.value.value;
      InvBasics(tree, Durable());
      var next: Option<Event> := None;
      if s.version < p {
        var read := ReadStream(if s.version < |log| then Some(log[s.version]) else None);
        if read.None? {
          return UnknownNext, s.version;
        }
        next := read.value;
      }
      if Unusable(kind, p, s, next) {
        DiscardSnapshot();
        StoredSnapshotIsUsable(tree, w, kind);
        assert false;
        return NoSnapshot, 0;
      }
      return Use(s), s.version;
    }

    /** Drops the structure a failed snapshot build left. */
    method DropBuilt(restored: bool) returns (ok: bool)
      requires engine.faulty == faulty
      modifies engine
      ensures ok ==> engine.held == None
      ensures !faulty && (restored ==> old(engine.held).Some?) ==> ok
    {
      var dropped := engine.DropStructure();
      return dropped.Some? && (restored ==> dropped.value);
    }

    /**
     * Builds the tree in the engine: from a usable snapshot and the events after
     * it, or from the whole stream. kept is the version of the snapshot left in
     * place, or 0.
     */
    method Build(kind: Kind, p: int, rows: seq<Row>) returns (fault: Option<BuildFault>, kept: int)
      requires Valid() && KindFits(kind, log) && p == Projected(tree, Durable())
      requires multiset(rows) == multiset(ActiveRows(store.s.nodes, tree))
      modifies this`snap, engine
      ensures Valid() && Reaches(tree, old(Durable()), Durable())
      ensures fault.None? ==> engine.held.Some? && engine.held == Target(tree, kind, log, p)
      ensures fault.Some? ==> Grounded(tree, Durable(), RetryPrepare(BuildFailed(fault.value)))
      ensures fault.Some? && fault.value.RowsInvalid? ==> Through(tree, log, p).None?
      ensures !faulty && old(engine.held).None? && Through(tree, log, p).Some? ==> fault.None?
      ensures !faulty && Through(tree, log, p).None? ==> fault.Some? && fault.value.RowsInvalid?
      ensures snap == None || snap == old(snap)
      ensures kept == 0 || kept == VersionOf(snap)
      ensures !faulty && old(engine.held).None? && Through(tree, log, p).Some? ==> snap == LeftByLoad(tree, old(Durable())) && kept == VersionOf(snap)
      ensures fault.Some? && fault.value.SnapshotFailed? ==> EndsTheLoad(fault.value.snapshot)
    {
      hide Inv, Target, LoaderRules.Loadable, LoaderRules.Explains, Through, ActiveRows, EndsTheLoad, FallsBack;
      kept := 0;
      NoRowsEither(rows, ActiveRows(store.s.nodes, tree));
      ghost var w := Durable();
      InvBasics(tree, w);
      ReachesItself(tree, w);
      RowsLoad(tree, kind, w, rows);
      TargetFacts(tree, kind, w);
      var invalid := ReplayOrder.Preflight(LoaderRules.RuleFor(kind), rows);
      if invalid.Some? {
        return Some(RowsInvalid(invalid.value)), kept;
      }
      var usable;
      usable, kept := UsableSnapshot(kind, p);
      if usable.UnknownNext? {
        return Some(NextReadFailed), kept;
      }
      if usable.Use? {
        var restored, broken := BuildFromSnapshot(kind, p, rows, usable.snapshot);
        if broken.None? {
          return None, kept;
        }
        FallsBackOrEnds(broken.value);
        if !FallsBack(broken.value) {
          return Some(SnapshotFailed(broken.value)), kept;
        }
        var dropped := DropBuilt(restored);
        if !dropped {
          return Some(DropFailed), kept;
        }
        ghost var mid := Durable();
        kept := 0;
        DiscardSnapshot();
        ReachesTrans(tree, w, mid, Durable());
      }
      fault := BuildFromStream(kind, p, rows);
    }

    // ----- The stream's end -----

    /** Whether the rejection names the event directly before it, None when the read failed. */
    method CheckRejectionTarget(e: Event) returns (r: Option<bool>)
      requires Valid() && e in log && e.IsRejection()
      ensures r.Some? ==> r.value
      ensures !faulty ==> r.Some?
    {
      ghost var k :| 0 <= k < |log| && log[k] == e;
      assert Fits(tree, log, k);
      hide Inv, Fits;
      InvBasics(tree, Durable());
      var prev := ReadStream(log[e.version - 2]);
      if prev.None? {
        return None;
      }
      if e.payload.rejectedVersion != prev.value.version || e.payload.rejectedId != prev.value.id || e.payload.rejectedType != prev.value.Type() {
        assert false;
        return None;
      }
      return Some(true);
    }

    /** Refuses a stream whose last event the store cannot be brought level with by one redelivery. */
    method CheckStream(last: Option<Event>, p: int) returns (fault: Option<PrepareFault>)
      requires Valid() && p == Projected(tree, Durable()) && last == if log == [] then None else Some(Last(log))
      ensures fault.None? ==> WithinOne(tree, Durable())
      ensures fault.Some? ==> fault.value.RejectionPending? || fault.value.StreamRefused?
      ensures !faulty && WithinOne(tree, Durable()) ==> fault.None?
    {
      InvBasics(tree, Durable());
      WithinOneOrPending(tree, Durable());
      if last.Some? && last.value.IsRejection() && p < last.value.version <= p + 2 {
        return Some(RejectionPending);
      }
      if last.Some? && last.value.IsRejection() && last.value.version == p {
        var named := CheckRejectionTarget(last.value);
        if named.None? {
          return Some(StreamRefused);
        }
      }
      var version := if last.Some? then last.value.version else 0;
      if version != p && version != p + 1 {
        return Some(StreamRefused);
      }
      return None;
    }

    /** Builds the tree, and goes ahead only with a store at most one event behind. */
    method Prepare(kind: Kind) returns (r: Result<Prepared, PrepareFault>)
      requires Valid() && KindFits(kind, log)
      modifies this`snap, engine
      ensures Valid() && Reaches(tree, old(Durable()), Durable())
      ensures r.Ok? ==>
                && WithinOne(tree, Durable()) && r.value.loaded == Projected(tree, Durable())
                && engine.held.Some? && engine.held == Target(tree, kind, log, r.value.loaded)
                && r.value.last == (if log == [] then None else Some(Last(log)))
                && r.value.nodes == |ActiveRows(store.s.nodes, tree)|
      ensures r.Err? ==> Grounded(tree, Durable(), RetryPrepare(r.error))
      ensures !faulty && old(engine.held).None? && WithinOne(tree, Durable()) ==>
                if Through(tree, log, Projected(tree, Durable())).Some? then r.Ok? else r.Err? && r.error.BuildFailed? && r.error.build.RowsInvalid?
      ensures !WithinOne(tree, Durable()) ==> r.Err?
      ensures r.Ok? ==> r.value.snapshotVersion == 0 || r.value.snapshotVersion == VersionOf(snap)
      ensures !faulty && old(engine.held).None? && r.Ok? ==>
                snap == LeftByLoad(tree, old(Durable())) && r.value.snapshotVersion == VersionOf(snap)
    {
      hide Inv, Target, Through, WithinOne, LeftByLoad;
      InvBasics(tree, Durable());
      ReachesItself(tree, Durable());
      var read := store.ProjectedRows();
      if read.None? {
        return Err(StoreReadFailed);
      }
      var (p, rows) := read.value;
      assert |rows| == |multiset(rows)|;
      assert |ActiveRows(store.s.nodes, tree)| == |multiset(ActiveRows(store.s.nodes, tree))|;
      var failed, kept := Build(kind, p, rows);
      var last := ReadStream(if log == [] then None else Some(Last(log)));
      if last.None? {
        return Err(if failed.Some? then BuildFailed(failed.value) else LastReadFailed);
      }
      var refused := CheckStream(last.value, p);
      if refused.Some? {
        return Err(refused.value);
      }
      if failed.Some? {
        return Err(BuildFailed(failed.value));
      }
      return Ok(Prepared(p, last.value, |rows|, kept));
    }

    // ----- Delivering the last event -----

    /**
     * Hands the stream's last event to the consumer, with the engine built
     * through the projected version. Whatever fails, the event landed whole or
     * the store is as it was.
     */
    method Deliver() returns (fault: Option<Fault>)
      requires Valid() && engine.held.Some? && Built(tree, Durable(), engine.held.value)
      modifies store, engine
      ensures Valid() && Reaches(tree, old(Durable()), Durable())
      ensures fault.None? ==> Projected(tree, Durable()) == |log| && engine.held.Some? && engine.held == Through(tree, log, |log|)
      ensures fault.Some? && IsEvidence(fault.value) ==> Through(tree, log, |log|).None?
      ensures store.s == old(store.s) || (Projected(tree, old(Durable())) < |log| && Projected(tree, Durable()) == |log|)
      ensures !faulty && fault.Some? ==> Decided(tree, old(Durable()), fault.value)
      ensures TooDeep(tree, old(Durable())) ==> fault.Some? && store.s == old(store.s)
      ensures !faulty && TooDeep(tree, old(Durable())) ==> !IsEvidence(fault.value)
      ensures fault != Some(Diverged)
    {
      hide Inv, Through, Retried, Malformed, RootRowAdded, PlacedRowAdded, Landed, Mutate, InsertOf, TurnedAway, RowStands, Decided, Undone, PlacedAsStored, RootMatches, HasStamp, ProjectInsert, Acceptable;
      ghost var w, t := Durable(), engine.held.value;
      var e := Last(log);
      ghost var at := 0;
      BuiltFacts(tree, w, t);
      match e.payload {
        case RootAdded(_, _, _, _, _) =>
          fault := consumer.HandleRootAdded(e);
          at := RootSound(tree, w, t, store.s, engine.held.value, fault);
          if !faulty && fault.Some? { RootDecided(tree, w, t, fault.value); }
        case NodePlaced(_, _, _, _, _, _, _) =>
          fault := consumer.HandleNodePlaced(e);
          PlacedDelivery(tree, w, t, store.s, engine.held.value, fault, at);
          if !faulty && fault.Some? {
            PlacedDecided(tree, w, t, store.s, fault.value);
            if TooDeep(tree, w) { DeepIsNotEvidence(tree, w, t, store.s, fault.value); }
          }
        case NodeRemoved(_, _, _) =>
          fault, at := consumer.HandleNodeRemoved(e);
          RemovedDelivery(tree, w, t, store.s, engine.held.value, fault, at);
          if !faulty && fault.Some? { RemovedDecided(tree, w, t, fault.value, at); }
        case EventRejected(_, _, _, _, _) =>
          assert false;
          fault := Some(Fault.BadRejection);
        case Unreadable(_) =>
          fault := Some(Unprojectable);
          UnreadableDecided(tree, w, t);
      }
      SoundReaches(tree, w, t, Durable(), engine.held.value, fault, at);
    }

    /** Redelivers the stream's last event. Redelivering one that is already projected changes nothing. */
    method CatchUp(e: Event) returns (fault: Option<Fault>)
      requires Valid() && log != [] && e == Last(log) && WithinOne(tree, Durable())
      requires engine.held.Some? && engine.held == Through(tree, log, Projected(tree, Durable()))
      modifies store, engine
      ensures Valid() && Reaches(tree, old(Durable()), Durable())
      ensures fault.None? ==> Projected(tree, Durable()) == |log| && engine.held.Some? && engine.held == Through(tree, log, |log|)
      ensures fault.Some? && IsEvidence(fault.value) ==> Through(tree, log, |log|).None?
      ensures store.s == old(store.s) || (Projected(tree, old(Durable())) < |log| && Projected(tree, Durable()) == |log|)
      ensures !faulty && fault.Some? ==> Decided(tree, old(Durable()), fault.value)
      ensures TooDeep(tree, old(Durable())) ==> fault.Some? && store.s == old(store.s)
      ensures !faulty && TooDeep(tree, old(Durable())) ==> !IsEvidence(fault.value)
      ensures !faulty && Projected(tree, old(Durable())) == |log| ==> fault.None? && engine.held == old(engine.held)
    {
      hide Inv, Through;
      InvBasics(tree, Durable());
      if !e.IsRejection() {
        fault := Deliver();
        return;
      }
      ghost var w := Durable();
      ReachesItself(tree, w);
      RejectionIsReadable(tree, log);
      var named := CheckRejectionTarget(e);
      if named.None? {
        return Some(IoFailed);
      }
      ghost var at;
      fault, at := consumer.HandleEventRejected(e);
      RejectionSettled(tree, w, at);
    }

    // ----- Appending and projecting -----

    /**
     * Appends one event. A lost reply is settled by reading the version back:
     * the answer is unknown only when that read fails too.
     */
    method Append(e: Event) returns (r: AppendReply)
      requires e.version == |log| + 1
      modifies this`log
      ensures r.Appended? ==> log == old(log) + [e]
      ensures r.NotAppended? ==> log == old(log)
      ensures r.AppendUnknown? ==> log == old(log) || log == old(log) + [e]
      ensures log != old(log) ==> forall x :: x in old(log) ==> x.id != e.id
      ensures !faulty ==> if forall x :: x in old(log) ==> x.id != e.id then r.Appended? else r.NotAppended?
    {
      ghost var was := log;
      var fails: bool, lost: bool := *, *;
      if !(faulty && fails) && forall x :: x in log ==> x.id != e.id {
        log := log + [e];
        if !(faulty && lost) {
          return Appended;
        }
      }
      var stored := ReadStream(if |log| >= e.version then Some(log[e.version - 1]) else None);
      if stored.None? {
        return AppendUnknown;
      }
      return if stored.value.Some? && stored.value.value.id == e.id then Appended else NotAppended;
    }

    /** Reads back the stream's last event and projects that copy. */
    method Project(id: Id) returns (fault: Option<Fault>)
      requires Valid() && log != [] && Last(log).id == id
      requires if Last(log).IsRejection() then Projected(tree, Durable()) < |log|
               else engine.held.Some? && Built(tree, Durable(), engine.held.value)
      modifies store, engine
      ensures Valid() && Reaches(tree, old(Durable()), Durable())
      ensures fault.None? ==> Projected(tree, Durable()) == |log| && Through(tree, log, |log|).Some?
      ensures fault.None? && !Last(log).IsRejection() ==> engine.held == Through(tree, log, |log|)
      ensures !faulty && Last(log).IsRejection() ==> fault.None?
      ensures !faulty && !Last(log).IsRejection() && fault.Some? ==> Decided(tree, old(Durable()), fault.value)
      ensures !Last(log).IsRejection() && TooDeep(tree, old(Durable())) ==> fault.Some?
    {
      hide Inv, Through, Built, Decided, TooDeep;
      ghost var w := Durable();
      InvBasics(tree, w);
      ReachesItself(tree, w);
      var stored := ReadStream(Last(log));
      if stored.None? {
        return Some(IoFailed);
      }
      if !stored.value.IsRejection() {
        fault := Deliver();
        return;
      }
      RejectionIsReadable(tree, log);
      var named := CheckRejectionTarget(stored.value);
      if named.None? {
        return Some(IoFailed);
      }
      ghost var at;
      fault, at := consumer.HandleEventRejected(stored.value);
      RejectionStep(tree, w, Durable(), at);
    }

    /** Stores the engine's tree as the snapshot at the version just written. Any part of it can fail. */
    method TakeSnapshot()
      requires Valid() && log != [] && Projected(tree, Durable()) == |log|
      requires engine.held.Some? && engine.held == Through(tree, log, |log|)
      modifies this`snap
      ensures Valid() && Reaches(tree, old(Durable()), Durable())
      ensures snap == old(snap) || snap == Some(Snapshot(|log|, engine.held.value))
      ensures old(snap).Some? && old(snap).value.version >= |log| ==> snap == old(snap)
      ensures !faulty && (old(snap).Some? ==> old(snap).value.version < |log|) ==> snap == Some(Snapshot(|log|, engine.held.value))
    {
      hide Inv, Through;
      ghost var w := Durable();
      InvBasics(tree, w);
      ReachesItself(tree, w);
      var projected := store.Read(ProjectedVersion(store.s, tree));
      var fails: bool := *;
      if projected.None? || projected.value != |log| || (faulty && fails) {
        return;
      }
      if snap.Some? && snap.value.version >= |log| {
        return;
      }
      snap := Some(Snapshot(|log|, engine.held.value));
      OneStep(tree, w, Step.TakeSnapshot, Durable());
    }

    /** The engine, with the whole stream replayed, takes the event. */
    predicate CanTake(kind: Kind, events: seq<Event>, p: Payload) {
      var t := Target(tree, kind, events, |events|);
      t.Some? && Mutate(t.value, p).Ok?
    }

    /** The locked part of a write: build, catch up, check, append, project. */
    method Write(kind: Kind, id: Id, payload: Payload) returns (r: WriteReply)
      requires Valid() && KindFits(kind, log)
      requires payload.RootAdded? || payload.NodePlaced? || payload.NodeRemoved?
      requires log == [] ==> payload.RootAdded? && payload.tree == tree && payload.kind == kind
      modifies this, store, engine
      ensures Valid() && Reaches(tree, old(Durable()), Durable())
      ensures r.NotWritten? ==> log == old(log)
      ensures r.Wrote? ==> log == old(log) + [Event(id, |old(log)| + 1, payload)]
      ensures r.OutcomeUnknown? ==> log == old(log) || log == old(log) + [Event(id, |old(log)| + 1, payload)]
      ensures !r.NotWritten? ==> Through(tree, old(log), |old(log)|).Some?
      ensures !r.NotWritten? ==> CanTake(kind, old(log), payload)
      ensures !faulty && old(engine.held).None? ==>
                && (if Writable(tree, kind, old(Durable()), id, payload) then r.Wrote? else r.NotWritten?)
                && (r.Wrote? ==>
                      var t := Target(tree, kind, old(log), |old(log)|).value;
                      r == Wrote(true) <==> Applies(tree, t, payload) && !Deep(t, payload))
                && (r == Wrote(true) ==> SnapshotFollows(LeftByLoad(tree, old(Durable())), |log|, engine.held, snap))
                && (r == Wrote(false) ==> snap == LeftByLoad(tree, old(Durable())))
      ensures r == Wrote(true) ==> Projected(tree, Durable()) == |log| && Through(tree, log, |log|).Some? && engine.held == Through(tree, log, |log|)
    {
      hide Inv, Through, Target, Grounded, Mutate, Applies, Deep, LeftByLoad, SnapshotFollows, VersionOf, WithinOne, TooDeep;
      ghost var w := Durable();
      InvBasics(tree, w);
      TargetIsThrough(tree, kind, log, |log|);
      LoadsThrough(tree, w);
      var prep := Prepare(kind);
      SnapshotAside(tree, w, Durable());
      if prep.Err? {
        return NotWritten;
      }
      ghost var mid := Durable();
      InvBasics(tree, mid);
      TargetIsThrough(tree, kind, log, prep.value.loaded);
      if prep.value.last.Some? {
        var failed := CatchUp(prep.value.last.value);
        ReachesTrans(tree, w, mid, Durable());
        if failed.Some? {
          return NotWritten;
        }
      }
      var ok := engine.CheckMutation(payload);
      if !ok {
        return NotWritten;
      }
      TargetIsThrough(tree, kind, log, |log|);
      r := AppendAndProject(kind, Event(id, |log| + 1, payload), prep.value.snapshotVersion, w);
    }

    /** Appends the event to a level stream the engine holds, projects it, and takes a snapshot when one is due. */
    method AppendAndProject(kind: Kind, e: Event, kept: int, ghost w: World) returns (r: WriteReply)
      requires Valid() && KindFits(kind, log) && Reaches(tree, w, Durable()) && Projected(tree, Durable()) == |log|
      requires engine.held.Some? && engine.held == Target(tree, kind, log, |log|)
      requires e.version == |log| + 1 && (e.payload.RootAdded? || e.payload.NodePlaced? || e.payload.NodeRemoved?)
      requires log == [] ==> e.payload.RootAdded? && e.payload.tree == tree && e.payload.kind == kind
      modifies this, store, engine
      ensures Valid() && Reaches(tree, w, Durable())
      ensures r.NotWritten? ==> log == old(log)
      ensures r.Wrote? ==> log == old(log) + [e]
      ensures r.OutcomeUnknown? ==> log == old(log) || log == old(log) + [e]
      ensures Through(tree, old(log), |old(log)|).Some?
      ensures !faulty && (forall x :: x in old(log) ==> x.id != e.id) ==> r.Wrote?
      ensures !faulty && (exists x :: x in old(log) && x.id == e.id) ==> r.NotWritten?
      ensures !faulty && r.Wrote? ==>
                var t := Target(tree, kind, old(log), |old(log)|).value;
                r == Wrote(true) <==> Applies(tree, t, e.payload) && !Deep(t, e.payload)
      ensures snap == old(snap) || (r == Wrote(true) && |log| - kept >= 1000 && engine.held.Some? && snap == Some(Snapshot(|log|, engine.held.value)))
      ensures !faulty && r == Wrote(true) && kept == VersionOf(old(snap)) ==> SnapshotFollows(old(snap), |log|, engine.held, snap)
      ensures r == Wrote(true) ==> Projected(tree, Durable()) == |log| && Through(tree, log, |log|).Some? && engine.held == Through(tree, log, |log|)
    {
      hide Inv, Through, Target, TooDeep, Built, Mutate, Applies, Deep, IsEvidence;
      ghost var level := Durable();
      TargetIsThrough(tree, kind, log, |log|);
      var reply := Append(e);
      ghost var longer := Durable();
      if log != level.log {
        AppendStep(tree, level, e, longer, kind, engine.held.value);
        Projects(tree, longer, engine.held.value);
        ReachesTrans(tree, w, level, longer);
      }
      if reply.NotAppended? {
        return NotWritten;
      }
      if reply.AppendUnknown? {
        return OutcomeUnknown;
      }
      var failed := Project(e.id);
      ReachesTrans(tree, w, longer, Durable());
      if failed.None? && e.version - kept >= SNAPSHOT_INTERVAL {
        ghost var projected := Durable();
        TakeSnapshot();
        ReachesTrans(tree, w, projected, Durable());
      }
      return Wrote(failed.None?);
    }

    // ----- The operations -----

    /** Appends a root_added and projects it. The first one fixes the tree's kind; a later one must name it. */
    method AddRoot(id: Id, user: Id, sponsor: Id, kind: Kind, enrolled: Time) returns (r: WriteReply)
      requires Valid()
      modifies this, store, engine
      ensures Valid() && Reaches(tree, old(Durable()), Durable())
      ensures r.NotWritten? ==> log == old(log)
      ensures !r.NotWritten? ==>
                && KindFits(kind, old(log)) && Through(tree, old(log), |old(log)|).Some?
                && (log == old(log) + [Event(id, |old(log)| + 1, RootAdded(tree, user, sponsor, enrolled, kind))] || (r.OutcomeUnknown? && log == old(log)))
      ensures r == Wrote(true) ==> Projected(tree, Durable()) == |log| && engine.held.Some? && engine.held == Through(tree, log, |log|)
      ensures !faulty && old(engine.held).None? && r == Wrote(true) ==> SnapshotFollows(LeftByLoad(tree, old(Durable())), |log|, engine.held, snap)
      ensures !r.NotWritten? ==> CanTake(kind, old(log), RootAdded(tree, user, sponsor, enrolled, kind))
      ensures !faulty && old(engine.held).None? ==>
                if KindFits(kind, old(log)) && Writable(tree, kind, old(Durable()), id, RootAdded(tree, user, sponsor, enrolled, kind))
                then r == Wrote(true) else r.NotWritten?
    {
      hide Inv, Through, Target, Loads, Mutate, Applies, LeftByLoad;
      var shape := ReadShape();
      if shape.None? || (shape.value.Some? && shape.value.value != kind) {
        ReachesItself(tree, Durable());
        return NotWritten;
      }
      ghost var t := Target(tree, kind, log, |log|);
      TargetShape(tree, kind, log);
      if t.Some? && Mutate(t.value, RootAdded(tree, user, sponsor, enrolled, kind)).Ok? { CheckedApplies(tree, t.value, RootAdded(tree, user, sponsor, enrolled, kind)); }
      r := Write(kind, id, RootAdded(tree, user, sponsor, enrolled, kind));
    }

    /** Appends a node_placed at the parent and position given, and projects it. */
    method Place(id: Id, user: Id, parent: Id, sponsor: Id, position: Option<int>, enrolled: Time) returns (r: WriteReply)
      requires Valid()
      modifies this, store, engine
      ensures Valid() && Reaches(tree, old(Durable()), Durable())
      ensures r.NotWritten? ==> log == old(log)
      ensures !r.NotWritten? ==>
                && old(log) != [] && LoaderRules.PositionOk(LoaderRules.RuleFor(KindOf(old(log))), position)
                && Through(tree, old(log), |old(log)|).Some?
                && (|| log == old(log) + [Event(id, |old(log)| + 1, NodePlaced(tree, user, parent, sponsor, position, KindOf(old(log)), enrolled))]
                    || (r.OutcomeUnknown? && log == old(log)))
      ensures r == Wrote(true) ==> Projected(tree, Durable()) == |log| && engine.held.Some? && engine.held == Through(tree, log, |log|)
      ensures !faulty && old(engine.held).None? && r == Wrote(true) ==> SnapshotFollows(LeftByLoad(tree, old(Durable())), |log|, engine.held, snap)
      ensures !r.NotWritten? ==> CanTake(KindOf(old(log)), old(log), NodePlaced(tree, user, parent, sponsor, position, KindOf(old(log)), enrolled))
      ensures !faulty && old(engine.held).None? ==>
                var kind := KindOf(old(log));
                var placed := NodePlaced(tree, user, parent, sponsor, position, kind, enrolled);
                if old(log) != [] && LoaderRules.PositionOk(LoaderRules.RuleFor(kind), position) && Writable(tree, kind, old(Durable()), id, placed)
                then r == Wrote(!Deep(Target(tree, kind, old(log), |old(log)|).value, placed)) else r.NotWritten?
    {
      hide Inv, Through, Target, Loads, Mutate, Applies, Deep, LeftByLoad;
      var shape := ReadShape();
      if shape.None? || shape.value.None? || !LoaderRules.PositionOk(LoaderRules.RuleFor(shape.value.value), position) {
        ReachesItself(tree, Durable());
        return NotWritten;
      }
      ghost var t := Target(tree, shape.value.value, log, |log|);
      TargetShape(tree, shape.value.value, log);
      if t.Some? && Mutate(t.value, NodePlaced(tree, user, parent, sponsor, position, shape.value.value, enrolled)).Ok? { CheckedApplies(tree, t.value, NodePlaced(tree, user, parent, sponsor, position, shape.value.value, enrolled)); }
      r := Write(shape.value.value, id, NodePlaced(tree, user, parent, sponsor, position, shape.value.value, enrolled));
    }

    /** Appends a node_removed and projects it. */
    method Remove(id: Id, user: Id) returns (r: WriteReply)
      requires Valid()
      modifies this, store, engine
      ensures Valid() && Reaches(tree, old(Durable()), Durable())
      ensures r.NotWritten? ==> log == old(log)
      ensures !r.NotWritten? ==>
                && old(log) != [] && Through(tree, old(log), |old(log)|).Some?
                && (|| log == old(log) + [Event(id, |old(log)| + 1, NodeRemoved(tree, user, Some(KindOf(old(log)))))]
                    || (r.OutcomeUnknown? && log == old(log)))
      ensures r == Wrote(true) ==> Projected(tree, Durable()) == |log| && engine.held.Some? && engine.held == Through(tree, log, |log|)
      ensures !faulty && old(engine.held).None? && r == Wrote(true) ==> SnapshotFollows(LeftByLoad(tree, old(Durable())), |log|, engine.held, snap)
      ensures !r.NotWritten? ==> CanTake(KindOf(old(log)), old(log), NodeRemoved(tree, user, Some(KindOf(old(log)))))
      ensures !faulty && old(engine.held).None? ==>
                if old(log) != [] && Writable(tree, KindOf(old(log)), old(Durable()), id, NodeRemoved(tree, user, Some(KindOf(old(log)))))
                then r == Wrote(true) else r.NotWritten?
    {
      hide Inv, Through, Target, Loads, Mutate, Applies, LeftByLoad;
      var shape := ReadShape();
      if shape.None? || shape.value.None? {
        ReachesItself(tree, Durable());
        return NotWritten;
      }
      ghost var t := Target(tree, shape.value.value, log, |log|);
      TargetShape(tree, shape.value.value, log);
      if t.Some? && Mutate(t.value, NodeRemoved(tree, user, Some(shape.value.value))).Ok? { CheckedApplies(tree, t.value, NodeRemoved(tree, user, Some(shape.value.value))); }
      r := Write(shape.value.value, id, NodeRemoved(tree, user, Some(shape.value.value)));
    }

    /**
     * Loads the tree, bringing its store level when it is one event behind.
     *
     * Without failures it succeeds exactly when the stream replays, the last
     * event fits the store, and no rejection waits to be projected.
     */
    method Load(kind: Kind) returns (nodes: Option<nat>)
      requires Valid()
      modifies this, store, engine
      ensures Valid() && Reaches(tree, old(Durable()), Durable()) && log == old(log)
      ensures nodes.Some? ==>
                && KindFits(kind, log) && Projected(tree, Durable()) == |log|
                && engine.held.Some? && engine.held == Target(tree, kind, log, |log|)
                && nodes.value == |ActiveRows(store.s.nodes, tree)|
      ensures !faulty && old(engine.held).None? && KindFits(kind, log) ==>
                (nodes.Some? <==> Through(tree, log, |log|).Some? && WithinOne(tree, old(Durable())) && !TooDeep(tree, old(Durable())))
      ensures store.s == old(store.s) || (Projected(tree, Durable()) == |log| && !TooDeep(tree, old(Durable())))
      ensures !faulty && old(engine.held).None? && nodes.Some? ==> snap == LeftByLoad(tree, old(Durable()))
    {
      hide Inv, Through, Target, Grounded, ActiveRows, LeftByLoad;
      ghost var w := Durable();
      InvBasics(tree, w);
      ReachesItself(tree, w);
      var shape := ReadShape();
      if shape.None? || (shape.value.Some? && shape.value.value != kind) {
        return None;
      }
      WithinOneOrPending(tree, w);
      TargetIsThrough(tree, kind, log, |log|);
      LoadsThrough(tree, w);
      var prep := Prepare(kind);
      if prep.Err? {
        return None;
      }
      ghost var mid := Durable();
      TargetIsThrough(tree, kind, log, prep.value.loaded);
      if prep.value.last.None? || prep.value.last.value.version != prep.value.loaded + 1 {
        return Some(prep.value.nodes);
      }
      var failed := CatchUp(prep.value.last.value);
      ReachesTrans(tree, w, mid, Durable());
      if failed.Some? {
        return None;
      }
      var after := store.Read(ProjectedVersion(store.s, tree));
      var rows := store.Read(ActiveRows(store.s.nodes, tree));
      return if after.None? || rows.None? then None else Some(|rows.value|);
    }

    // ----- Rejecting -----

    /** Loads the tree and redelivers the stream's last event. */
    method Retry(kind: Kind) returns (fault: Option<RetryFault>)
      requires Valid() && log != [] && kind == KindOf(log)
      modifies this`snap, store, engine
      ensures Valid() && Reaches(tree, old(Durable()), Durable())
      ensures fault.None? ==> Through(tree, log, |log|).Some?
      ensures fault.Some? ==> Grounded(tree, Durable(), fault.value)
      ensures !faulty && old(engine.held).None? && WithinOne(tree, old(Durable())) && !TooDeep(tree, old(Durable())) ==>
                Through(tree, log, |log|).Some? || (fault.Some? && Shown(fault.value))
      ensures !faulty && old(engine.held).None? && TooDeep(tree, old(Durable())) ==>
                fault.Some? && fault.value.RetryDelivery? && !IsEvidence(fault.value.delivery)
    {
      hide Inv, Through, Target, ActiveRows;
      ghost var w := Durable();
      InvBasics(tree, w);
      LoadsThrough(tree, w);
      DeepIsBuilt(tree, w);
      var prep := Prepare(kind);
      if prep.Err? {
        return Some(RetryPrepare(prep.error));
      }
      ghost var mid := Durable();
      TargetIsThrough(tree, kind, log, prep.value.loaded);
      var failed := CatchUp(prep.value.last.value);
      ReachesTrans(tree, w, mid, Durable());
      return if failed.Some? then Some(RetryDelivery(failed.value)) else None;
    }

    /** The rows without the ones that carry the id, and whether there were any. */
    method LeaveOut(rows: seq<Row>, id: Id) returns (remaining: seq<Row>, held: bool)
      ensures remaining == Without(rows, id)
      ensures held <==> exists n :: n in rows && n.id == id
    {
      remaining, held := [], false;
      for i := 0 to |rows|
        invariant remaining == Without(rows[..i], id)
        invariant held <==> exists n :: n in rows[..i] && n.id == id
      {
        assert rows[..i + 1] == rows[..i] + [rows[i]];
        InitOfAppend(rows[..i], rows[i]);
        if rows[i].id == id {
          held := true;
        } else {
          remaining := remaining + [rows[i]];
        }
      }
      assert rows[..|rows|] == rows;
    }

    /** Whether an active row carries the id, and the other active rows load without it. None when the read failed. */
    method StuckRowStopsTheLoad(kind: Kind, id: Id) returns (r: Option<bool>, ghost all: seq<Row>)
      requires Valid()
      ensures multiset(all) == multiset(ActiveRows(store.s.nodes, tree))
      ensures r.Some? ==> (r.value <==> StopsTheLoad(kind, all, id))
      ensures !faulty ==> r.Some?
    {
      hide LoaderRules.Loadable, LoaderRules.Explains, ActiveRows, Inv;
      all := ByDepth(ActiveRows(store.s.nodes, tree));
      var rows := store.Read(ByDepth(ActiveRows(store.s.nodes, tree)));
      if rows.None? {
        return None, all;
      }
      var remaining, held := LeaveOut(rows.value, id);
      if !held {
        return Some(false), all;
      }
      var invalid := ReplayOrder.Preflight(LoaderRules.RuleFor(kind), remaining);
      return Some(invalid.None?), all;
    }

    /** Whether a failed retry shows that the last event cannot apply. None when a read failed. */
    method RejectionEvidence(kind: Kind, f: RetryFault) returns (r: Option<bool>)
      requires Valid() && log != [] && kind == KindOf(log) && !Last(log).IsRejection() && Grounded(tree, Durable(), f)
      ensures r == Some(true) ==> Through(tree, log, |log|).None?
      ensures !faulty && Shown(f) ==> r == Some(true)
      ensures f.RetryDelivery? ==> r == Some(IsEvidence(f.delivery))
    {
      hide Inv, Through, ActiveRows, LoaderRules.Loadable;
      ghost var w := Durable();
      InvBasics(tree, w);
      WithinOneOrPending(tree, w);
      var last := Last(log);
      match f
      case RetryPrepare(BuildFailed(ReplayFailed(CallRefused(e, code)))) =>
        return Some(last.Type() == NodePlacedType && e.version == last.version && e.id == last.id && code in REFUSAL_CODES);
      case RetryPrepare(BuildFailed(RowsInvalid(_))) =>
        ghost var all;
        r, all := StuckRowStopsTheLoad(kind, last.id);
        StuckRowFound(tree, w, all);
        return;
      case RetryPrepare(_) => return Some(false);
      case RetryDelivery(d) => return Some(IsEvidence(d));
    }

    /** Projects the rejection the stream already ends with. */
    method ResumeRejection(event: Id) returns (r: RejectReply)
      requires Valid() && log != [] && Last(log).IsRejection()
      modifies store, engine
      ensures Valid() && Reaches(tree, old(Durable()), Durable())
      ensures r.NotRejected? || r.Resumed? || r.AlreadyApplied?
      ensures r == Resumed(true) || r == AlreadyApplied ==> Projected(tree, Durable()) == |log| && Through(tree, log, |log|).Some?
      ensures !r.NotRejected? ==> Last(log).payload.EventRejected? && Last(log).payload.rejectedId == event
      ensures !faulty && Last(log).payload.EventRejected? && Last(log).payload.rejectedId == event ==>
                r == if Projected(tree, old(Durable())) < |log| then Resumed(true) else AlreadyApplied
    {
      hide Inv, Through;
      ghost var w := Durable();
      InvBasics(tree, w);
      ReachesItself(tree, w);
      RejectionIsReadable(tree, log);
      var last := Last(log);
      var projected := store.Read(ProjectedVersion(store.s, tree));
      if projected.None? || last.payload.rejectedId != event {
        return NotRejected;
      }
      if projected.value == last.version {
        RejectionSettled(tree, w, 0);
        return AlreadyApplied;
      }
      var named := CheckRejectionTarget(last);
      if named.None? {
        return NotRejected;
      }
      var failed := Project(last.id);
      return Resumed(failed.None?);
    }

    /**
     * Rejects the stream's last event when retrying it shows it cannot apply, or
     * projects a rejection already there.
     *
     * A rejection is appended only when the stream cannot be replayed through
     * the event. Without failures it is appended whenever that is so, unless the
     * event does not fit the store.
     */
    method Reject(event: Id, reason: string, id: Id) returns (r: RejectReply)
      requires Valid()
      modifies this, store, engine
      ensures Valid() && Reaches(tree, old(Durable()), Durable())
      ensures !r.Rejected? && !r.RejectUnknown? ==> log == old(log)
      ensures r.Rejected? || log != old(log) ==>
                && old(log) != [] && Last(old(log)).id == event && Through(tree, old(log), |old(log)|).None?
                && log == old(log) + [Event(id, |old(log)| + 1, EventRejected(tree, event, |old(log)|, Last(old(log)).Type(), Trimmed(reason)))]
      ensures r == Rejected(true) || r == Resumed(true) || r == AlreadyApplied ==>
                Projected(tree, Durable()) == |log| && Through(tree, log, |log|).Some?
      ensures !faulty && old(engine.held).None? && HasText(reason) && old(log) != [] && !Last(old(log)).IsRejection() && Last(old(log)).id == event
              && !TooDeep(tree, old(Durable())) && (forall x :: x in old(log) ==> x.id != id) ==>
                (r == Rejected(true) <==> Through(tree, old(log), |old(log)|).None?)
      ensures !faulty && old(engine.held).None? && TooDeep(tree, old(Durable())) ==> r.NotRejected?
      ensures !faulty && HasText(reason) && old(log) != [] && Last(old(log)).payload.EventRejected? && Last(old(log)).payload.rejectedId == event ==>
                r == if Projected(tree, old(Durable())) < |log| then Resumed(true) else AlreadyApplied
    {
      hide Inv, Through, Grounded, TooDeep;
      ghost var w := Durable();
      InvBasics(tree, w);
      ReachesItself(tree, w);
      WithinOneOrPending(tree, w);
      DeepIsBuilt(tree, w);
      var text := Trimmed(reason);
      TrimmedText(reason);
      if text == "" {
        return NotRejected;
      }
      var shape := ReadShape();
      if shape.None? || shape.value.None? {
        return NotRejected;
      }
      var last := ReadStream(Last(log));
      if last.None? {
        return NotRejected;
      }
      if last.value.IsRejection() {
        r := ResumeRejection(event);
        return;
      }
      if last.value.id != event || !last.value.Rejectable() {
        LastIsRejectable(tree, log);
        return NotRejected;
      }
      var failed := Retry(shape.value.value);
      if failed.None? {
        return NotRejected;
      }
      var evidence := RejectionEvidence(shape.value.value, failed.value);
      if evidence != Some(true) {
        return NotRejected;
      }
      r := AppendRejectionAndProject(RejectionOf(tree, last.value, text, id), w);
    }

    method AppendRejectionAndProject(e: Event, ghost w: World) returns (r: RejectReply)
      requires Valid() && Reaches(tree, w, Durable()) && log != [] && !Last(log).IsRejection() && Through(tree, log, |log|).None?
      requires Names(tree, e, Last(log)) && HasText(e.payload.reason) && e.version == |log| + 1
      modifies this, store, engine
      ensures Valid() && Reaches(tree, w, Durable())
      ensures r.NotRejected? || r.RejectUnknown? || r.Rejected?
      ensures r.NotRejected? ==> log == old(log)
      ensures r.Rejected? || log != old(log) ==> log == old(log) + [e]
      ensures r == Rejected(true) ==> Projected(tree, Durable()) == |log| && Through(tree, log, |log|).Some?
      ensures !faulty && (forall x :: x in old(log) ==> x.id != e.id) ==> r == Rejected(true)
    {
      hide Inv, Through;
      ghost var before := Durable();
      var reply := Append(e);
      ghost var longer := Durable();
      if log != before.log {
        AppendRejectionStep(tree, before, e, longer);
        ReachesTrans(tree, w, before, longer);
      }
      if reply.NotAppended? {
        return NotRejected;
      }
      if reply.AppendUnknown? {
        return RejectUnknown;
      }
      var failed := Project(e.id);
      ReachesTrans(tree, w, longer, Durable());
      return Rejected(failed.None?);
    }
  }
}
