/**
 * What the writer's operations rest on: the faults they tell apart, the checks
 * a load ends with, and the protocol step each store or stream write is.
 */
module WriterFacts {
  import opened TreeTypes
  import opened EngineTree
  import opened TreeStore
  import opened Agreement
  import opened Replay
  import opened Protocol
  import opened EngineWorker
  import opened ReplayStream
  import opened TreeConsumer
  import opened Delivery
  import opened StoredRows
  import opened TreeMembership
  import opened Building
  import LoaderRules

  /** How far a stream moves past its stored snapshot before a write takes a new one. */
  const SNAPSHOT_INTERVAL: int := 1000

  datatype BuildFault =
    | RowsInvalid(rows: LoaderRules.LoadFault)
    | NextReadFailed
    | SnapshotFailed(snapshot: SnapshotFault)
    | DropFailed
    | CreateFailed
    | ReplayFailed(replay: ReplayFault)
    | MembershipFailed
    | Mismatch

  /** Why a build from a snapshot failed. */
  datatype SnapshotFault =
    | RestoreError(reply: RestoreReply)
    | TailFailed(tail: ReplayFault)
    | NoRows
    | Compared(comparison: Comparison)

  /** Whether a failed snapshot build may be dropped and replaced by a full replay. */
  predicate FallsBack(f: SnapshotFault) {
    match f
    case RestoreError(reply) => reply.BadData?
    case TailFailed(tail) => tail.CallRefused?
    case NoRows => true
    case Compared(c) => c.Differ? || (c.Failed? && c.engineError)
  }

  /** A failed snapshot build that ends the load: no answer, or a structure already held, and never a refusal or a difference. */
  predicate EndsTheLoad(f: SnapshotFault) {
    match f
    case RestoreError(reply) => reply.AlreadyHeld? || reply.RestoreUnanswered?
    case TailFailed(tail) => !tail.CallRefused?
    case NoRows => false
    case Compared(c) => c.Failed? && !c.engineError
  }

  lemma FallsBackOrEnds(f: SnapshotFault)
    requires (f.RestoreError? ==> !f.reply.Restored?) && (f.Compared? ==> !f.comparison.Agree?)
    ensures EndsTheLoad(f) <==> !FallsBack(f)
    ensures f.NoRows? ==> FallsBack(f)
  {
  }

  datatype Usable = Use(snapshot: Snapshot) | NoSnapshot | UnknownNext

  datatype PrepareFault = StoreReadFailed | LastReadFailed | BuildFailed(build: BuildFault) | RejectionPending | StreamRefused

  datatype Prepared = Prepared(loaded: int, last: Option<Event>, nodes: nat, snapshotVersion: int)

  datatype AppendReply = Appended | NotAppended | AppendUnknown

  /** What a write did: nothing, an append nobody can confirm, or an append, projected or not. */
  datatype WriteReply = NotWritten | OutcomeUnknown | Wrote(projected: bool)

  datatype RetryFault = RetryPrepare(prepare: PrepareFault) | RetryDelivery(delivery: Fault)

  datatype RejectReply = NotRejected | RejectUnknown | Rejected(projected: bool) | Resumed(projected: bool) | AlreadyApplied

  // ----- What a check compares -----

  /** The first row at depth 0. */
  function FirstRoot(rows: seq<Row>): Option<Id> {
    if rows == [] then None
    else
      var first := FirstRoot(Init(rows));
      if first.Some? then first else if Last(rows).depth == 0 then Some(Last(rows).user) else None
  }

  /** The engine, with the root a full replay left, is the tree of the active rows. */
  predicate Matches(t: Tree, root: Option<Id>, rows: seq<Row>) {
    if rows == [] then root.None?
    else
      && root.Some?
      && (FirstRoot(rows).None? || FirstRoot(rows) == root)
      && Holds(t.nodes, RootOfRows(rows)) && Reported(t, RootOfRows(rows)) == RowMembers(rows)
  }

  lemma {:induction false} FirstRootIsARoot(rows: seq<Row>)
    ensures FirstRoot(rows).Some? ==> exists r :: r in rows && r.depth == 0 && r.user == FirstRoot(rows).value
  {
    if rows != [] {
      assert rows == Init(rows) + [Last(rows)];
      FirstRootIsARoot(Init(rows));
      if FirstRoot(Init(rows)).None? && Last(rows).depth == 0 { assert Last(rows) in rows; }
    }
  }

  /** In a reachable state the check passes on the load's target. */
  lemma TargetMatches(tree: Id, kind: Kind, w: World, t: Tree, rows: seq<Row>)
    requires Inv(tree, w) && KindFits(kind, w.log) && Target(tree, kind, w.log, Projected(tree, w)) == Some(t)
    requires multiset(rows) == multiset(ActiveRows(w.store.nodes, tree))
    ensures Matches(t, RootOf(t), rows)
  {
    hide Inv, Target, Reported, RowMembers;
    RowsMatchTarget(tree, kind, w, t, rows);
    FirstRootIsARoot(rows);
  }

  /** The snapshot cannot seed a load. next is the event after it, when there is one to read. */
  predicate Unusable(kind: Kind, projected: int, s: Snapshot, next: Option<Event>) {
    || s.version > projected
    || s.tree.kind != kind
    || (s.version != projected && next.Some? && next.value.payload.EventRejected? && next.value.payload.rejectedVersion == s.version)
  }

  /** A stored snapshot of a reachable state can always seed a load of that state. */
  lemma StoredSnapshotIsUsable(tree: Id, w: World, kind: Kind)
    requires Inv(tree, w) && w.snap.Some? && KindFits(kind, w.log)
    ensures var v := w.snap.value.version;
            !Unusable(kind, Projected(tree, w), w.snap.value, if 0 <= v < |w.log| then Some(w.log[v]) else None)
  {
    hide Inv, Through, ReplayFrom, Replayable, WellFormed;
    SnapshotAndTail(tree, w);
    if w.snap.value.version < |w.log| { NextAfterSnapshot(tree, w); }
  }

  /** A failed retry's facts about the stream. */
  ghost predicate Grounded(tree: Id, w: World, f: RetryFault) {
    match f
    case RetryPrepare(BuildFailed(RowsInvalid(_))) =>
      0 <= Projected(tree, w) <= |w.log| && Through(tree, w.log, Projected(tree, w)).None?
    case RetryPrepare(BuildFailed(ReplayFailed(CallRefused(e, _)))) =>
      1 <= e.version <= |w.log| && w.log[e.version - 1] == e && Through(tree, w.log, e.version).None?
    case RetryPrepare(_) => true
    case RetryDelivery(d) => IsEvidence(d) ==> Through(tree, w.log, |w.log|).None?
  }

  /** A failed retry that counts as evidence without anything else failing. */
  predicate Shown(f: RetryFault) {
    match f
    case RetryPrepare(p) => p.BuildFailed? && p.build.RowsInvalid?
    case RetryDelivery(d) => IsEvidence(d)
  }

  // ----- Rows without one event's row -----

  function Without(rows: seq<Row>, id: Id): seq<Row> {
    if rows == [] then []
    else if Last(rows).id == id then Without(Init(rows), id)
    else Without(Init(rows), id) + [Last(rows)]
  }

  lemma {:induction false} WithoutCounts(rows: seq<Row>, id: Id, r: Row)
    ensures multiset(Without(rows, id))[r] == if r.id == id then 0 else multiset(rows)[r]
  {
    if rows != [] {
      assert rows == Init(rows) + [Last(rows)];
      WithoutCounts(Init(rows), id, r);
    }
  }

  lemma WithoutIgnoresListing(a: seq<Row>, b: seq<Row>, id: Id)
    requires multiset(a) == multiset(b)
    ensures multiset(Without(a, id)) == multiset(Without(b, id))
  {
    forall r ensures multiset(Without(a, id))[r] == multiset(Without(b, id))[r] {
      WithoutCounts(a, id, r);
      WithoutCounts(b, id, r);
    }
  }

  lemma {:induction false} WithoutAbsent(rows: seq<Row>, id: Id)
    requires forall r :: r in rows ==> r.id != id
    ensures Without(rows, id) == rows
  {
    if rows != [] {
      assert rows == Init(rows) + [Last(rows)];
      assert Last(rows) in rows;
      WithoutAbsent(Init(rows), id);
    }
  }

  /** A row carries the id, and the other rows load without it. */
  ghost predicate StopsTheLoad(kind: Kind, rows: seq<Row>, id: Id) {
    (exists n :: n in rows && n.id == id) && LoaderRules.Loadable(LoaderRules.RuleFor(kind), Without(rows, id))
  }

  /** In a stuck state the last event's row is active, and the others load without it. */
  lemma StuckRowFound(tree: Id, w: World, rows: seq<Row>)
    requires Inv(tree, w) && w.log != [] && Projected(tree, w) == |w.log| && Through(tree, w.log, |w.log|).None?
    requires multiset(rows) == multiset(ActiveRows(w.store.nodes, tree))
    ensures StopsTheLoad(KindOf(w.log), rows, Last(w.log).id)
  {
    var id, all := Last(w.log).id, w.store.nodes;
    StuckFailsPreflight(tree, w);
    ActiveRowsHeld(all, tree);
    ActiveRowsHeld(Init(all), tree);
    LoaderRules.SameRows(ActiveRows(all, tree), rows);
    assert Last(all) in rows;
    assert ActiveRows(all, tree) == ActiveRows(Init(all), tree) + [Last(all)];
    InitOfAppend(ActiveRows(Init(all), tree), Last(all));
    NewestIdAlone(all, tree);
    WithoutAbsent(ActiveRows(Init(all), tree), id);
    WithoutIgnoresListing(ActiveRows(all, tree), rows, id);
    LoaderRules.LoadableIgnoresListing(LoaderRules.RuleFor(KindOf(w.log)), Without(rows, id), ActiveRows(Init(all), tree));
  }

  lemma NewestIdAlone(all: seq<Row>, tree: Id)
    requires all != [] && IdsDistinct(all)
    ensures forall r :: r in ActiveRows(Init(all), tree) ==> r.id != Last(all).id
  {
    ActiveRowsHeld(Init(all), tree);
    forall r | r in ActiveRows(Init(all), tree) ensures r.id != Last(all).id {
      var i :| 0 <= i < |all| - 1 && all[i] == r;
    }
  }

  /** The facts of the invariant most operations start from. */
  lemma InvBasics(tree: Id, w: World)
    requires Inv(tree, w)
    ensures LogOk(tree, w.log) && Numbered(w.log) && 0 <= Projected(tree, w) <= |w.log| <= Projected(tree, w) + 2
    ensures w.log != [] ==> w.log[0].payload.RootAdded? && Last(w.log).version == |w.log|
    ensures w.snap.Some? ==> 1 <= w.snap.value.version <= Projected(tree, w)
  {
    hide Through;
  }

  lemma RootSound(tree: Id, w: World, t: Tree, after: Store, engine: Tree, fault: Option<Fault>) returns (at: Time)
    requires Built(tree, w, t) && Last(w.log).payload.RootAdded?
    requires EngineMoved(t, Last(w.log).payload, engine)
    requires fault.None? ==>
               && Acceptable(tree, t.kind, Last(w.log).payload)
               && RowStands(tree, w.store, Last(w.log), Last(w.log).payload.user, after) && RootMatches(engine, Last(w.log).payload)
    requires fault.Some? && fault.value != Diverged ==>
               after == w.store || (Acceptable(tree, t.kind, Last(w.log).payload) && InsertOf(tree, w.store, Last(w.log)) == Ok(after))
    requires fault == Some(Diverged) ==>
               && Mutate(t, Last(w.log).payload).Err? && engine == t && !RootMatches(engine, Last(w.log).payload)
               && Acceptable(tree, t.kind, Last(w.log).payload)
               && exists mid, at :: Undone(tree, w.store, Last(w.log), mid, at, after)
    requires fault.Some? && IsEvidence(fault.value) ==>
               TurnedAway(tree, t.kind, w.store, Last(w.log), Last(w.log).payload.user, fault.value)
    ensures fault != Some(Diverged) && Sound(tree, w, t, after, engine, fault, at)
  {
    var e := Last(w.log);
    hide *;
    at := 0;
    var mid := w.store;
    if fault == Some(Diverged) {
      var m, a :| Undone(tree, w.store, e, m, a, after);
      mid, at := m, a;
    }
    RootDelivery(tree, w, t, after, engine, fault, mid, at);
  }

  /** A payload that does not unmarshal cannot apply, and has not been projected. */
  lemma UnreadableDecided(tree: Id, w: World, t: Tree)
    requires Built(tree, w, t) && Last(w.log).payload.Unreadable?
    ensures Sound(tree, w, t, w.store, t, Some(Unprojectable), 0) && Decided(tree, w, Unprojectable)
  {
    hide Inv, Through;
    if Ahead(tree, w) {
      AheadApplies(tree, w, t);
    } else {
      BuiltFacts(tree, w, t);
      var before := AppliedTo(tree, w, t);
    }
  }

  /** A sound delivery is a landing step, or no step. */
  lemma SoundReaches(tree: Id, w: World, t: Tree, v: World, engine: Tree, fault: Option<Fault>, at: Time)
    requires Built(tree, w, t) && Sound(tree, w, t, v.store, engine, fault, at) && v.log == w.log && v.snap == w.snap
    ensures Inv(tree, v) && Reaches(tree, w, v)
    ensures v.store == w.store || (Projected(tree, w) < |w.log| && Projected(tree, v) == |w.log|)
    ensures TooDeep(tree, w) ==> fault.Some? && v.store == w.store
  {
    hide Inv, Through, StageRemoval;
    BuiltFacts(tree, w, t);
    if v.store == w.store {
      assert v == w;
      ReachesItself(tree, w);
    } else {
      assert Protocol.Moves(tree, w, Land(at), v) by { WithinLog(tree, w); }
      OneStep(tree, w, Land(at), v);
    }
  }

  lemma WithinLog(tree: Id, w: World)
    requires Inv(tree, w)
    ensures 0 <= Projected(tree, w) <= |w.log|
  {
  }

  lemma RejectionIsReadable(tree: Id, log: seq<Event>)
    requires LogOk(tree, log) && log != [] && Last(log).IsRejection()
    ensures RejectionReadable(tree, Last(log)) && |log| >= 2 && Last(log).version == |log|
  {
    assert Fits(tree, log, |log| - 1);
    assert Last(log) in log;
  }

  /** A delivered rejection is its projection step, or no step, and is never refused. */
  lemma RejectionStep(tree: Id, w: World, v: World, at: Time)
    requires Inv(tree, w) && w.log != [] && Last(w.log).IsRejection() && Projected(tree, w) < |w.log|
    requires v.log == w.log && v.snap == w.snap && Last(w.log).payload.EventRejected?
    requires v.store == w.store || ProjectRejection(w.store, tree, Last(w.log).payload.rejectedId, |w.log|, at) == Ok(v.store)
    ensures Inv(tree, v) && Reaches(tree, w, v)
    ensures ProjectRejection(w.store, tree, Last(w.log).payload.rejectedId, |w.log|, at).Ok?
    ensures v.store == ProjectRejection(w.store, tree, Last(w.log).payload.rejectedId, |w.log|, at).value ==>
              Projected(tree, v) == |w.log| && Through(tree, w.log, |w.log|).Some?
  {
    hide Inv, Through, Retired;
    InvBasics(tree, w);
    RejectionReplays(tree, w);
    if v.store == w.store {
      assert v == w;
      ReachesItself(tree, w);
    } else {
      assert Protocol.Moves(tree, w, ProjectRejectionStep(at), v);
      OneStep(tree, w, ProjectRejectionStep(at), v);
    }
  }

  lemma RejectionReplays(tree: Id, w: World)
    requires Inv(tree, w) && w.log != [] && Last(w.log).IsRejection() && Projected(tree, w) < |w.log|
    ensures Through(tree, w.log, |w.log|).Some?
  {
    hide Inv, Through, Retired;
    RejectionRestores(tree, w, 0);
  }

  /** An append to a level stream is a step, and leaves the engine built through the projected version. */
  lemma AppendStep(tree: Id, w: World, e: Event, v: World, kind: Kind, t: Tree)
    requires Inv(tree, w) && KindFits(kind, w.log) && Projected(tree, w) == |w.log|
    requires Target(tree, kind, w.log, |w.log|) == Some(t)
    requires e.version == |w.log| + 1 && (e.payload.RootAdded? || e.payload.NodePlaced? || e.payload.NodeRemoved?)
    requires w.log == [] ==> e.payload.RootAdded? && e.payload.tree == tree && e.payload.kind == kind
    requires forall x :: x in w.log ==> x.id != e.id
    requires v == w.(log := w.log + [e])
    ensures Inv(tree, v) && Reaches(tree, w, v) && Built(tree, v, t)
    ensures Last(v.log) == e
  {
    hide Inv, Through, Target;
    TargetIsThrough(tree, kind, w.log, |w.log|);
    assert Protocol.Moves(tree, w, Step.Append(e), v);
    OneStep(tree, w, Step.Append(e), v);
    if w.log == [] {
      TargetIsThrough(tree, kind, v.log, 0);
      assert v.log[..0] == w.log[..0];
      SameTarget(tree, kind, w.log, v.log, 0);
    } else {
      ThroughExtends(tree, w.log, e, |w.log|);
    }
  }

  lemma SameTarget(tree: Id, kind: Kind, a: seq<Event>, b: seq<Event>, k: int)
    requires 0 <= k <= |a| && k <= |b| && a[..k] == b[..k]
    ensures Target(tree, kind, a, k) == Target(tree, kind, b, k)
  {
  }

  /** The rejection of e that follows it in the stream. */
  function RejectionOf(tree: Id, e: Event, reason: string, id: Id): Event {
    Event(id, e.version + 1, EventRejected(tree, e.id, e.version, e.Type(), reason))
  }

  lemma LastIsRejectable(tree: Id, log: seq<Event>)
    requires LogOk(tree, log) && log != [] && !Last(log).IsRejection()
    ensures Last(log).Rejectable()
  {
    assert Fits(tree, log, |log| - 1);
  }

  lemma AppendRejectionStep(tree: Id, w: World, e: Event, v: World)
    requires Inv(tree, w) && w.log != [] && !Last(w.log).IsRejection() && Through(tree, w.log, |w.log|).None?
    requires Names(tree, e, Last(w.log)) && HasText(e.payload.reason) && e.version == |w.log| + 1
    requires forall x :: x in w.log ==> x.id != e.id
    requires v == w.(log := w.log + [e])
    ensures Inv(tree, v) && Reaches(tree, w, v) && Last(v.log) == e && Projected(tree, v) < |v.log|
  {
    hide Inv, Through, Names;
    InvBasics(tree, w);
    WithinOneOrPending(tree, w);
    assert Protocol.Moves(tree, w, AppendRejection(e), v);
    OneStep(tree, w, AppendRejection(e), v);
  }

  /** A stream that replays to its end replays through the projected version, when no rejection waits. */
  lemma LoadsThrough(tree: Id, w: World)
    requires Inv(tree, w)
    ensures WithinOne(tree, w) && Through(tree, w.log, |w.log|).Some? ==> Through(tree, w.log, Projected(tree, w)).Some?
  {
    hide Through;
  }

  /** A placement too deep to store ends a stream that replays up to it. */
  lemma DeepIsBuilt(tree: Id, w: World)
    requires Inv(tree, w)
    ensures TooDeep(tree, w) ==>
              w.log != [] && !Last(w.log).IsRejection() && WithinOne(tree, w) && Through(tree, w.log, Projected(tree, w)).Some?
  {
    hide Through;
  }

  // ----- Snapshots -----

  /** The snapshot a load with nothing failing leaves: a tree without rows is rebuilt from its stream, and its snapshot goes. */
  function LeftByLoad(tree: Id, w: World): Option<Snapshot> {
    if ActiveRows(w.store.nodes, tree) == [] then None else w.snap
  }

  function VersionOf(s: Option<Snapshot>): int {
    if s.Some? then s.value.version else 0
  }

  /** After a write at the version, with t held: a new snapshot once the stream has moved 1000 events past the last, and otherwise the last. */
  predicate SnapshotFollows(left: Option<Snapshot>, version: int, t: Option<Tree>, snap: Option<Snapshot>) {
    if version - VersionOf(left) >= 1000 then t.Some? && snap == Some(Snapshot(version, t.value)) else snap == left
  }

  lemma NoRowsEither(rows: seq<Row>, other: seq<Row>)
    requires multiset(rows) == multiset(other)
    ensures rows == [] <==> other == []
  {
    assert |rows| == |multiset(rows)| == |multiset(other)| == |other|;
  }

  // ----- When a write goes through -----

  /** A load brings the store level: the stream replays, no rejection waits, and the last event fits. */
  predicate Loads(tree: Id, kind: Kind, w: World) {
    WithinOne(tree, w) && !TooDeep(tree, w) && Target(tree, kind, w.log, |w.log|).Some?
  }

  /** Whether a store loads does not depend on its snapshot. */
  lemma SnapshotAside(tree: Id, w: World, v: World)
    requires v.log == w.log && v.store == w.store
    ensures WithinOne(tree, v) == WithinOne(tree, w) && TooDeep(tree, v) == TooDeep(tree, w)
    ensures TooDeep(tree, w) ==> w.log != []
  {
  }

  /** A placement whose depth the store's column does not hold. */
  predicate Deep(t: Tree, p: Payload) {
    p.NodePlaced? && Holds(t.nodes, p.parent) && !FitsInt4(Lookup(t.nodes, p.parent).value.depth + 1)
  }

  /** A write goes in: the store loads, the engine would take the event, and its id is new. */
  predicate Writable(tree: Id, kind: Kind, w: World, id: Id, p: Payload) {
    && Loads(tree, kind, w) && Mutate(Target(tree, kind, w.log, |w.log|).value, p).Ok?
    && forall x :: x in w.log ==> x.id != id
  }

  /** The depth of the row a placement projects is one below its parent's node. */
  lemma DeepIsTooDeep(tree: Id, w: World, t: Tree)
    requires Built(tree, w, t) && Ahead(tree, w) && Applies(tree, t, Last(w.log).payload)
    ensures TooDeep(tree, w) <==> Deep(t, Last(w.log).payload)
  {
    hide Inv, Through, WellFormed, Held;
    BuiltFacts(tree, w, t);
    if Last(w.log).payload.NodePlaced? { HeldIsActive(tree, w, t, Last(w.log).payload.parent); }
  }

  /** When the last event, one past the store, can be projected. */
  lemma Projects(tree: Id, w: World, t: Tree)
    requires Built(tree, w, t) && Ahead(tree, w)
    ensures Through(tree, w.log, |w.log|).Some? && !TooDeep(tree, w) <==> Applies(tree, t, Last(w.log).payload) && !Deep(t, Last(w.log).payload)
  {
    hide Inv, Through, TooDeep, Deep, Applies;
    ThroughNext(tree, w.log, |w.log|);
    if Applies(tree, t, Last(w.log).payload) { DeepIsTooDeep(tree, w, t); }
  }

  /** What the engine takes of the writer's own events also passes the checks on their payloads. */
  lemma CheckedApplies(tree: Id, t: Tree, p: Payload)
    requires WellFormed(t.kind, t.nodes) && Mutate(t, p).Ok?
    requires match p
             case RootAdded(x, _, _, _, k) => x == tree
             case NodePlaced(x, _, _, _, position, k, _) => x == tree && k == t.kind && LoaderRules.PositionOk(LoaderRules.RuleFor(t.kind), position)
             case NodeRemoved(x, _, k) => x == tree && k == Some(t.kind)
             case _ => false
    ensures Applies(tree, t, p)
  {
    NilIsNotHeld(t.kind, t.nodes);
  }

  lemma {:induction false} NilIsNotHeld(kind: Kind, nodes: seq<Node>)
    requires WellFormed(kind, nodes)
    ensures !Holds(nodes, NIL_ID)
  {
    if nodes != [] { NilIsNotHeld(kind, Init(nodes)); }
  }

  lemma TargetShape(tree: Id, kind: Kind, log: seq<Event>)
    ensures var t := Target(tree, kind, log, |log|); t.Some? ==> t.value.kind == kind && WellFormed(kind, t.value.nodes)
  {
    hide Effective;
    ReplayKeepsShape(tree, Tree(kind, []), Effective(log[..|log|]));
  }
}
