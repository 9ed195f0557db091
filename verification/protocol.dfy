/**
 * The write protocol of one tree, as steps over what outlives a process: the
 * event stream, the adjacency store and the stored snapshot.
 *
 * The tree's lock makes the writer of these three the only one. The engine is
 * not part of the state: every operation rebuilds it.
 */
module Protocol {
  import opened TreeTypes
  import opened EngineTree
  import opened TreeStore
  import opened Agreement
  import opened Replay

  datatype Snapshot = Snapshot(version: int, tree: Tree)

  datatype World = World(log: seq<Event>, store: Store, snap: Option<Snapshot>)

  const EMPTY_WORLD: World := World([], EMPTY_STORE, None)

  /** The tree type version 1 records. */
  function KindOf(log: seq<Event>): Kind {
    if log != [] && log[0].payload.RootAdded? then log[0].payload.kind else Unilevel
  }

  /** The engine tree the stream's first k events build, or None when they cannot be replayed. */
  function Through(tree: Id, log: seq<Event>, k: int): Option<Tree>
    requires 0 <= k <= |log|
  {
    ReplayFrom(tree, Tree(KindOf(log), []), Effective(log[..k]))
  }

  function Projected(tree: Id, w: World): int {
    ProjectedVersion(w.store, tree)
  }

  // ----- Steps -----

  /** The row an insert event projects. A placement's depth comes from its parent's active row. */
  function RowFor(tree: Id, rows: seq<Row>, e: Event): Option<Row> {
    match e.payload
    case RootAdded(_, user, sponsor, enrolled, _) =>
      Some(Row(e.id, tree, user, None, Some(sponsor), None, 0, enrolled, None, None))
    case NodePlaced(_, user, parent, sponsor, position, _, enrolled) =>
      var p := GetNode(rows, tree, parent);
      if p.None? then None
      else Some(Row(e.id, tree, user, Some(parent), Some(sponsor), position, p.value.depth + 1, enrolled, None, None))
    case _ => None
  }

  /** The store once the event's projection has landed, given the engine tree before it. */
  function Landed(tree: Id, s: Store, t: Tree, e: Event, now: Time): Option<Store> {
    if !Acceptable(tree, t.kind, e.payload) then None
    else if e.payload.NodeRemoved? then
      var out := RemoveNode(t, e.payload.user);
      if out.Err? then None
      else
        var r := ProjectRemoval(s, tree, RemovalOf(e.payload.user, out.value.moved), e.id, e.version, now);
        if r.Ok? then Some(r.value) else None
    else
      var row := RowFor(tree, s.nodes, e);
      if row.None? then None
      else
        var r := ProjectInsert(s, row.value, e.version);
        if r.Ok? then Some(r.value) else None
  }

  /** e may be the stream's next event: a tree event, numbered in turn, with an id of its own. */
  predicate NextEvent(tree: Id, log: seq<Event>, e: Event) {
    && e.version == |log| + 1
    && (forall x :: x in log ==> x.id != e.id)
    && (log == [] ==> e.payload.RootAdded? && e.payload.tree == tree)
  }

  datatype Step =
    | Append(event: Event)
    | Land(at: Time)
    | AppendRejection(rejection: Event)
    | ProjectRejectionStep(at: Time)
    | TakeSnapshot
    | DropSnapshot

  /** w moves to v by the step. */
  predicate Moves(tree: Id, w: World, step: Step, v: World) {
    var p, last := Projected(tree, w), |w.log|;
    0 <= p <= last &&
    match step
    case Append(e) =>
      && p == last && Through(tree, w.log, p).Some?
      && NextEvent(tree, w.log, e) && e.Rejectable()
      && v == w.(log := w.log + [e])
    case Land(at) =>
      && p + 1 == last && !Last(w.log).IsRejection() && Through(tree, w.log, p).Some?
      && var s := Landed(tree, w.store, Through(tree, w.log, p).value, Last(w.log), at);
         s.Some? && v == w.(store := s.value)
    case AppendRejection(e) =>
      && last <= p + 1 && w.log != [] && !Last(w.log).IsRejection() && Through(tree, w.log, last).None?
      && NextEvent(tree, w.log, e) && Names(tree, e, Last(w.log)) && HasText(e.payload.reason)
      && v == w.(log := w.log + [e])
    case ProjectRejectionStep(at) =>
      && p < last <= p + 2 && Last(w.log).IsRejection() && Last(w.log).payload.EventRejected?
      && var s := ProjectRejection(w.store, tree, Last(w.log).payload.rejectedId, last, at);
         s.Ok? && v == w.(store := s.value)
    case TakeSnapshot =>
      && p == last && last > 0 && Through(tree, w.log, p).Some?
      && v == w.(snap := Some(Snapshot(last, Through(tree, w.log, p).value)))
    case DropSnapshot =>
      v == w.(snap := None)
  }

  // ----- What every reachable state satisfies -----

  predicate LogOk(tree: Id, log: seq<Event>) {
    && (forall i :: 0 <= i < |log| ==> log[i].version == i + 1)
    && (forall i, j :: 0 <= i < j < |log| ==> log[i].id != log[j].id)
    && (log != [] ==> log[0].payload.RootAdded? && log[0].payload.tree == tree)
    && WellRejected(tree, log)
    && (forall e :: e in log && e.payload.EventRejected? ==> HasText(e.payload.reason))
  }

  /** A rejection names an event through which the stream cannot be replayed. */
  predicate RejectedForCause(tree: Id, log: seq<Event>) {
    forall i :: 0 < i < |log| && log[i].IsRejection() ==> Through(tree, log, i).None?
  }

  /** The event at version v, up to p, wrote the row, and is not one a projected rejection undid. */
  predicate WrittenAt(tree: Id, log: seq<Event>, p: int, r: Row, v: int)
    requires 0 <= p <= |log|
  {
    && 1 <= v <= p
    && log[v - 1].id == r.id
    && log[v - 1].IsInsert()
    && (r.Active() ==> v == p || Through(tree, log, v).Some?)
  }

  /** The removal at version v, up to p, stamped a row, and the stream replays through it. */
  predicate StampedAt(tree: Id, log: seq<Event>, p: int, stamp: Id, v: int)
    requires 0 <= p <= |log|
  {
    && 1 <= v <= p
    && log[v - 1].id == stamp
    && log[v - 1].payload.NodeRemoved?
    && Through(tree, log, v).Some?
  }

  ghost predicate RowOk(tree: Id, log: seq<Event>, p: int, r: Row)
    requires 0 <= p <= |log|
  {
    && r.tree == tree
    && FitsInt4(r.depth) && (r.position.Some? ==> FitsInt4(r.position.value))
    && (exists v :: WrittenAt(tree, log, p, r, v))
    && (r.removedBy.Some? ==> exists v :: StampedAt(tree, log, p, r.removedBy.value, v))
  }

  /**
   * Where the store stands. When the stream replays through the projected
   * version, the active rows are that tree. When it does not, the event at that
   * version is a placement whose own row is the newest.
   */
  predicate Standing(tree: Id, w: World)
    requires 0 <= Projected(tree, w) <= |w.log|
  {
    var p, rows := Projected(tree, w), w.store.nodes;
    var t := Through(tree, w.log, p);
    if t.Some? then Held(rows, tree) == t.value.nodes
    else
      && p >= 1 && rows != []
      && StuckRow(tree, w.log, p, Init(rows), Last(rows))
  }

  /**
   * The event at version p is a placement whose row landed on the rows before
   * it, and those are the tree through the version before.
   */
  predicate StuckRow(tree: Id, log: seq<Event>, p: int, before: seq<Row>, newest: Row)
    requires 1 <= p <= |log|
  {
    var e := log[p - 1];
    && e.payload.NodePlaced?
    && Acceptable(tree, KindOf(log), e.payload)
    && RowFor(tree, before, e).Some?
    && newest == Stored(RowFor(tree, before, e).value)
    && InsertFault(before, RowFor(tree, before, e).value).None?
    && Through(tree, log, p - 1).Some?
    && Held(before, tree) == Through(tree, log, p - 1).value.nodes
  }

  /** The event at the projected version has left its mark: its own newest row, or its stamp. */
  predicate LastLanded(tree: Id, w: World)
    requires 0 <= Projected(tree, w) <= |w.log|
  {
    var p, rows := Projected(tree, w), w.store.nodes;
    p > 0 ==>
      && (w.log[p - 1].IsInsert() ==> rows != [] && Last(rows).id == w.log[p - 1].id && Last(rows).ActiveIn(tree))
      && (w.log[p - 1].payload.NodeRemoved? ==> Stamped(rows, tree, w.log[p - 1].id))
  }

  predicate Gap(tree: Id, w: World) {
    var p, last := Projected(tree, w), |w.log|;
    && 0 <= p <= last <= p + 2
    && (last == p + 2 ==> Last(w.log).IsRejection())
    && (last > p ==> (Through(tree, w.log, p).None? <==> last == p + 1 && Last(w.log).IsRejection()))
  }

  predicate SnapOk(tree: Id, w: World) {
    w.snap.Some? ==>
      var s := w.snap.value;
      && 1 <= s.version <= Projected(tree, w) <= |w.log|
      && Through(tree, w.log, s.version) == Some(s.tree)
  }

  ghost predicate Inv(tree: Id, w: World) {
    && LogOk(tree, w.log)
    && RejectedForCause(tree, w.log)
    && Gap(tree, w)
    && IdsDistinct(w.store.nodes)
    && SlotsDistinct(w.store.nodes, tree)
    && (forall r :: r in w.store.nodes ==> RowOk(tree, w.log, Projected(tree, w), r))
    && Standing(tree, w)
    && LastLanded(tree, w)
    && SnapOk(tree, w)
  }

  // ----- Replay facts -----

  lemma ThroughShape(tree: Id, log: seq<Event>, k: int)
    requires 0 <= k <= |log|
    ensures var t := Through(tree, log, k); t.Some? ==> t.value.kind == KindOf(log) && WellFormed(t.value.kind, t.value.nodes)
  {
    ReplayKeepsShape(tree, Tree(KindOf(log), []), Effective(log[..k]));
  }

  /** One more event that is not a rejection: the stream replays through it exactly when it applies. */
  lemma ThroughNext(tree: Id, log: seq<Event>, k: int)
    requires 0 < k <= |log| && !log[k - 1].IsRejection()
    ensures Through(tree, log, k) ==
            var t := Through(tree, log, k - 1);
            if t.Some? && Applies(tree, t.value, log[k - 1].payload) then Some(Mutate(t.value, log[k - 1].payload).value.tree) else None
  {
    assert log[..k] == log[..k - 1] + [log[k - 1]];
    EffectiveAppend(log[..k - 1], log[k - 1]);
    ReplayAppend(tree, Tree(KindOf(log), []), Effective(log[..k - 1]), log[k - 1]);
  }

  /** A rejection takes the stream back to before the event it names. */
  lemma ThroughRejection(tree: Id, log: seq<Event>, k: int)
    requires 2 <= k <= |log| && log[k - 1].IsRejection()
    ensures Through(tree, log, k) == Through(tree, log, k - 2)
  {
    assert log[..k] == log[..k - 1] + [log[k - 1]];
    EffectiveAppend(log[..k - 1], log[k - 1]);
    assert Init(log[..k - 1]) == log[..k - 2];
  }

  lemma ThroughExtends(tree: Id, log: seq<Event>, e: Event, k: int)
    requires 0 <= k <= |log| && log != []
    ensures Through(tree, log + [e], k) == Through(tree, log, k)
  {
    assert (log + [e])[..k] == log[..k];
    assert (log + [e])[0] == log[0];
  }

  // ----- Appends -----

  lemma RowOkExtends(tree: Id, log: seq<Event>, e: Event, p: int, r: Row)
    requires 0 <= p <= |log| && log != [] && RowOk(tree, log, p, r)
    ensures RowOk(tree, log + [e], p, r)
  {
    var v :| WrittenAt(tree, log, p, r, v);
    ThroughExtends(tree, log, e, v);
    assert WrittenAt(tree, log + [e], p, r, v);
    if r.removedBy.Some? {
      var u :| StampedAt(tree, log, p, r.removedBy.value, u);
      ThroughExtends(tree, log, e, u);
      assert StampedAt(tree, log + [e], p, r.removedBy.value, u);
    }
  }

  lemma LogOkExtends(tree: Id, log: seq<Event>, e: Event)
    requires LogOk(tree, log) && NextEvent(tree, log, e)
    requires if e.IsRejection() then log != [] && Names(tree, e, Last(log)) && HasText(e.payload.reason) else e.Rejectable()
    ensures LogOk(tree, log + [e])
  {
    var after := log + [e];
    forall i | 0 <= i < |after| ensures Fits(tree, after, i) {
      if i < |log| { assert Fits(tree, log, i); }
    }
  }

  lemma CauseExtends(tree: Id, log: seq<Event>, e: Event)
    requires RejectedForCause(tree, log)
    requires e.IsRejection() ==> log != [] && Through(tree, log, |log|).None?
    ensures RejectedForCause(tree, log + [e])
  {
    hide Through;
    forall i | 0 < i < |log + [e]| && (log + [e])[i].IsRejection() ensures Through(tree, log + [e], i).None? {
      ThroughExtends(tree, log, e, i);
    }
  }

  lemma StandingExtends(tree: Id, w: World, e: Event)
    requires Inv(tree, w) && w.log != []
    ensures var v := w.(log := w.log + [e]); Standing(tree, v) && LastLanded(tree, v) && SnapOk(tree, v)
  {
    hide Through, RowOk, RejectedForCause, WellRejected;
    var p := Projected(tree, w);
    ThroughExtends(tree, w.log, e, p);
    if p > 0 { ThroughExtends(tree, w.log, e, p - 1); }
    if w.snap.Some? { ThroughExtends(tree, w.log, e, w.snap.value.version); }
  }

  /** Everything but the gap survives an append. */
  lemma AppendKeeps(tree: Id, w: World, e: Event)
    requires Inv(tree, w) && NextEvent(tree, w.log, e)
    requires if e.IsRejection()
             then w.log != [] && Names(tree, e, Last(w.log)) && HasText(e.payload.reason) && Through(tree, w.log, |w.log|).None?
             else e.Rejectable()
    ensures var v := w.(log := w.log + [e]);
            && LogOk(tree, v.log) && RejectedForCause(tree, v.log)
            && Standing(tree, v) && LastLanded(tree, v) && SnapOk(tree, v)
            && (forall r :: r in v.store.nodes ==> RowOk(tree, v.log, Projected(tree, v), r))
            && Through(tree, v.log, Projected(tree, w)).Some? == Through(tree, w.log, Projected(tree, w)).Some?
  {
    var p := Projected(tree, w);
    LogOkExtends(tree, w.log, e);
    CauseExtends(tree, w.log, e);
    if w.log == [] {
      FirstAppend(tree, w, e);
    } else {
      hide Through, RowOk, Standing, LastLanded, SnapOk, RejectedForCause, LogOk;
      StandingExtends(tree, w, e);
      ThroughExtends(tree, w.log, e, p);
      forall r | r in w.store.nodes ensures RowOk(tree, w.log + [e], p, r) {
        RowOkExtends(tree, w.log, e, p, r);
      }
    }
  }

  lemma FirstAppend(tree: Id, w: World, e: Event)
    requires Inv(tree, w) && w.log == []
    ensures w.store.nodes == [] && Projected(tree, w) == 0
    ensures var v := w.(log := [e]); Standing(tree, v) && LastLanded(tree, v) && SnapOk(tree, v) && Through(tree, v.log, 0).Some? && Through(tree, w.log, 0).Some?
  {
    assert w.store.nodes != [] ==> RowOk(tree, w.log, 0, w.store.nodes[0]);
  }

  lemma AppendKeepsInv(tree: Id, w: World, e: Event, v: World)
    requires Inv(tree, w) && Moves(tree, w, Append(e), v)
    ensures Inv(tree, v)
  {
    hide Through, RowOk, Standing, LastLanded, SnapOk, RejectedForCause, LogOk, IdsDistinct, SlotsDistinct;
    AppendKeeps(tree, w, e);
  }

  lemma AppendRejectionKeepsInv(tree: Id, w: World, e: Event, v: World)
    requires Inv(tree, w) && Moves(tree, w, AppendRejection(e), v)
    ensures Inv(tree, v)
  {
    hide Through, RowOk, Standing, LastLanded, SnapOk, RejectedForCause, LogOk, IdsDistinct, SlotsDistinct, WellRejected;
    AppendKeeps(tree, w, e);
    ThroughExtends(tree, w.log, e, |w.log|);
  }

  // ----- Landing an insert -----

  /** The node a row describes once it is stored: enrolment kept to the second, the rest as given. */
  lemma StoredNode(row: Row)
    requires row.Active()
    ensures NodeOf(Stored(row)) == NodeOf(row)
  {
    TruncationKeepsTheSecond(row.enrolled);
  }

  /** A root the store takes is one the engine takes too. */
  lemma RootApplies(tree: Id, s: Store, t: Tree, e: Event)
    requires WellFormed(t.kind, t.nodes) && Held(s.nodes, tree) == t.nodes
    requires e.payload.RootAdded? && Acceptable(tree, t.kind, e.payload)
    requires InsertFault(s.nodes, RowFor(tree, s.nodes, e).value).None?
    ensures t.nodes == [] && Applies(tree, t, e.payload)
    ensures Mutate(t, e.payload).value.tree.nodes == t.nodes + [NodeOf(RowFor(tree, s.nodes, e).value)]
  {
    HeldMembers(s.nodes, tree);
    if t.nodes != [] {
      RootIsFirst(t.kind, t.nodes);
      assert false;
    }
  }

  /** A placement the engine takes adds the node its row describes. */
  lemma PlacementNode(tree: Id, s: Store, t: Tree, e: Event)
    requires WellFormed(t.kind, t.nodes) && Held(s.nodes, tree) == t.nodes
    requires e.payload.NodePlaced? && Applies(tree, t, e.payload)
    requires RowFor(tree, s.nodes, e).Some?
    ensures Mutate(t, e.payload).value.tree.nodes == t.nodes + [NodeOf(RowFor(tree, s.nodes, e).value)]
  {
    WellFormedRowsAreDistinct(t.kind, s.nodes, tree);
    HeldLookup(s.nodes, tree, e.payload.parent);
  }

  lemma InsertKeepsRows(tree: Id, rows: seq<Row>, row: Row)
    requires IdsDistinct(rows) && SlotsDistinct(rows, tree) && row.ActiveIn(tree) && InsertFault(rows, row).None?
    ensures IdsDistinct(rows + [Stored(row)]) && SlotsDistinct(rows + [Stored(row)], tree)
    ensures Held(rows + [Stored(row)], tree) == Held(rows, tree) + [NodeOf(row)]
  {
    HeldAppend(rows, Stored(row), tree);
    StoredNode(row);
    var after := rows + [Stored(row)];
    forall i, j | 0 <= i < j < |after| && after[i].ActiveIn(tree) && after[j].ActiveIn(tree)
      ensures !SameSlot(after[i], after[j])
    {
      if j == |rows| { assert Conflict(rows[i], Stored(row)).None?; }
    }
  }

  /** A row written by p is still written by a later version, when the stream replays through p. */
  lemma RowOkAdvances(tree: Id, log: seq<Event>, p: int, q: int, r: Row)
    requires 0 <= p <= q <= |log| && RowOk(tree, log, p, r)
    requires r.Active() ==> Through(tree, log, p).Some? || (p > 0 && r.id != log[p - 1].id)
    ensures RowOk(tree, log, q, r)
  {
    var v :| WrittenAt(tree, log, p, r, v);
    assert WrittenAt(tree, log, q, r, v);
    if r.removedBy.Some? {
      var u :| StampedAt(tree, log, p, r.removedBy.value, u);
      assert StampedAt(tree, log, q, r.removedBy.value, u);
    }
  }

  /** A store write that brings the store level with the stream. */
  lemma LevelKeepsInv(tree: Id, w: World, v: World)
    requires Inv(tree, w) && v.log == w.log && v.snap == w.snap && Projected(tree, v) == |w.log|
    requires IdsDistinct(v.store.nodes) && SlotsDistinct(v.store.nodes, tree)
    requires forall r :: r in v.store.nodes ==> RowOk(tree, w.log, |w.log|, r)
    requires Standing(tree, v) && LastLanded(tree, v)
    ensures Inv(tree, v)
  {
    hide Through, RowOk, Standing, LastLanded, RejectedForCause, LogOk, IdsDistinct, SlotsDistinct;
  }

  lemma InsertStanding(tree: Id, w: World, at: Time, v: World)
    requires Inv(tree, w) && Moves(tree, w, Land(at), v) && !Last(w.log).payload.NodeRemoved?
    ensures Standing(tree, v) && LastLanded(tree, v) && IdsDistinct(v.store.nodes) && SlotsDistinct(v.store.nodes, tree)
  {
    hide RowOk, RejectedForCause, WellRejected, Effective, ReplayFrom, WellFormed;
    var p, e := Projected(tree, w), Last(w.log);
    var t := Through(tree, w.log, p).value;
    var row := RowFor(tree, w.store.nodes, e).value;
    ThroughShape(tree, w.log, p);
    ThroughNext(tree, w.log, p + 1);
    InsertKeepsRows(tree, w.store.nodes, row);
    InitOfAppend(w.store.nodes, Stored(row));
    if e.payload.RootAdded? {
      RootApplies(tree, w.store, t, e);
    } else if Applies(tree, t, e.payload) {
      PlacementNode(tree, w.store, t, e);
    }
  }

  lemma LandInsertKeepsInv(tree: Id, w: World, at: Time, v: World)
    requires Inv(tree, w) && Moves(tree, w, Land(at), v) && !Last(w.log).payload.NodeRemoved?
    ensures Inv(tree, v)
  {
    hide Through, RowOk, RejectedForCause, WellRejected, Standing, LastLanded, IdsDistinct, SlotsDistinct;
    var p := Projected(tree, w);
    InsertStanding(tree, w, at, v);
    forall r | r in v.store.nodes ensures RowOk(tree, w.log, p + 1, r) {
      if r in w.store.nodes {
        RowOkAdvances(tree, w.log, p, p + 1, r);
      } else {
        InsertedRowOk(tree, w.log, p, r);
      }
    }
    LevelKeepsInv(tree, w, v);
  }

  lemma InsertedRowOk(tree: Id, log: seq<Event>, p: int, r: Row)
    requires 0 <= p < |log| && r.tree == tree && r.removedBy.None? && log[p].id == r.id && log[p].IsInsert()
    requires FitsInt4(r.depth) && (r.position.Some? ==> FitsInt4(r.position.value))
    ensures RowOk(tree, log, p + 1, r)
  {
    assert WrittenAt(tree, log, p + 1, r, p + 1);
  }

  // ----- Landing a removal -----

  lemma RemovalRowsOk(tree: Id, log: seq<Event>, p: int, rows: seq<Row>, after: seq<Row>, event: Id)
    requires 0 <= p < |log| && Through(tree, log, p).Some? && Through(tree, log, p + 1).Some?
    requires log[p].id == event && log[p].payload.NodeRemoved?
    requires RemovalKeeps(rows, after, tree, event) && IdsDistinct(rows)
    requires forall r :: r in rows ==> RowOk(tree, log, p, r)
    ensures IdsDistinct(after) && forall r :: r in after ==> RowOk(tree, log, p + 1, r)
  {
    forall r | r in after ensures RowOk(tree, log, p + 1, r) {
      var i :| 0 <= i < |after| && after[i] == r;
      assert rows[i] in rows;
      RemovedRowOk(tree, log, p, rows[i], r, event);
    }
  }

  lemma LandRemovalKeepsInv(tree: Id, w: World, at: Time, v: World)
    requires Inv(tree, w) && Moves(tree, w, Land(at), v) && Last(w.log).payload.NodeRemoved?
    ensures Inv(tree, v)
    ensures Stamped(v.store.nodes, tree, Last(w.log).id)
  {
    hide RowOk, RejectedForCause, WellRejected, Effective, ReplayFrom, WellFormed, SlotsDistinct, IdsDistinct, StageRemoval;
    var p, e := Projected(tree, w), Last(w.log);
    var t := Through(tree, w.log, p).value;
    ThroughShape(tree, w.log, p);
    ThroughNext(tree, w.log, p + 1);
    RemovalStages(w.store.nodes, tree, t, e.payload.user, e.id, at);
    RemovalRowsOk(tree, w.log, p, w.store.nodes, v.store.nodes, e.id);
    LevelKeepsInv(tree, w, v);
  }

  lemma RemovedRowOk(tree: Id, log: seq<Event>, p: int, r: Row, after: Row, event: Id)
    requires 0 <= p < |log| && RowOk(tree, log, p, r) && Through(tree, log, p).Some?
    requires after.id == r.id && after.tree == r.tree && after.removedBy in {r.removedBy, Some(event)}
    requires after.depth == r.depth && after.position == r.position
    requires after.Active() ==> r.Active()
    requires log[p].id == event && log[p].payload.NodeRemoved? && Through(tree, log, p + 1).Some?
    ensures RowOk(tree, log, p + 1, after)
  {
    var v :| WrittenAt(tree, log, p, r, v);
    assert WrittenAt(tree, log, p + 1, after, v);
    if after.removedBy == Some(event) {
      assert StampedAt(tree, log, p + 1, event, p + 1);
    } else if after.removedBy.Some? {
      var u :| StampedAt(tree, log, p, r.removedBy.value, u);
      assert StampedAt(tree, log, p + 1, after.removedBy.value, u);
    }
  }

  // ----- Projecting a rejection -----

  /** No active row carries an id the store has not reached. */
  lemma UnreachedId(tree: Id, w: World, k: int)
    requires Inv(tree, w) && Projected(tree, w) <= k < |w.log|
    ensures forall r :: r in w.store.nodes ==> r.id != w.log[k].id
  {
    forall r | r in w.store.nodes ensures r.id != w.log[k].id {
      var v :| WrittenAt(tree, w.log, Projected(tree, w), r, v);
    }
  }

  /**
   * Projecting a rejection puts the rows back to the tree before the rejected
   * event, whether or not that event's row had landed.
   */
  lemma RejectionRestores(tree: Id, w: World, at: Time)
    requires Inv(tree, w) && w.log != [] && Last(w.log).IsRejection() && Projected(tree, w) < |w.log|
    ensures |w.log| >= 2 && Names(tree, Last(w.log), w.log[|w.log| - 2])
    ensures var after := Retired(w.store.nodes, tree, Last(w.log).payload.rejectedId, at);
            && Through(tree, w.log, |w.log|).Some?
            && Held(after, tree) == Through(tree, w.log, |w.log|).value.nodes
            && (forall r :: r in after && r.Active() ==> r.id != Last(w.log).payload.rejectedId)
  {
    hide RowOk, RejectedForCause, Through, WellFormed, Effective, ReplayFrom;
    var p, last := Projected(tree, w), |w.log|;
    assert Fits(tree, w.log, last - 1);
    ThroughRejection(tree, w.log, last);
    var id := Last(w.log).payload.rejectedId;
    HeldAfterRetire(w.store.nodes, tree, id, at);
    if p == last - 2 {
      UnreachedId(tree, w, last - 2);
    }
    RetiredIsGone(tree, w, id, at);
  }

  lemma RetiredIsGone(tree: Id, w: World, id: Id, at: Time)
    requires Inv(tree, w)
    ensures forall r :: r in Retired(w.store.nodes, tree, id, at) && r.Active() ==> r.id != id
  {
    hide RejectedForCause, Through, Standing, WellRejected;
    var rows, after := w.store.nodes, Retired(w.store.nodes, tree, id, at);
    forall r | r in after && r.Active() ensures r.id != id {
      var i :| 0 <= i < |after| && after[i] == r;
      assert rows[i] in rows && RowOk(tree, w.log, Projected(tree, w), rows[i]);
    }
  }

  lemma ProjectRejectionKeepsInv(tree: Id, w: World, at: Time, v: World)
    requires Inv(tree, w) && Moves(tree, w, ProjectRejectionStep(at), v)
    ensures Inv(tree, v)
  {
    hide RowOk, RejectedForCause, WellRejected, Effective, ReplayFrom, SlotsDistinct, IdsDistinct;
    RejectionRestores(tree, w, at);
    RetiredRowsOk(tree, w, at);
    LevelKeepsInv(tree, w, v);
  }

  lemma RetiredRowsOk(tree: Id, w: World, at: Time)
    requires Inv(tree, w) && w.log != [] && Last(w.log).IsRejection() && Projected(tree, w) < |w.log|
    requires Last(w.log).payload.EventRejected?
    ensures var after := Retired(w.store.nodes, tree, Last(w.log).payload.rejectedId, at);
            && IdsDistinct(after) && SlotsDistinct(after, tree)
            && forall r :: r in after ==> RowOk(tree, w.log, |w.log|, r)
  {
    hide Through, RowOk, RejectedForCause;
    var p, last := Projected(tree, w), |w.log|;
    var id := Last(w.log).payload.rejectedId;
    var rows, after := w.store.nodes, Retired(w.store.nodes, tree, id, at);
    assert Fits(tree, w.log, last - 1);
    assert Through(tree, w.log, p).Some? || (p == last - 1 && p > 0 && w.log[p - 1].id == id);
    hide Standing, WellRejected, LastLanded, SnapOk, LogOk;
    RetiredDistinct(rows, tree, id, at);
    hide IdsDistinct, SlotsDistinct;
    forall r | r in after ensures RowOk(tree, w.log, last, r) {
      var i :| 0 <= i < |after| && after[i] == r;
      assert rows[i] in rows;
      RetiredRowOk(tree, w.log, p, rows[i], r, last);
    }
  }

  lemma RetiredDistinct(rows: seq<Row>, tree: Id, id: Id, at: Time)
    requires IdsDistinct(rows) && SlotsDistinct(rows, tree)
    ensures IdsDistinct(Retired(rows, tree, id, at)) && SlotsDistinct(Retired(rows, tree, id, at), tree)
  {
  }

  lemma RetiredRowOk(tree: Id, log: seq<Event>, p: int, r: Row, after: Row, q: int)
    requires 0 <= p <= q <= |log| && RowOk(tree, log, p, r)
    requires after.id == r.id && after.tree == r.tree && after.removedBy == r.removedBy
    requires after.depth == r.depth && after.position == r.position
    requires after.Active() ==> r.Active() && (Through(tree, log, p).Some? || (p > 0 && r.id != log[p - 1].id))
    ensures RowOk(tree, log, q, after)
  {
    var v :| WrittenAt(tree, log, p, r, v);
    assert WrittenAt(tree, log, q, after, v);
    if after.removedBy.Some? {
      var u :| StampedAt(tree, log, p, r.removedBy.value, u);
      assert StampedAt(tree, log, q, after.removedBy.value, u);
    }
  }

  // ----- Runs -----

  lemma StepKeepsInv(tree: Id, w: World, step: Step, v: World)
    requires Inv(tree, w) && Moves(tree, w, step, v)
    ensures Inv(tree, v)
  {
    hide Through, Standing, RejectedForCause, Landed, RowOk, IdsDistinct, SlotsDistinct, LogOk, Gap, LastLanded;
    match step
    case Append(e) => AppendKeepsInv(tree, w, e, v);
    case Land(at) =>
      if Last(w.log).payload.NodeRemoved? {
        LandRemovalKeepsInv(tree, w, at, v);
      } else {
        LandInsertKeepsInv(tree, w, at, v);
      }
    case AppendRejection(e) => AppendRejectionKeepsInv(tree, w, e, v);
    case ProjectRejectionStep(at) => ProjectRejectionKeepsInv(tree, w, at, v);
    case TakeSnapshot => SnapshotKeepsInv(tree, w, step, v);
    case DropSnapshot => SnapshotKeepsInv(tree, w, step, v);
  }

  lemma SnapshotKeepsInv(tree: Id, w: World, step: Step, v: World)
    requires Inv(tree, w) && (step.TakeSnapshot? || step.DropSnapshot?) && Moves(tree, w, step, v)
    ensures Inv(tree, v)
  {
    hide RejectedForCause, RowOk, IdsDistinct, SlotsDistinct, Effective, ReplayFrom, WellRejected;
  }

  /** The worlds a sequence of steps passes through. */
  predicate IsRun(tree: Id, ws: seq<World>, steps: seq<Step>) {
    && |ws| == |steps| + 1
    && forall i :: 0 <= i < |steps| ==> Moves(tree, ws[i], steps[i], ws[i + 1])
  }

  ghost predicate Reaches(tree: Id, w: World, v: World) {
    exists ws, steps :: IsRun(tree, ws, steps) && ws[0] == w && Last(ws) == v
  }

  ghost predicate Reachable(tree: Id, w: World) {
    Reaches(tree, EMPTY_WORLD, w)
  }

  lemma EmptyWorldInv(tree: Id)
    ensures Inv(tree, EMPTY_WORLD)
  {
  }

  lemma {:induction false} RunKeepsInv(tree: Id, ws: seq<World>, steps: seq<Step>)
    requires IsRun(tree, ws, steps) && Inv(tree, ws[0])
    ensures Inv(tree, Last(ws))
  {
    if steps != [] {
      RunKeepsInv(tree, Init(ws), Init(steps));
      StepKeepsInv(tree, ws[|steps| - 1], Last(steps), ws[|steps|]);
    }
  }

  lemma ReachableInv(tree: Id, w: World)
    requires Reachable(tree, w)
    ensures Inv(tree, w)
  {
    var ws, steps :| IsRun(tree, ws, steps) && ws[0] == EMPTY_WORLD && Last(ws) == w;
    EmptyWorldInv(tree);
    RunKeepsInv(tree, ws, steps);
  }

  lemma ReachesItself(tree: Id, w: World)
    ensures Reaches(tree, w, w)
  {
    var ws: seq<World>, steps: seq<Step> := [w], [];
    assert IsRun(tree, ws, steps) && ws[0] == w && Last(ws) == w;
  }

  lemma ReachesNext(tree: Id, w: World, v: World, step: Step, u: World)
    requires Reaches(tree, w, v) && Moves(tree, v, step, u)
    ensures Reaches(tree, w, u)
  {
    hide Moves;
    var ws, steps :| IsRun(tree, ws, steps) && ws[0] == w && Last(ws) == v;
    var ws', steps' := ws + [u], steps + [step];
    forall i | 0 <= i < |steps'| ensures Moves(tree, ws'[i], steps'[i], ws'[i + 1]) {
      if i < |steps| { assert ws'[i + 1] == ws[i + 1]; }
    }
    assert IsRun(tree, ws', steps') && ws'[0] == w && Last(ws') == u;
  }

  lemma ReachesTrans(tree: Id, w: World, v: World, u: World)
    requires Reaches(tree, w, v) && Reaches(tree, v, u)
    ensures Reaches(tree, w, u)
  {
    hide Moves;
    var ws, steps :| IsRun(tree, ws, steps) && ws[0] == w && Last(ws) == v;
    var vs, more :| IsRun(tree, vs, more) && vs[0] == v && Last(vs) == u;
    var all, done := ws + vs[1..], steps + more;
    forall i | 0 <= i < |done| ensures Moves(tree, all[i], done[i], all[i + 1]) {
      if i >= |steps| {
        assert all[i] == vs[i - |steps|] && all[i + 1] == vs[i - |steps| + 1];
      }
    }
    assert IsRun(tree, all, done) && all[0] == w && Last(all) == u;
  }

  /** One step, with the invariant it keeps. */
  lemma OneStep(tree: Id, w: World, step: Step, v: World)
    requires Inv(tree, w) && Moves(tree, w, step, v)
    ensures Inv(tree, v) && Reaches(tree, w, v)
  {
    hide Moves, Inv;
    StepKeepsInv(tree, w, step, v);
    ReachesItself(tree, w);
    ReachesNext(tree, w, w, step, v);
  }
}
