/**
 * What a delivery of the stream's last event means for the protocol, whatever
 * fails along the way: it lands or changes nothing, it succeeds only level with
 * the stream, and it counts as evidence only when the event cannot apply.
 */
module Delivery {
  import opened TreeTypes
  import opened EngineTree
  import opened TreeStore
  import opened Agreement
  import opened Replay
  import opened Protocol
  import opened TreeConsumer

  /** The engine was built through the projected version, and the last event is there or one past it. */
  ghost predicate Built(tree: Id, w: World, t: Tree) {
    && Inv(tree, w)
    && w.log != [] && !Last(w.log).IsRejection()
    && |w.log| <= Projected(tree, w) + 1
    && Through(tree, w.log, Projected(tree, w)) == Some(t)
  }

  /** The last event is one past the projected version. */
  predicate Ahead(tree: Id, w: World) {
    |w.log| == Projected(tree, w) + 1
  }

  lemma BuiltFacts(tree: Id, w: World, t: Tree)
    requires Built(tree, w, t)
    ensures t.kind == KindOf(w.log) && WellFormed(t.kind, t.nodes) && Held(w.store.nodes, tree) == t.nodes
    ensures ActiveUsersDistinct(w.store.nodes, tree)
    ensures Last(w.log).version == |w.log|
    ensures !Ahead(tree, w) ==> |w.log| == Projected(tree, w)
  {
    ThroughShape(tree, w.log, Projected(tree, w));
    WellFormedRowsAreDistinct(t.kind, w.store.nodes, tree);
  }

  lemma HeldIsActive(tree: Id, w: World, t: Tree, u: Id)
    requires Built(tree, w, t)
    ensures Holds(t.nodes, u) <==> FirstActive(w.store.nodes, tree, u) >= 0
    ensures Holds(t.nodes, u) ==> GetNode(w.store.nodes, tree, u).Some? && Lookup(t.nodes, u).value == NodeOf(GetNode(w.store.nodes, tree, u).value)
  {
    BuiltFacts(tree, w, t);
    HeldLookup(w.store.nodes, tree, u);
  }

  /** Ahead: the last event applies exactly when the stream replays through it. */
  lemma AheadApplies(tree: Id, w: World, t: Tree)
    requires Built(tree, w, t) && Ahead(tree, w)
    ensures Through(tree, w.log, |w.log|) ==
            if Applies(tree, t, Last(w.log).payload) then Some(Mutate(t, Last(w.log).payload).value.tree) else None
  {
    ThroughNext(tree, w.log, |w.log|);
  }

  lemma AheadHasNoRow(tree: Id, w: World, t: Tree)
    requires Built(tree, w, t) && Ahead(tree, w)
    ensures !HasId(w.store.nodes, Last(w.log).id)
  {
    UnreachedId(tree, w, |w.log| - 1);
  }

  // ----- Already projected -----

  /** The tree the last event was applied to, when the stream replays through it. */
  lemma AppliedTo(tree: Id, w: World, t: Tree) returns (before: Tree)
    requires Built(tree, w, t) && !Ahead(tree, w)
    ensures Applies(tree, before, Last(w.log).payload) && Mutate(before, Last(w.log).payload).value.tree == t
    ensures before.kind == t.kind && WellFormed(before.kind, before.nodes)
  {
    ThroughNext(tree, w.log, |w.log|);
    before := Through(tree, w.log, |w.log| - 1).value;
    ThroughShape(tree, w.log, |w.log| - 1);
    ThroughShape(tree, w.log, |w.log|);
  }

  /** The newest row is the last event's own, and describes the engine's newest node. */
  lemma NewestRow(tree: Id, w: World, t: Tree)
    requires Built(tree, w, t) && !Ahead(tree, w) && Last(w.log).IsInsert()
    ensures var rows, e := w.store.nodes, Last(w.log);
            && rows != [] && Last(rows).id == e.id && Last(rows).ActiveIn(tree)
            && t.nodes != [] && NodeOf(Last(rows)) == Last(t.nodes) && Last(t.nodes).user == e.payload.user
            && FirstActive(rows, tree, e.payload.user) == |rows| - 1
            && GetNode(rows, tree, e.payload.user) == Some(Last(rows))
  {
    var rows, e := w.store.nodes, Last(w.log);
    assert LastLanded(tree, w);
    hide Inv, Through, Mutate, WellFormed;
    BuiltFacts(tree, w, t);
    InitOfAppend(Held(Init(rows), tree), NodeOf(Last(rows)));
    var before := AppliedTo(tree, w, t);
    InsertAppends(before, e.payload);
    FirstActiveIs(rows, tree, e.payload.user, |rows| - 1);
  }

  /** An add that ran put one node last. */
  lemma InsertAppends(t: Tree, p: Payload)
    requires (p.RootAdded? || p.NodePlaced?) && Mutate(t, p).Ok?
    ensures var after := Mutate(t, p).value.tree.nodes;
            after != [] && after == t.nodes + [Last(after)] && Last(after).user == p.user
    ensures p.RootAdded? ==> RootMatches(Mutate(t, p).value.tree, p)
  {
    if p.RootAdded? { LookupAppend(t.nodes, Last(Mutate(t, p).value.tree.nodes), p.user); }
  }

  lemma SettledRoot(tree: Id, w: World, t: Tree)
    requires Built(tree, w, t) && !Ahead(tree, w) && Last(w.log).payload.RootAdded?
    ensures var e := Last(w.log);
            && Acceptable(tree, t.kind, e.payload)
            && InsertOf(tree, w.store, e) == Err(AlreadyProjected) && OwnRowActive(tree, w.store.nodes, e, e.payload.user)
            && Mutate(t, e.payload).Err? && RootMatches(t, e.payload)
  {
    hide Inv, Through, WellFormed, Held, Lookup, AddRoot, FirstActive;
    var e := Last(w.log);
    BuiltFacts(tree, w, t);
    NewestRow(tree, w, t);
    var before := AppliedTo(tree, w, t);
    InsertAppends(before, e.payload);
    MutateTwice(before, e.payload);
    assert Last(w.store.nodes) in w.store.nodes;
  }

  lemma SettledPlaced(tree: Id, w: World, t: Tree)
    requires Built(tree, w, t) && !Ahead(tree, w) && Last(w.log).payload.NodePlaced?
    ensures var e := Last(w.log);
            && Acceptable(tree, t.kind, e.payload) && RowFor(tree, w.store.nodes, e).Some?
            && InsertOf(tree, w.store, e) == Err(AlreadyProjected) && OwnRowActive(tree, w.store.nodes, e, e.payload.user)
            && Mutate(t, e.payload) == Err(UserAlreadyExists) && PlacedAsStored(tree, w.store, t, e)
  {
    hide Inv, Through, WellFormed, Held;
    var e := Last(w.log);
    BuiltFacts(tree, w, t);
    NewestRow(tree, w, t);
    NewestFits(tree, w, t);
    var before := AppliedTo(tree, w, t);
    MutateTwice(before, e.payload);
    var x := Last(t.nodes);
    assert t.nodes == before.nodes + [x];
    LookupAppend(before.nodes, x, e.payload.parent);
    HeldIsActive(tree, w, t, e.payload.parent);
    assert Last(w.store.nodes) in w.store.nodes;
  }

  lemma NewestFits(tree: Id, w: World, t: Tree)
    requires Built(tree, w, t) && w.store.nodes != []
    ensures FitsInt4(Last(w.store.nodes).depth)
    ensures Last(w.store.nodes).position.Some? ==> FitsInt4(Last(w.store.nodes).position.value)
  {
    assert RowOk(tree, w.log, Projected(tree, w), Last(w.store.nodes));
  }

  lemma SettledRemoved(tree: Id, w: World, t: Tree)
    requires Built(tree, w, t) && !Ahead(tree, w) && Last(w.log).payload.NodeRemoved?
    ensures HasStamp(tree, w.store, Last(w.log).id) && Mutate(t, Last(w.log).payload) == Err(UserNotFound)
    ensures Acceptable(tree, t.kind, Last(w.log).payload)
  {
    var before := AppliedTo(tree, w, t);
    MutateTwice(before, Last(w.log).payload);
  }

  // ----- The meaning of a delivery -----

  /** Landed, or changed nothing; succeeded only level with the stream; evidence only of an event that cannot apply. */
  ghost predicate Sound(tree: Id, w: World, t: Tree, after: Store, engine: Tree, fault: Option<Fault>, at: Time)
    requires Built(tree, w, t)
  {
    && (after == w.store || (Ahead(tree, w) && Landed(tree, w.store, t, Last(w.log), at) == Some(after)))
    && (fault.None? ==> ProjectedVersion(after, tree) == |w.log| && Through(tree, w.log, |w.log|) == Some(engine))
    && (fault.Some? && IsEvidence(fault.value) ==> Through(tree, w.log, |w.log|).None?)
  }

  /** An event the insert phase turned away cannot apply. */
  lemma TurnedAwayCannotApply(tree: Id, w: World, t: Tree, fault: Fault)
    requires Built(tree, w, t) && Last(w.log).IsInsert() && IsEvidence(fault)
    requires TurnedAway(tree, t.kind, w.store, Last(w.log), Last(w.log).payload.user, fault)
    ensures Through(tree, w.log, |w.log|).None?
  {
    hide Inv, Through, WellFormed, Held, GetNodeIncludingRemoved, FirstActive, AddNode, AddRoot;
    var e := Last(w.log);
    if !Ahead(tree, w) {
      if e.payload.RootAdded? { SettledRoot(tree, w, t); } else { SettledPlaced(tree, w, t); }
    } else {
      AheadApplies(tree, w, t);
      AheadHasNoRow(tree, w, t);
      if Applies(tree, t, e.payload) {
        if fault.InsertRefused? {
          ConflictCannotApply(tree, w, t);
        } else if e.payload.NodePlaced? {
          ParentIsActive(tree, w, t);
        }
      }
    }
  }

  lemma ParentIsActive(tree: Id, w: World, t: Tree)
    requires Built(tree, w, t) && Last(w.log).payload.NodePlaced? && Applies(tree, t, Last(w.log).payload)
    ensures RowFor(tree, w.store.nodes, Last(w.log)).Some?
  {
    hide Inv, Through;
    HeldIsActive(tree, w, t, Last(w.log).payload.parent);
  }

  /** A row the store refuses for a user, root or slot already taken is one the engine refuses too. */
  lemma ConflictCannotApply(tree: Id, w: World, t: Tree)
    requires Built(tree, w, t) && Last(w.log).IsInsert() && RowFor(tree, w.store.nodes, Last(w.log)).Some?
    requires InsertOf(tree, w.store, Last(w.log)).Err? && InsertOf(tree, w.store, Last(w.log)).error in SENTINELS
    ensures !Applies(tree, t, Last(w.log).payload)
  {
    hide Inv, Through, WellFormed, Held, Applies, Acceptable, Mutate;
    var e := Last(w.log);
    var row := RowFor(tree, w.store.nodes, e).value;
    BuiltFacts(tree, w, t);
    var n :| n in w.store.nodes && Conflict(n, Stored(row)).Some?;
    HeldMembers(w.store.nodes, tree);
    assert NodeOf(n) in t.nodes;
    if e.payload.RootAdded? {
      RootInTheWay(tree, t, e.payload);
    } else {
      HeldIsActive(tree, w, t, e.payload.parent);
      DeeperThanRoot(t, e.payload.parent);
      ClashIsRefused(t, e.payload, row, n);
    }
  }

  lemma RootInTheWay(tree: Id, t: Tree, p: Payload)
    requires p.RootAdded? && WellFormed(t.kind, t.nodes) && t.nodes != []
    ensures !Applies(tree, t, p)
  {
    RootIsFirst(t.kind, t.nodes);
    assert t.nodes[0] in t.nodes;
  }

  lemma DeeperThanRoot(t: Tree, u: Id)
    requires WellFormed(t.kind, t.nodes) && Holds(t.nodes, u)
    ensures Lookup(t.nodes, u).value.depth >= 0
  {
    LookupMember(t.nodes, u);
    RootIsFirst(t.kind, t.nodes);
  }

  lemma ClashIsRefused(t: Tree, p: Payload, row: Row, n: Row)
    requires p.NodePlaced? && NodeOf(n) in t.nodes && row.depth > 0
    requires row.user == p.user && row.parent == Some(p.parent) && row.position == p.position
    requires Conflict(n, Stored(row)).Some?
    ensures forall tree :: !Applies(tree, t, p)
  {
    LookupMember(t.nodes, p.user);
    if n.user != p.user {
      assert n.parent == Some(p.parent) && n.position == p.position && p.position.Some?;
      assert SlotTaken(t.nodes, p.parent, p.position.value);
    }
  }

  lemma RootDelivery(tree: Id, w: World, t: Tree, after: Store, engine: Tree, fault: Option<Fault>, mid: Store, at: Time)
    requires Built(tree, w, t) && Last(w.log).payload.RootAdded?
    requires EngineMoved(t, Last(w.log).payload, engine)
    requires fault.None? ==>
               && Acceptable(tree, t.kind, Last(w.log).payload)
               && RowStands(tree, w.store, Last(w.log), Last(w.log).payload.user, after) && RootMatches(engine, Last(w.log).payload)
    requires fault.Some? && fault.value != Diverged ==>
               after == w.store || (Acceptable(tree, t.kind, Last(w.log).payload) && InsertOf(tree, w.store, Last(w.log)) == Ok(after))
    requires fault == Some(Diverged) ==>
               && Mutate(t, Last(w.log).payload).Err? && engine == t && !RootMatches(engine, Last(w.log).payload)
               && Acceptable(tree, t.kind, Last(w.log).payload) && Undone(tree, w.store, Last(w.log), mid, at, after)
    requires fault.Some? && IsEvidence(fault.value) ==>
               TurnedAway(tree, t.kind, w.store, Last(w.log), Last(w.log).payload.user, fault.value)
    ensures fault != Some(Diverged) && Sound(tree, w, t, after, engine, fault, at)
  {
    hide Inv, Through, AddRoot, GetNodeIncludingRemoved, WellFormed, Held, UndoRootProjection;
    var e := Last(w.log);
    BuiltFacts(tree, w, t);
    if fault.Some? && IsEvidence(fault.value) { TurnedAwayCannotApply(tree, w, t, fault.value); }
    if Ahead(tree, w) {
      AheadApplies(tree, w, t);
      AheadHasNoRow(tree, w, t);
      if InsertOf(tree, w.store, e).Ok? && Acceptable(tree, t.kind, e.payload) { RootApplies(tree, w.store, t, e); }
    } else {
      SettledRoot(tree, w, t);
    }
  }

  lemma PlacedDelivery(tree: Id, w: World, t: Tree, after: Store, engine: Tree, fault: Option<Fault>, at: Time)
    requires Built(tree, w, t) && Last(w.log).payload.NodePlaced?
    requires EngineMoved(t, Last(w.log).payload, engine)
    requires after == w.store ||
             (Acceptable(tree, t.kind, Last(w.log).payload) && RowFor(tree, w.store.nodes, Last(w.log)).Some?
              && InsertOf(tree, w.store, Last(w.log)) == Ok(after))
    requires fault.None? ==>
               && Acceptable(tree, t.kind, Last(w.log).payload)
               && RowStands(tree, w.store, Last(w.log), Last(w.log).payload.user, after)
               && (|| (Mutate(t, Last(w.log).payload).Ok? && engine == Mutate(t, Last(w.log).payload).value.tree)
                   || (engine == t && Mutate(t, Last(w.log).payload) == Err(UserAlreadyExists)))
    requires fault.Some? && IsEvidence(fault.value) ==>
               || TurnedAway(tree, t.kind, w.store, Last(w.log), Last(w.log).payload.user, fault.value)
               || (Mutate(t, Last(w.log).payload).Err? && Mutate(t, Last(w.log).payload).error in REFUSAL_CODES)
    requires fault == Some(Diverged) ==>
               && Acceptable(tree, t.kind, Last(w.log).payload)
               && RowStands(tree, w.store, Last(w.log), Last(w.log).payload.user, after)
               && Mutate(engine, Last(w.log).payload) == Err(UserAlreadyExists) && !PlacedAsStored(tree, after, engine, Last(w.log))
    ensures fault != Some(Diverged) && Sound(tree, w, t, after, engine, fault, at)
  {
    hide Inv, Through, AddNode, GetNodeIncludingRemoved, WellFormed, Held;
    var e := Last(w.log);
    BuiltFacts(tree, w, t);
    if fault.Some? && IsEvidence(fault.value) && TurnedAway(tree, t.kind, w.store, e, e.payload.user, fault.value) {
      TurnedAwayCannotApply(tree, w, t, fault.value);
    }
    if Ahead(tree, w) {
      AheadApplies(tree, w, t);
      AheadHasNoRow(tree, w, t);
      if Mutate(t, e.payload) == Err(UserAlreadyExists) && RowFor(tree, w.store.nodes, e).Some? {
        TakenUserIsRefused(tree, w, t);
      }
      if fault == Some(Diverged) { PlacedMatchesItsRow(tree, w, t, after); }
    } else {
      SettledPlaced(tree, w, t);
    }
  }

  /** The node a placement adds agrees with the row that landed for it. */
  lemma PlacedMatchesItsRow(tree: Id, w: World, t: Tree, after: Store)
    requires Built(tree, w, t) && Last(w.log).payload.NodePlaced? && Ahead(tree, w)
    requires RowFor(tree, w.store.nodes, Last(w.log)).Some? && InsertOf(tree, w.store, Last(w.log)) == Ok(after)
    requires Acceptable(tree, t.kind, Last(w.log).payload)
    ensures Mutate(t, Last(w.log).payload).Ok? ==> PlacedAsStored(tree, after, Mutate(t, Last(w.log).payload).value.tree, Last(w.log))
  {
    hide Inv, Through, WellFormed, Held;
    var e := Last(w.log);
    var row := RowFor(tree, w.store.nodes, e).value;
    BuiltFacts(tree, w, t);
    HeldIsActive(tree, w, t, e.payload.parent);
    if Mutate(t, e.payload).Ok? {
      InsertedIsFound(tree, w.store.nodes, row);
      LookupAppend(t.nodes, Last(Mutate(t, e.payload).value.tree.nodes), e.payload.user);
    }
  }

  /** A row that landed is the one read for its user. */
  lemma InsertedIsFound(tree: Id, rows: seq<Row>, row: Row)
    requires row.ActiveIn(tree) && InsertFault(rows, row).None?
    ensures GetNode(rows + [Stored(row)], tree, row.user) == Some(Stored(row))
  {
    var after := rows + [Stored(row)];
    assert after[|rows|].ActiveIn(tree);
    forall i | 0 <= i < |rows| ensures !(after[i].ActiveIn(tree) && after[i].user == row.user) {
      assert after[i] in rows;
      assert Conflict(after[i], Stored(row)).None?;
    }
  }

  lemma TakenUserIsRefused(tree: Id, w: World, t: Tree)
    requires Built(tree, w, t) && Last(w.log).payload.NodePlaced? && RowFor(tree, w.store.nodes, Last(w.log)).Some?
    requires Mutate(t, Last(w.log).payload) == Err(UserAlreadyExists)
    ensures InsertOf(tree, w.store, Last(w.log)).Err?
  {
    hide Inv, Through;
    var e := Last(w.log);
    HeldIsActive(tree, w, t, e.payload.user);
    var n := GetNode(w.store.nodes, tree, e.payload.user).value;
    assert n in w.store.nodes && Conflict(n, Stored(RowFor(tree, w.store.nodes, e).value)).Some?;
  }

  /** What lands at a version brings the store to that version. */
  lemma LandedIsLevel(tree: Id, s: Store, t: Tree, e: Event, at: Time)
    requires Landed(tree, s, t, e, at).Some? && e.version >= ProjectedVersion(s, tree)
    ensures ProjectedVersion(Landed(tree, s, t, e, at).value, tree) == e.version
    ensures e.payload.NodeRemoved? ==> Applies(tree, t, e.payload)
  {
    hide StageRemoval, InsertFault, RemoveNode;
  }

  lemma RemovedDelivery(tree: Id, w: World, t: Tree, after: Store, engine: Tree, fault: Option<Fault>, at: Time)
    requires Built(tree, w, t) && Last(w.log).payload.NodeRemoved?
    requires EngineMoved(t, Last(w.log).payload, engine)
    requires after == w.store || Landed(tree, w.store, t, Last(w.log), at) == Some(after)
    requires fault.None? ==>
               || (Landed(tree, w.store, t, Last(w.log), at) == Some(after) && engine == Mutate(t, Last(w.log).payload).value.tree)
               || (after == w.store && HasStamp(tree, w.store, Last(w.log).id))
    requires fault.Some? && IsEvidence(fault.value) ==>
               || !Acceptable(tree, t.kind, Last(w.log).payload)
               || (FirstActive(w.store.nodes, tree, Last(w.log).payload.user) < 0 && !HasStamp(tree, w.store, Last(w.log).id))
               || (Mutate(t, Last(w.log).payload).Err? && Mutate(t, Last(w.log).payload).error in REFUSAL_CODES)
               || (Mutate(t, Last(w.log).payload).Ok? && Landed(tree, w.store, t, Last(w.log), at).None?)
    requires fault == Some(RemovalNotProjected) ==>
               && after == w.store && Acceptable(tree, t.kind, Last(w.log).payload)
               && Mutate(engine, Last(w.log).payload) == Err(UserNotFound) && FirstActive(w.store.nodes, tree, Last(w.log).payload.user) >= 0
    ensures Sound(tree, w, t, after, engine, fault, at)
    ensures fault == Some(RemovalNotProjected) ==>
              && Ahead(tree, w) && after == w.store && Applies(tree, t, Last(w.log).payload)
              && engine == Mutate(t, Last(w.log).payload).value.tree
  {
    hide Inv, Through, RemoveNode, Landed, WellFormed, Held, HasStamp, FirstActive;
    var e := Last(w.log);
    BuiltFacts(tree, w, t);
    if Landed(tree, w.store, t, e, at).Some? { LandedIsLevel(tree, w.store, t, e, at); }
    AbsentUser(t, e.payload.user);
    HeldIsActive(tree, w, t, e.payload.user);
    if Ahead(tree, w) {
      AheadApplies(tree, w, t);
      AheadNotStamped(tree, w, t);
      if Applies(tree, t, e.payload) {
        RemovalLands(tree, w, t, at);
        RemovedUserIsActive(tree, w, t);
      }
    } else {
      SettledRemoved(tree, w, t);
    }
  }

  lemma RemovedUserIsActive(tree: Id, w: World, t: Tree)
    requires Built(tree, w, t) && Last(w.log).payload.NodeRemoved? && Applies(tree, t, Last(w.log).payload)
    ensures FirstActive(w.store.nodes, tree, Last(w.log).payload.user) >= 0
  {
    hide Inv, Through;
    HeldIsActive(tree, w, t, Last(w.log).payload.user);
  }

  lemma AheadNotStamped(tree: Id, w: World, t: Tree)
    requires Built(tree, w, t) && Ahead(tree, w)
    ensures !HasStamp(tree, w.store, Last(w.log).id)
  {
    forall r | r in w.store.nodes ensures r.removedBy != Some(Last(w.log).id) {
      assert RowOk(tree, w.log, Projected(tree, w), r);
    }
  }

  /** A removal that applies lands whole. */
  lemma RemovalLands(tree: Id, w: World, t: Tree, at: Time)
    requires Built(tree, w, t) && Ahead(tree, w) && Last(w.log).payload.NodeRemoved? && Applies(tree, t, Last(w.log).payload)
    ensures Landed(tree, w.store, t, Last(w.log), at).Some?
  {
    BuiltFacts(tree, w, t);
    RemovalStages(w.store.nodes, tree, t, Last(w.log).payload.user, Last(w.log).id, at);
  }

  // ----- Without failed calls, a delivery decides -----

  /**
   * The last event is a placement not yet projected whose depth does not fit the
   * store's column. The store refuses it for a reason that is not evidence.
   */
  predicate TooDeep(tree: Id, w: World) {
    && w.log != [] && Ahead(tree, w) && Last(w.log).payload.NodePlaced?
    && Acceptable(tree, KindOf(w.log), Last(w.log).payload)
    && RowFor(tree, w.store.nodes, Last(w.log)).Some?
    && !FitsInt4(RowFor(tree, w.store.nodes, Last(w.log)).value.depth)
  }

  /** Only an event that cannot apply, or does not fit, is refused, and the refusal of the former is evidence. */
  ghost predicate Decided(tree: Id, w: World, fault: Fault) {
    TooDeep(tree, w) || (Through(tree, w.log, |w.log|).None? && IsEvidence(fault))
  }

  lemma RootDecided(tree: Id, w: World, t: Tree, fault: Fault)
    requires Built(tree, w, t) && Last(w.log).payload.RootAdded?
    requires TurnedAway(tree, t.kind, w.store, Last(w.log), Last(w.log).payload.user, fault) ||
             (Acceptable(tree, t.kind, Last(w.log).payload)
              && (InsertOf(tree, w.store, Last(w.log)).Ok? || InsertOf(tree, w.store, Last(w.log)) == Err(AlreadyProjected))
              && Mutate(t, Last(w.log).payload).Err? && !RootMatches(t, Last(w.log).payload))
    ensures Decided(tree, w, fault)
  {
    hide Inv, Through, AddRoot, GetNodeIncludingRemoved, WellFormed, Held;
    var e := Last(w.log);
    BuiltFacts(tree, w, t);
    if !Ahead(tree, w) {
      SettledRoot(tree, w, t);
    } else {
      AheadHasNoRow(tree, w, t);
      if InsertOf(tree, w.store, e).Ok? && Acceptable(tree, t.kind, e.payload) { RootApplies(tree, w.store, t, e); }
      assert IsEvidence(fault);
      TurnedAwayCannotApply(tree, w, t, fault);
    }
  }

  lemma PlacedDecided(tree: Id, w: World, t: Tree, after: Store, fault: Fault)
    requires Built(tree, w, t) && Last(w.log).payload.NodePlaced?
    requires TurnedAway(tree, t.kind, w.store, Last(w.log), Last(w.log).payload.user, fault) ||
             (Acceptable(tree, t.kind, Last(w.log).payload)
              && RowStands(tree, w.store, Last(w.log), Last(w.log).payload.user, after) && Mutate(t, Last(w.log).payload).Err?
              && ((Mutate(t, Last(w.log).payload).error != UserAlreadyExists
                   && fault == EngineFailed(Some(Mutate(t, Last(w.log).payload).error))) ||
                  (Mutate(t, Last(w.log).payload) == Err(UserAlreadyExists) && !PlacedAsStored(tree, after, t, Last(w.log)))))
    ensures Decided(tree, w, fault)
  {
    hide Inv, Through, AddNode, GetNodeIncludingRemoved, WellFormed, Held;
    var e := Last(w.log);
    BuiltFacts(tree, w, t);
    if !Ahead(tree, w) {
      SettledPlaced(tree, w, t);
    } else {
      AheadHasNoRow(tree, w, t);
      AheadApplies(tree, w, t);
      if TurnedAway(tree, t.kind, w.store, e, e.payload.user, fault) {
        if IsEvidence(fault) { TurnedAwayCannotApply(tree, w, t, fault); }
      } else {
        PlacementRefusals(tree, w, t);
      }
    }
  }

  /** With its row landed, a placement the engine refuses is refused for its sponsor or its slot. */
  lemma PlacementRefusals(tree: Id, w: World, t: Tree)
    requires Built(tree, w, t) && Last(w.log).payload.NodePlaced? && RowFor(tree, w.store.nodes, Last(w.log)).Some?
    requires Acceptable(tree, t.kind, Last(w.log).payload) && InsertOf(tree, w.store, Last(w.log)).Ok?
    ensures Mutate(t, Last(w.log).payload).Err? ==> Mutate(t, Last(w.log).payload).error in {SponsorNotFound, PositionOccupied}
  {
    hide Inv, Through, InsertOf, RowFor;
    HeldIsActive(tree, w, t, Last(w.log).payload.parent);
    ParentRead(tree, w, t);
    if Mutate(t, Last(w.log).payload) == Err(UserAlreadyExists) { TakenUserIsRefused(tree, w, t); }
  }

  lemma ParentRead(tree: Id, w: World, t: Tree)
    requires w.log != [] && Last(w.log).payload.NodePlaced? && RowFor(tree, w.store.nodes, Last(w.log)).Some?
    ensures FirstActive(w.store.nodes, tree, Last(w.log).payload.parent) >= 0
  {
  }

  lemma RemovedDecided(tree: Id, w: World, t: Tree, fault: Fault, at: Time)
    requires Built(tree, w, t) && Last(w.log).payload.NodeRemoved?
    requires || (!Acceptable(tree, t.kind, Last(w.log).payload) && fault == Unprojectable)
             || (Mutate(t, Last(w.log).payload).Ok? && Acceptable(tree, t.kind, Last(w.log).payload)
                 && Landed(tree, w.store, t, Last(w.log), at).None?)
             || (Mutate(t, Last(w.log).payload) == Err(UserNotFound) && !HasStamp(tree, w.store, Last(w.log).id)
                 && fault == if FirstActive(w.store.nodes, tree, Last(w.log).payload.user) < 0 then Unprojectable else RemovalNotProjected)
             || (Mutate(t, Last(w.log).payload).Err? && Mutate(t, Last(w.log).payload).error != UserNotFound
                 && fault == EngineFailed(Some(Mutate(t, Last(w.log).payload).error)))
    ensures Decided(tree, w, fault)
  {
    hide Inv, Through, RemoveNode, Landed, WellFormed, Held, HasStamp, FirstActive;
    var e := Last(w.log);
    BuiltFacts(tree, w, t);
    if !Ahead(tree, w) {
      SettledRemoved(tree, w, t);
    } else {
      AheadApplies(tree, w, t);
      if Applies(tree, t, e.payload) { RemovalLands(tree, w, t, at); }
      RemoveNodeKeepsShape(t, e.payload.user);
      HeldIsActive(tree, w, t, e.payload.user);
      AbsentUser(t, e.payload.user);
    }
  }

  lemma AbsentUser(t: Tree, u: Id)
    ensures RemoveNode(t, u) == Err(UserNotFound) ==> !Holds(t.nodes, u)
  {
  }

  /** A placement too deep to store is refused for that, and the refusal is not evidence. */
  lemma DeepIsNotEvidence(tree: Id, w: World, t: Tree, after: Store, fault: Fault)
    requires Built(tree, w, t) && TooDeep(tree, w)
    requires TurnedAway(tree, t.kind, w.store, Last(w.log), Last(w.log).payload.user, fault) ||
             RowStands(tree, w.store, Last(w.log), Last(w.log).payload.user, after)
    ensures !IsEvidence(fault)
  {
    hide Inv, Through, GetNodeIncludingRemoved, WellFormed, Held;
    BuiltFacts(tree, w, t);
  }
}
