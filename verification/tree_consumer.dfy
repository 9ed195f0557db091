/**
 * The consumer that projects one event into the store and the engine, and the
 * store as it sees it: calls that can fail before or after they commit.
 */
module TreeConsumer {
  import opened TreeTypes
  import opened EngineTree
  import opened TreeStore
  import opened Agreement
  import opened Replay
  import opened Protocol
  import opened EngineWorker

  // ----- The store behind a connection -----

  datatype StoreReply = Written | StoreRefused(fault: StoreFault) | StoreFailed

  /** The reply says what the write function says, or the write failed and may have landed. */
  predicate Answers(reply: StoreReply, r: Result<Store, StoreFault>, before: Store, after: Store) {
    match reply
    case Written => r == Ok(after)
    case StoreRefused(f) => r == Err(f) && after == before
    case StoreFailed => after == before || r == Ok(after)
  }

  class StoreLink {
    const tree: Id
    var s: Store
    const faulty: bool

    constructor (tree: Id, s: Store, faulty: bool)
      ensures this.tree == tree && this.s == s && this.faulty == faulty
    {
      this.tree, this.s, this.faulty := tree, s, faulty;
    }

    method Commit(r: Result<Store, StoreFault>) returns (reply: StoreReply)
      modifies this
      ensures Answers(reply, r, old(s), s)
      ensures !faulty ==> !reply.StoreFailed?
    {
      var before: bool, after: bool := *, *;
      if faulty && before {
        return StoreFailed;
      }
      if r.Err? {
        return StoreRefused(r.error);
      }
      s := r.value;
      return if faulty && after then StoreFailed else Written;
    }

    /** A read, or None when it failed. */
    method Read<T>(value: T) returns (r: Option<T>)
      ensures r.Some? ==> r.value == value
      ensures !faulty ==> r.Some?
    {
      var fails: bool := *;
      return if faulty && fails then None else Some(value);
    }

    /** The tree's projected version and active rows in one read. Rows of one depth and time come in any order. */
    method ProjectedRows() returns (r: Option<(int, seq<Row>)>)
      ensures r.Some? ==> r.value.0 == ProjectedVersion(s, tree)
      ensures r.Some? ==> multiset(r.value.1) == multiset(ActiveRows(s.nodes, tree)) && DepthOrdered(r.value.1)
      ensures !faulty ==> r.Some?
    {
      ByDepthIsOrdered(ActiveRows(s.nodes, tree));
      r := Read((ProjectedVersion(s, tree), ByDepth(ActiveRows(s.nodes, tree))));
    }
  }

  // ----- Faults -----

  datatype Fault =
    | Cancelled
    | IoFailed
    | Unprojectable
    | InsertRefused(insertFault: StoreFault)
    | ReplayedPlacement
    | RemovalRefused(removalFault: StoreFault)
    | RemovalNotProjected
    | Diverged
    | EngineFailed(last: Option<Code>)
    | RejectionRefused(rejectionFault: StoreFault)
    | BadRejection

  /** The engine codes that count as evidence that an event cannot apply. */
  const REFUSAL_CODES: set<Code> :=
    {PositionOccupied, InvalidPosition, HasChildren, SponsorNotFound, SponsorlessWithRecruits, SponsorCycle, NilUserId}

  const SENTINELS: set<StoreFault> := {ActiveUserConflict, SlotConflict, RootConflict}

  /** A failed redelivery that shows the event cannot apply. */
  predicate IsEvidence(f: Fault) {
    match f
    case Unprojectable => true
    case ReplayedPlacement => true
    case InsertRefused(x) => x in SENTINELS
    case RemovalRefused(x) => x in SENTINELS
    case EngineFailed(last) => last.Some? && last.value in REFUSAL_CODES
    case _ => false
  }

  // ----- What a delivery may do -----

  predicate OwnRowActive(tree: Id, rows: seq<Row>, e: Event, user: Id) {
    var existing := GetNodeIncludingRemoved(rows, tree, user);
    existing.Some? && existing.value.id == e.id && existing.value.Active()
  }

  function InsertOf(tree: Id, s: Store, e: Event): Result<Store, StoreFault>
    requires RowFor(tree, s.nodes, e).Some?
  {
    ProjectInsert(s, RowFor(tree, s.nodes, e).value, e.version)
  }

  /** The engine is untouched, or the event's mutation took effect once. */
  predicate EngineMoved(t: Tree, p: Payload, after: Tree) {
    after == t || (Mutate(t, p).Ok? && after == Mutate(t, p).value.tree)
  }

  /** The insert phase let the event through: its row landed, or was there already and is active. */
  predicate RowStands(tree: Id, s: Store, e: Event, user: Id, after: Store) {
    RowFor(tree, s.nodes, e).Some? &&
    var ins := InsertOf(tree, s, e);
    ins == Ok(after) || (ins == Err(AlreadyProjected) && after == s && OwnRowActive(tree, s.nodes, e, user))
  }

  /** Why the insert phase turned the event away. */
  predicate TurnedAway(tree: Id, kind: Kind, s: Store, e: Event, user: Id, f: Fault) {
    match f
    case Unprojectable => !Acceptable(tree, kind, e.payload) || RowFor(tree, s.nodes, e).None?
    case InsertRefused(x) =>
      && Acceptable(tree, kind, e.payload) && RowFor(tree, s.nodes, e).Some?
      && InsertOf(tree, s, e) == Err(x) && x != AlreadyProjected
    case ReplayedPlacement =>
      && Acceptable(tree, kind, e.payload) && RowFor(tree, s.nodes, e).Some? && InsertOf(tree, s, e) == Err(AlreadyProjected)
      && !OwnRowActive(tree, s.nodes, e, user)
    case _ => false
  }

  /** The placed node the engine holds agrees with the row the store holds. */
  predicate PositionMatches(n: Node, p: Payload, row: Row)
    requires p.NodePlaced?
  {
    && n.user == p.user
    && n.parent == row.parent
    && n.sponsor == row.sponsor
    && n.depth == row.depth
    && n.enrolled == Unix(p.enrolled)
    && (p.kind != Unilevel ==> row.position.Some? && n.position == row.position)
  }

  predicate RootMatches(t: Tree, p: Payload)
    requires p.RootAdded?
  {
    var n := Lookup(t.nodes, p.user);
    n.Some? && n.value.depth == 0 && n.value.enrolled == Unix(p.enrolled)
  }

  /** A mutation that took effect is refused the second time, in a way reconcile recognises. */
  lemma MutateTwice(t: Tree, p: Payload)
    requires Mutate(t, p).Ok?
    ensures var again := Mutate(Mutate(t, p).value.tree, p);
            match p
            case RootAdded(_, _, _, _, _) => again == Err(RootAlreadyExists)
            case NodePlaced(_, _, _, _, _, _, _) => again == Err(UserAlreadyExists)
            case NodeRemoved(_, _, _) => again == Err(UserNotFound)
            case _ => true
  {
    var after := Mutate(t, p).value.tree.nodes;
    match p
    case RootAdded(_, user, _, enrolled, _) =>
      assert Last(after) in after;
    case NodePlaced(_, user, _, _, _, _, _) =>
      assert Last(after).user == user;
    case NodeRemoved(_, user, _) =>
      DroppedIsGone(t.nodes, user, TargetOf(t.nodes, user));
    case _ =>
  }

  // ----- The consumer -----

  /** Attempts one engine call gets: the first and two retries. */
  const ATTEMPTS: int := 3

  /** The call was made again and again, and no other: at least once and at most three times. */
  predicate Retried(before: seq<Payload>, after: seq<Payload>, p: Payload) {
    after == before + [p] || after == before + [p, p] || after == before + [p, p, p]
  }

  predicate Repeated(before: seq<Payload>, after: seq<Payload>, p: Payload, n: int) {
    0 <= n <= 3 && after == before + [p, p, p][..n]
  }

  lemma NotYet(before: seq<Payload>, p: Payload)
    ensures Repeated(before, before, p, 0)
  {
  }

  lemma OnceMore(before: seq<Payload>, after: seq<Payload>, p: Payload, n: int)
    requires 0 <= n < 3 && Repeated(before, after, p, n)
    ensures Repeated(before, after + [p], p, n + 1) && Retried(before, after + [p], p)
    ensures n == 0 ==> after + [p] == before + [p]
    ensures n == 2 ==> after + [p] == before + [p, p, p]
  {
    assert [p, p, p][..n + 1] == [p, p, p][..n] + [p];
    assert after + [p] == before + [p, p, p][..n + 1];
    assert [p, p, p][..1] == [p] && [p, p, p][..2] == [p, p] && [p, p, p][..3] == [p, p, p];
  }

  // ----- The rows inserts leave -----

  /** The store with a root_added's row added, field by field, and its version. */
  predicate RootRowAdded(tree: Id, s: Store, e: Event, after: Store) {
    && e.payload.RootAdded?
    && var p := e.payload;
       && after.nodes == s.nodes + [Row(e.id, tree, p.user, None, Some(p.sponsor), None, 0, p.enrolled - p.enrolled % 1_000, None, None)]
       && ProjectedVersion(after, tree) == e.version && after.projected - {tree} == s.projected - {tree}
  }

  /** The store with a node_placed's row added, one level below its parent's active row. */
  ghost predicate PlacedRowAdded(tree: Id, s: Store, e: Event, after: Store) {
    && e.payload.NodePlaced?
    && var p := e.payload;
       && (exists k :: 0 <= k < |s.nodes| && s.nodes[k].ActiveIn(tree) && s.nodes[k].user == p.parent
                       && after.nodes == s.nodes + [Row(e.id, tree, p.user, Some(p.parent), Some(p.sponsor), p.position, s.nodes[k].depth + 1,
                                                        p.enrolled - p.enrolled % 1_000, None, None)])
       && ProjectedVersion(after, tree) == e.version && after.projected - {tree} == s.projected - {tree}
  }

  /** The row an accepted root_added leaves. */
  lemma RootRowIs(tree: Id, s: Store, e: Event)
    requires e.payload.RootAdded? && InsertOf(tree, s, e).Ok?
    ensures RootRowAdded(tree, s, e, InsertOf(tree, s, e).value)
  {
  }

  /** The row an accepted node_placed leaves. */
  lemma PlacedRowIs(tree: Id, s: Store, e: Event)
    requires e.payload.NodePlaced? && RowFor(tree, s.nodes, e).Some? && InsertOf(tree, s, e).Ok?
    ensures PlacedRowAdded(tree, s, e, InsertOf(tree, s, e).value)
  {
    var k := FirstActive(s.nodes, tree, e.payload.parent);
    assert s.nodes[k].ActiveIn(tree) && s.nodes[k].user == e.payload.parent;
  }

  class Consumer {
    const tree: Id
    const store: StoreLink
    const engine: Worker

    constructor (tree: Id, store: StoreLink, engine: Worker)
      ensures this.tree == tree && this.store == store && this.engine == engine
    {
      this.tree, this.store, this.engine := tree, store, engine;
    }

    predicate Faulty() {
      store.faulty || engine.faulty
    }

    /** Inserts the event's row, and decides whether an insert that was skipped may go on to the engine. */
    method InsertRow(e: Event, row: Row) returns (fault: Option<Fault>, inserted: bool)
      requires store.tree == tree && RowFor(tree, store.s.nodes, e) == Some(row)
      requires engine.held.Some? && Acceptable(tree, engine.held.value.kind, e.payload)
      modifies store
      ensures fault.None? ==> RowStands(tree, old(store.s), e, row.user, store.s)
      ensures fault.None? ==> inserted == InsertOf(tree, old(store.s), e).Ok?
      ensures fault.Some? ==> store.s == old(store.s) || InsertOf(tree, old(store.s), e) == Ok(store.s)
      ensures fault.Some? ==> fault.value.IoFailed? || fault.value.InsertRefused? || fault.value.ReplayedPlacement?
      ensures fault.Some? && !fault.value.IoFailed? ==>
                store.s == old(store.s) && TurnedAway(tree, engine.held.value.kind, old(store.s), e, row.user, fault.value)
      ensures !store.faulty ==> fault != Some(IoFailed)
    {
      ghost var s := store.s;
      var reply := store.Commit(ProjectInsert(store.s, row, e.version));
      if reply.Written? {
        return None, true;
      }
      if reply.StoreFailed? {
        return Some(IoFailed), false;
      }
      if reply.fault != AlreadyProjected {
        return Some(InsertRefused(reply.fault)), false;
      }
      var existing := store.Read(GetNodeIncludingRemoved(store.s.nodes, tree, row.user));
      if existing.None? {
        return Some(IoFailed), false;
      }
      if existing.value.Some? && existing.value.value.id == e.id && existing.value.value.Active() {
        return None, false;
      }
      return Some(ReplayedPlacement), false;
    }

    /**
     * A root_added whose engine call was refused because a root is there: the
     * engine already has it, or has something else and this delivery's own row
     * is taken back.
     */
    method ReconcileRoot(e: Event, inserted: bool) returns (converged: bool, diverged: bool, ghost at: Time)
      requires e.payload.RootAdded? && store.tree == tree && engine.held.Some?
      modifies store
      ensures !(converged && diverged)
      ensures converged ==> RootMatches(engine.held.value, e.payload)
      ensures converged ==>
                var n := Lookup(engine.held.value.nodes, e.payload.user);
                n.Some? && n.value.depth == 0 && n.value.enrolled == Unix(e.payload.enrolled)
      ensures diverged ==> !RootMatches(engine.held.value, e.payload)
      ensures store.s == old(store.s) ||
              (diverged && inserted && UndoRootProjection(old(store.s), tree, e.payload.user, e.version, at) == Ok(store.s))
      ensures !Faulty() ==> converged || diverged
      ensures !Faulty() && diverged && inserted && UndoRootProjection(old(store.s), tree, e.payload.user, e.version, at).Ok? ==>
                UndoRootProjection(old(store.s), tree, e.payload.user, e.version, at) == Ok(store.s)
    {
      var now: Time := *;
      at := now;
      var pos := engine.GetPosition(e.payload.user);
      if pos.Unanswered? {
        return false, false, at;
      }
      if pos.At? && pos.node.depth == 0 && pos.node.enrolled == Unix(e.payload.enrolled) {
        return true, false, at;
      }
      if inserted {
        var reply := store.Commit(UndoRootProjection(store.s, tree, e.payload.user, e.version, now));
      }
      return false, true, at;
    }

    /** The retried add_root of an accepted root_added. */
    method RetryRoot(e: Event, inserted: bool) returns (fault: Option<Fault>, ghost at: Time)
      requires e.payload.RootAdded? && store.tree == tree && engine.held.Some?
      requires Acceptable(tree, engine.held.value.kind, e.payload)
      modifies store, engine
      ensures engine.held.Some? && EngineMoved(old(engine.held).value, e.payload, engine.held.value)
      ensures fault.None? ==> RootMatches(engine.held.value, e.payload)
      ensures fault != Some(Diverged) ==> store.s == old(store.s)
      ensures fault == Some(Diverged) ==>
                && Mutate(old(engine.held).value, e.payload).Err? && engine.held == old(engine.held)
                && !RootMatches(engine.held.value, e.payload)
                && (store.s == old(store.s) ||
                    (inserted && UndoRootProjection(old(store.s), tree, e.payload.user, e.version, at) == Ok(store.s)))
      ensures fault.Some? ==> !IsEvidence(fault.value)
      ensures !Faulty() && fault.Some? ==> Mutate(old(engine.held).value, e.payload).Err? && !RootMatches(old(engine.held).value, e.payload)
      ensures !Faulty() && fault == Some(Diverged) && inserted && UndoRootProjection(old(store.s), tree, e.payload.user, e.version, at).Ok? ==>
                UndoRootProjection(old(store.s), tree, e.payload.user, e.version, at) == Ok(store.s)
      ensures Retried(old(engine.calls), engine.calls, e.payload)
      ensures fault.Some? && fault.value.EngineFailed? ==> engine.calls == old(engine.calls) + [e.payload, e.payload, e.payload]
      ensures !Faulty() && Mutate(old(engine.held).value, e.payload).Ok? ==> engine.calls == old(engine.calls) + [e.payload]
    {
      hide Repeated, Retried, UndoRootProjection;
      NotYet(engine.calls, e.payload);
      ghost var t := engine.held.value;
      at := 0;
      if Mutate(t, e.payload).Ok? { MutateTwice(t, e.payload); }
      var last: Option<Code> := None;
      for attempt := 0 to ATTEMPTS
        invariant Repeated(old(engine.calls), engine.calls, e.payload, attempt)
        invariant attempt == ATTEMPTS ==> engine.calls == old(engine.calls) + [e.payload, e.payload, e.payload]
        invariant attempt > 0 ==> Retried(old(engine.calls), engine.calls, e.payload)
        invariant store.s == old(store.s) && engine.held.Some? && EngineMoved(t, e.payload, engine.held.value)
        invariant last.Some? ==> last.value !in REFUSAL_CODES
        invariant !Faulty() ==> engine.held == Some(t)
        invariant !Faulty() && attempt > 0 ==> Mutate(t, e.payload).Err? && !RootMatches(t, e.payload)
      {
        OnceMore(old(engine.calls), engine.calls, e.payload, attempt);
        var reply := engine.Apply(e.payload);
        if reply.Done? {
          return None, at;
        }
        last := if reply.Refused? then Some(reply.code) else None;
        var cancelled: bool := *;
        cancelled := cancelled && Faulty();
        if !cancelled && reply.Refused? && (reply.code == UserAlreadyExists || reply.code == RootAlreadyExists) {
          var converged, diverged;
          converged, diverged, at := ReconcileRoot(e, inserted);
          if converged {
            return None, at;
          }
          if diverged {
            return Some(Diverged), at;
          }
        }
        if attempt < ATTEMPTS - 1 && cancelled {
          return Some(Cancelled), at;
        }
      }
      return Some(EngineFailed(last)), at;
    }

    method HandleRootAdded(e: Event) returns (fault: Option<Fault>)
      requires e.payload.RootAdded? && store.tree == tree && engine.held.Some?
      modifies store, engine
      ensures engine.held.Some? && EngineMoved(old(engine.held).value, e.payload, engine.held.value)
      ensures fault.None? ==>
                && Acceptable(tree, old(engine.held).value.kind, e.payload)
                && RowStands(tree, old(store.s), e, e.payload.user, store.s) && RootMatches(engine.held.value, e.payload)
      ensures fault.Some? && fault.value != Diverged ==>
                store.s == old(store.s) ||
                (Acceptable(tree, old(engine.held).value.kind, e.payload) && InsertOf(tree, old(store.s), e) == Ok(store.s))
      ensures fault == Some(Diverged) ==>
                && Mutate(old(engine.held).value, e.payload).Err? && engine.held == old(engine.held)
                && !RootMatches(engine.held.value, e.payload) && Acceptable(tree, engine.held.value.kind, e.payload)
                && exists mid, at :: Undone(tree, old(store.s), e, mid, at, store.s)
      ensures fault.Some? && IsEvidence(fault.value) ==>
                store.s == old(store.s) && TurnedAway(tree, old(engine.held).value.kind, old(store.s), e, e.payload.user, fault.value)
      ensures !Faulty() && fault.Some? ==>
                || (store.s == old(store.s)
                    && TurnedAway(tree, old(engine.held).value.kind, old(store.s), e, e.payload.user, fault.value))
                || (Acceptable(tree, old(engine.held).value.kind, e.payload) && (InsertOf(tree, old(store.s), e).Ok? || InsertOf(tree, old(store.s), e) == Err(AlreadyProjected))
                    && Mutate(old(engine.held).value, e.payload).Err? && !RootMatches(old(engine.held).value, e.payload))
      ensures !Faulty() && fault == Some(Diverged) ==>
                && ActiveRows(store.s.nodes, tree) == ActiveRows(old(store.s).nodes, tree)
                && (if InsertOf(tree, old(store.s), e).Ok? then exists at :: TakenBack(tree, old(store.s), e, at, store.s) else store.s == old(store.s))
      ensures engine.calls == old(engine.calls) || Retried(old(engine.calls), engine.calls, e.payload)
      ensures fault.Some? && fault.value.EngineFailed? ==> engine.calls == old(engine.calls) + [e.payload, e.payload, e.payload]
      ensures store.s != old(store.s) && fault != Some(Diverged) ==> RootRowAdded(tree, old(store.s), e, store.s)
      ensures Malformed(tree, old(engine.held).value.kind, e.payload) ==>
                fault == Some(Unprojectable) && store.s == old(store.s) && engine.held == old(engine.held) && engine.calls == old(engine.calls)
    {
      hide UndoRootProjection, Mutate, ProjectInsert, GetNodeIncludingRemoved, ActiveRows, RootRowAdded, Retried, Malformed;
      MalformedIs(tree, engine.held.value.kind, e.payload);
      ghost var s := store.s;
      if !Acceptable(tree, engine.held.value.kind, e.payload) {
        return Some(Unprojectable);
      }
      var row := RowFor(tree, store.s.nodes, e).value;
      if InsertOf(tree, s, e).Ok? { RootRowIs(tree, s, e); }
      var inserted;
      fault, inserted := InsertRow(e, row);
      if fault.Some? {
        return;
      }
      ghost var mid := store.s;
      ghost var at;
      if inserted { InsertCanBeTakenBack(tree, s, e); }
      fault, at := RetryRoot(e, inserted);
      if fault == Some(Diverged) {
        assert Undone(tree, s, e, mid, at, store.s);
        if !Faulty() && inserted { assert TakenBack(tree, s, e, at, store.s); }
      }
    }
  
    /** The engine already holds the placed user: as the row says, or not. */
    method ReconcilePlaced(e: Event) returns (converged: bool, diverged: bool)
      requires e.payload.NodePlaced? && store.tree == tree && engine.held.Some? && Holds(engine.held.value.nodes, e.payload.user)
      ensures converged ==> PlacedAsStored(tree, store.s, engine.held.value, e)
      ensures converged ==>
                var n, k := Lookup(engine.held.value.nodes, e.payload.user).value, FirstActive(store.s.nodes, tree, e.payload.user);
                && k >= 0 && n.parent == store.s.nodes[k].parent && n.sponsor == store.s.nodes[k].sponsor && n.depth == store.s.nodes[k].depth
                && n.enrolled == Unix(e.payload.enrolled) && (e.payload.kind.Binary? ==> n.position.Some? && n.position == store.s.nodes[k].position)
      ensures diverged ==> !PlacedAsStored(tree, store.s, engine.held.value, e)
      ensures !Faulty() ==> converged || diverged
    {
      LookupMember(engine.held.value.nodes, e.payload.user);
      var stored := store.Read(GetNode(store.s.nodes, tree, e.payload.user));
      if stored.None? {
        return false, false;
      }
      if stored.value.None? {
        return false, true;
      }
      var pos := engine.GetPosition(e.payload.user);
      if !pos.At? {
        return false, false;
      }
      var matches := PositionMatches(pos.node, e.payload, stored.value.value);
      return matches, !matches;
    }

    /** The retried add_node of a placement whose row stands. */
    method RetryPlaced(e: Event) returns (fault: Option<Fault>)
      requires e.payload.NodePlaced? && store.tree == tree && engine.held.Some?
      modifies engine
      ensures engine.held.Some? && EngineMoved(old(engine.held).value, e.payload, engine.held.value)
      ensures fault.None? ==>
                || (Mutate(old(engine.held).value, e.payload).Ok? && engine.held == Some(Mutate(old(engine.held).value, e.payload).value.tree))
                || (engine.held == old(engine.held) && Mutate(engine.held.value, e.payload) == Err(UserAlreadyExists)
                    && PlacedAsStored(tree, store.s, engine.held.value, e))
      ensures fault.Some? ==> fault.value.EngineFailed? || fault.value.Cancelled? || fault.value.Diverged?
      ensures fault == Some(Diverged) ==>
                Mutate(engine.held.value, e.payload) == Err(UserAlreadyExists) && !PlacedAsStored(tree, store.s, engine.held.value, e)
      ensures fault.Some? && IsEvidence(fault.value) ==> Mutate(old(engine.held).value, e.payload) == Err(fault.value.last.value)
      ensures !Faulty() && fault.Some? ==>
                && Mutate(old(engine.held).value, e.payload).Err? && engine.held == old(engine.held)
                && ((Mutate(old(engine.held).value, e.payload).error != UserAlreadyExists
                     && fault.value == EngineFailed(Some(Mutate(old(engine.held).value, e.payload).error))) ||
                    (Mutate(old(engine.held).value, e.payload) == Err(UserAlreadyExists) && !PlacedAsStored(tree, store.s, old(engine.held).value, e)))
      ensures Retried(old(engine.calls), engine.calls, e.payload)
      ensures fault.Some? && fault.value.EngineFailed? ==> engine.calls == old(engine.calls) + [e.payload, e.payload, e.payload]
      ensures !Faulty() && Mutate(old(engine.held).value, e.payload).Ok? ==> engine.calls == old(engine.calls) + [e.payload]
    {
      hide Repeated, Retried;
      NotYet(engine.calls, e.payload);
      ghost var t := engine.held.value;
      if Mutate(t, e.payload).Ok? { MutateTwice(t, e.payload); }
      hide GetNode;
      var last: Option<Code> := None;
      for attempt := 0 to ATTEMPTS
        invariant Repeated(old(engine.calls), engine.calls, e.payload, attempt)
        invariant attempt == ATTEMPTS ==> engine.calls == old(engine.calls) + [e.payload, e.payload, e.payload]
        invariant attempt > 0 ==> Retried(old(engine.calls), engine.calls, e.payload)
        invariant engine.held.Some? && EngineMoved(t, e.payload, engine.held.value)
        invariant last.Some? && last.value in REFUSAL_CODES ==> Mutate(t, e.payload) == Err(last.value)
        invariant !Faulty() ==> engine.held == Some(t)
        invariant !Faulty() && attempt > 0 ==>
                    Mutate(t, e.payload).Err? && Mutate(t, e.payload).error != UserAlreadyExists && last == Some(Mutate(t, e.payload).error)
      {
        OnceMore(old(engine.calls), engine.calls, e.payload, attempt);
        var reply := engine.Apply(e.payload);
        if reply.Done? {
          return None;
        }
        last := if reply.Refused? then Some(reply.code) else None;
        var cancelled: bool := *;
        cancelled := cancelled && Faulty();
        if !cancelled && reply == Refused(UserAlreadyExists) {
          ExistsIsHeld(engine.held.value, e.payload);
          var converged, diverged := ReconcilePlaced(e);
          if converged {
            return None;
          }
          if diverged {
            return Some(Diverged);
          }
        }
        if attempt < ATTEMPTS - 1 && cancelled {
          return Some(Cancelled);
        }
      }
      return Some(EngineFailed(last));
    }

    method HandleNodePlaced(e: Event) returns (fault: Option<Fault>)
      requires e.payload.NodePlaced? && store.tree == tree && engine.held.Some?
      modifies store, engine
      ensures engine.held.Some? && EngineMoved(old(engine.held).value, e.payload, engine.held.value)
      ensures store.s == old(store.s) ||
              (Acceptable(tree, old(engine.held).value.kind, e.payload) && RowFor(tree, old(store.s).nodes, e).Some?
               && InsertOf(tree, old(store.s), e) == Ok(store.s))
      ensures fault.None? ==>
                && Acceptable(tree, old(engine.held).value.kind, e.payload)
                && RowStands(tree, old(store.s), e, e.payload.user, store.s)
                && (|| (Mutate(old(engine.held).value, e.payload).Ok? && engine.held == Some(Mutate(old(engine.held).value, e.payload).value.tree))
                    || (engine.held == old(engine.held) && Mutate(engine.held.value, e.payload) == Err(UserAlreadyExists)
                        && PlacedAsStored(tree, store.s, engine.held.value, e)))
      ensures fault == Some(Diverged) ==>
                && RowStands(tree, old(store.s), e, e.payload.user, store.s) && Acceptable(tree, old(engine.held).value.kind, e.payload)
                && Mutate(engine.held.value, e.payload) == Err(UserAlreadyExists) && !PlacedAsStored(tree, store.s, engine.held.value, e)
      ensures fault.Some? && IsEvidence(fault.value) ==>
                || (store.s == old(store.s)
                    && TurnedAway(tree, old(engine.held).value.kind, old(store.s), e, e.payload.user, fault.value))
                || (RowStands(tree, old(store.s), e, e.payload.user, store.s) && Mutate(old(engine.held).value, e.payload).Err?
                    && Mutate(old(engine.held).value, e.payload).error in REFUSAL_CODES)
      ensures !Faulty() && fault.Some? ==>
                || (store.s == old(store.s)
                    && TurnedAway(tree, old(engine.held).value.kind, old(store.s), e, e.payload.user, fault.value))
                || (Acceptable(tree, old(engine.held).value.kind, e.payload)
                    && RowStands(tree, old(store.s), e, e.payload.user, store.s) && Mutate(old(engine.held).value, e.payload).Err?
                    && ((Mutate(old(engine.held).value, e.payload).error != UserAlreadyExists
                         && fault.value == EngineFailed(Some(Mutate(old(engine.held).value, e.payload).error))) ||
                        (Mutate(old(engine.held).value, e.payload) == Err(UserAlreadyExists)
                         && !PlacedAsStored(tree, store.s, old(engine.held).value, e))))
      ensures engine.calls == old(engine.calls) || Retried(old(engine.calls), engine.calls, e.payload)
      ensures fault.Some? && fault.value.EngineFailed? ==> engine.calls == old(engine.calls) + [e.payload, e.payload, e.payload]
      ensures store.s != old(store.s) ==> PlacedRowAdded(tree, old(store.s), e, store.s)
      ensures Malformed(tree, old(engine.held).value.kind, e.payload) ==>
                fault == Some(Unprojectable) && store.s == old(store.s) && engine.held == old(engine.held) && engine.calls == old(engine.calls)
    {
      hide Mutate, ProjectInsert, GetNodeIncludingRemoved, PlacedAsStored, PlacedRowAdded, Retried, Malformed;
      MalformedIs(tree, engine.held.value.kind, e.payload);
      if !Acceptable(tree, engine.held.value.kind, e.payload) {
        return Some(Unprojectable);
      }
      var parent := store.Read(GetNode(store.s.nodes, tree, e.payload.parent));
      if parent.None? {
        return Some(IoFailed);
      }
      if parent.value.None? {
        return Some(Unprojectable);
      }
      var row := RowFor(tree, store.s.nodes, e).value;
      if InsertOf(tree, store.s, e).Ok? { PlacedRowIs(tree, store.s, e); }
      var inserted;
      fault, inserted := InsertRow(e, row);
      if fault.Some? {
        return;
      }
      fault := RetryPlaced(e);
    }

    /** The engine does not hold the removed user: an earlier delivery projected it, or not. */
    method ReconcileRemoved(e: Event) returns (already: bool, fault: Option<Fault>)
      requires e.payload.NodeRemoved? && store.tree == tree
      ensures already ==> fault.None? && HasStamp(tree, store.s, e.id)
      ensures fault.Some? ==> fault.value.RemovalNotProjected? || fault.value.Unprojectable?
      ensures fault == Some(RemovalNotProjected) ==> FirstActive(store.s.nodes, tree, e.payload.user) >= 0
      ensures fault == Some(Unprojectable) ==> FirstActive(store.s.nodes, tree, e.payload.user) < 0 && !HasStamp(tree, store.s, e.id)
      ensures !Faulty() ==> already || fault.Some?
      ensures !Faulty() && HasStamp(tree, store.s, e.id) ==> already
    {
      StampRead(tree, store.s.nodes, e.id);
      var stamped := store.Read(GetNodeByRemovalEvent(store.s.nodes, tree, e.id));
      if stamped.None? {
        return false, None;
      }
      if stamped.value.Some? {
        return true, None;
      }
      var existing := store.Read(GetNodeIncludingRemoved(store.s.nodes, tree, e.payload.user));
      if existing.None? {
        return false, None;
      }
      if existing.value.Some? && existing.value.value.Active() {
        ActiveRead(tree, store.s.nodes, e.payload.user);
        return false, Some(RemovalNotProjected);
      }
      ActiveRead(tree, store.s.nodes, e.payload.user);
      if existing.value.Some? && existing.value.value.removedBy == Some(e.id) {
        TombstoneRead(tree, store.s.nodes, e.payload.user);
        return true, None;
      }
      return false, Some(Unprojectable);
    }
  
    /** The retried remove_node. alreadyProjected says an earlier delivery's store write landed. */
    method RetryRemoved(e: Event) returns (fault: Option<Fault>, moved: seq<Responsored>, alreadyProjected: bool)
      requires e.payload.NodeRemoved? && store.tree == tree && engine.held.Some?
      modifies engine
      ensures engine.held.Some? && EngineMoved(old(engine.held).value, e.payload, engine.held.value)
      ensures fault.None? && !alreadyProjected ==> Mutate(old(engine.held).value, e.payload) == Ok(Outcome(engine.held.value, moved))
      ensures fault.None? && alreadyProjected ==> HasStamp(tree, store.s, e.id)
      ensures fault != Some(Diverged)
      ensures fault == Some(RemovalNotProjected) ==>
                Mutate(engine.held.value, e.payload) == Err(UserNotFound) && FirstActive(store.s.nodes, tree, e.payload.user) >= 0
      ensures fault.Some? && IsEvidence(fault.value) ==>
                || (FirstActive(store.s.nodes, tree, e.payload.user) < 0 && !HasStamp(tree, store.s, e.id))
                || (Mutate(old(engine.held).value, e.payload).Err? && Mutate(old(engine.held).value, e.payload).error in REFUSAL_CODES)
      ensures !Faulty() && fault.Some? ==>
                && Mutate(old(engine.held).value, e.payload).Err?
                && (if Mutate(old(engine.held).value, e.payload) == Err(UserNotFound)
                    then !HasStamp(tree, store.s, e.id) &&
                         fault.value == if FirstActive(store.s.nodes, tree, e.payload.user) < 0 then Unprojectable else RemovalNotProjected
                    else fault.value == EngineFailed(Some(Mutate(old(engine.held).value, e.payload).error)))
      ensures Retried(old(engine.calls), engine.calls, e.payload)
      ensures fault.Some? && fault.value.EngineFailed? ==> engine.calls == old(engine.calls) + [e.payload, e.payload, e.payload]
      ensures !Faulty() && Mutate(old(engine.held).value, e.payload).Ok? ==> engine.calls == old(engine.calls) + [e.payload]
    {
      hide Repeated, Retried;
      NotYet(engine.calls, e.payload);
      ghost var t := engine.held.value;
      if Mutate(t, e.payload).Ok? { MutateTwice(t, e.payload); }
      hide HasStamp;
      moved := [];
      var last: Option<Code> := None;
      for attempt := 0 to ATTEMPTS
        invariant Repeated(old(engine.calls), engine.calls, e.payload, attempt)
        invariant attempt == ATTEMPTS ==> engine.calls == old(engine.calls) + [e.payload, e.payload, e.payload]
        invariant attempt > 0 ==> Retried(old(engine.calls), engine.calls, e.payload)
        invariant engine.held.Some? && EngineMoved(t, e.payload, engine.held.value)
        invariant last.Some? && last.value in REFUSAL_CODES ==> Mutate(t, e.payload) == Err(last.value)
        invariant !Faulty() ==> engine.held == Some(t)
        invariant !Faulty() && attempt > 0 ==>
                    Mutate(t, e.payload).Err? && Mutate(t, e.payload).error != UserNotFound && last == Some(Mutate(t, e.payload).error)
      {
        OnceMore(old(engine.calls), engine.calls, e.payload, attempt);
        var reply := engine.Apply(e.payload);
        if reply.Done? {
          return None, reply.moved, false;
        }
        last := if reply.Refused? then Some(reply.code) else None;
        var cancelled: bool := *;
        cancelled := cancelled && Faulty();
        if !cancelled && reply == Refused(UserNotFound) {
          var already;
          already, fault := ReconcileRemoved(e);
          if already {
            return None, [], true;
          }
          if fault.Some? {
            return fault, [], false;
          }
        }
        if attempt < ATTEMPTS - 1 && cancelled {
          return Some(Cancelled), [], false;
        }
      }
      return Some(EngineFailed(last)), [], false;
    }

    method HandleNodeRemoved(e: Event) returns (fault: Option<Fault>, ghost at: Time)
      requires e.payload.NodeRemoved? && store.tree == tree && engine.held.Some?
      modifies store, engine
      ensures engine.held.Some? && EngineMoved(old(engine.held).value, e.payload, engine.held.value)
      ensures store.s == old(store.s) || Landed(tree, old(store.s), old(engine.held).value, e, at) == Some(store.s)
      ensures fault.None? ==>
                && Acceptable(tree, old(engine.held).value.kind, e.payload)
                && (|| (Landed(tree, old(store.s), old(engine.held).value, e, at) == Some(store.s)
                        && engine.held == Some(Mutate(old(engine.held).value, e.payload).value.tree))
                    || (store.s == old(store.s) && HasStamp(tree, store.s, e.id)))
      ensures fault != Some(Diverged)
      ensures fault == Some(RemovalNotProjected) ==>
                && store.s == old(store.s) && Acceptable(tree, old(engine.held).value.kind, e.payload)
                && Mutate(engine.held.value, e.payload) == Err(UserNotFound) && FirstActive(store.s.nodes, tree, e.payload.user) >= 0
      ensures fault.Some? && IsEvidence(fault.value) ==>
                store.s == old(store.s) &&
                (|| !Acceptable(tree, old(engine.held).value.kind, e.payload)
                 || (FirstActive(store.s.nodes, tree, e.payload.user) < 0 && !HasStamp(tree, store.s, e.id))
                 || (Mutate(old(engine.held).value, e.payload).Err? && Mutate(old(engine.held).value, e.payload).error in REFUSAL_CODES)
                 || (Mutate(old(engine.held).value, e.payload).Ok? && Landed(tree, old(store.s), old(engine.held).value, e, at).None?))
      ensures !Faulty() && fault.Some? ==>
                store.s == old(store.s) &&
                (|| (!Acceptable(tree, old(engine.held).value.kind, e.payload) && fault.value == Unprojectable)
                 || (Acceptable(tree, old(engine.held).value.kind, e.payload) && Mutate(old(engine.held).value, e.payload).Ok?
                     && Landed(tree, old(store.s), old(engine.held).value, e, at).None?)
                 || (Mutate(old(engine.held).value, e.payload) == Err(UserNotFound) && !HasStamp(tree, store.s, e.id)
                     && fault.value == if FirstActive(store.s.nodes, tree, e.payload.user) < 0 then Unprojectable else RemovalNotProjected)
                 || (Mutate(old(engine.held).value, e.payload).Err? && Mutate(old(engine.held).value, e.payload).error != UserNotFound
                     && fault.value == EngineFailed(Some(Mutate(old(engine.held).value, e.payload).error))))
      ensures engine.calls == old(engine.calls) || Retried(old(engine.calls), engine.calls, e.payload)
      ensures fault.Some? && fault.value.EngineFailed? ==> engine.calls == old(engine.calls) + [e.payload, e.payload, e.payload]
      ensures Malformed(tree, old(engine.held).value.kind, e.payload) ==>
                fault == Some(Unprojectable) && store.s == old(store.s) && engine.held == old(engine.held) && engine.calls == old(engine.calls)
    {
      hide ProjectRemoval, RemoveNode, HasStamp, Retried, Malformed;
      MalformedIs(tree, engine.held.value.kind, e.payload);
      var now: Time := *;
      at := now;
      if !Acceptable(tree, engine.held.value.kind, e.payload) {
        return Some(Unprojectable), at;
      }
      var moved, alreadyProjected;
      fault, moved, alreadyProjected := RetryRemoved(e);
      if fault.Some? || alreadyProjected {
        return;
      }
      var reply := store.Commit(ProjectRemoval(store.s, tree, RemovalOf(e.payload.user, moved), e.id, e.version, now));
      match reply
      case Written => return None, at;
      case StoreRefused(f) => return Some(RemovalRefused(f)), at;
      case StoreFailed => return Some(IoFailed), at;
    }

    /** Applies an operator's rejection of the event before it. */
    method HandleEventRejected(e: Event) returns (fault: Option<Fault>, ghost at: Time)
      requires e.IsRejection() && store.tree == tree
      modifies store
      ensures store.s == old(store.s) ||
              (e.payload.EventRejected? && ProjectRejection(old(store.s), tree, e.payload.rejectedId, e.version, at) == Ok(store.s))
      ensures fault.None? ==>
                e.payload.EventRejected? && ProjectRejection(old(store.s), tree, e.payload.rejectedId, e.version, at) == Ok(store.s)
      ensures fault.Some? ==> !IsEvidence(fault.value)
      ensures !Faulty() && RejectionReadable(tree, e) && ProjectRejection(old(store.s), tree, e.payload.rejectedId, e.version, at).Ok? ==> fault.None?
      ensures var p := e.payload;
              || !p.EventRejected? || p.tree != tree || !HasText(p.reason) || p.rejectedVersion < 1 || p.rejectedVersion != e.version - 1
              || p.rejectedType !in {RootAddedType, NodePlacedType, NodeRemovedType} ==>
                fault == Some(BadRejection) && store.s == old(store.s)
    {
      var now: Time := *;
      at := now;
      if !RejectionReadable(tree, e) {
        return Some(BadRejection), at;
      }
      var reply := store.Commit(ProjectRejection(store.s, tree, e.payload.rejectedId, e.version, now));
      match reply
      case Written => return None, at;
      case StoreRefused(f) => return Some(RejectionRefused(f)), at;
      case StoreFailed => return Some(IoFailed), at;
    }
  }

  /** A rejection's own payload checks: every field given, and its target the version before. */
  predicate RejectionReadable(tree: Id, e: Event) {
    && e.payload.EventRejected?
    && e.payload.tree == tree
    && HasText(e.payload.reason)
    && e.version >= 2
    && e.payload.rejectedVersion == e.version - 1
    && e.payload.rejectedType in {RootAddedType, NodePlacedType, NodeRemovedType}
  }

  /** A row of the tree carries the removal event's stamp. */
  predicate HasStamp(tree: Id, s: Store, event: Id) {
    Stamped(s.nodes, tree, event)
  }

  /** The store has an active row for the placed user, and the engine's node agrees with it. */
  predicate PlacedAsStored(tree: Id, s: Store, t: Tree, e: Event)
    requires e.payload.NodePlaced?
  {
    var row, n := GetNode(s.nodes, tree, e.payload.user), Lookup(t.nodes, e.payload.user);
    row.Some? && n.Some? && PositionMatches(n.value, e.payload, row.value)
  }

  lemma ExistsIsHeld(t: Tree, p: Payload)
    requires p.NodePlaced? && Mutate(t, p) == Err(UserAlreadyExists)
    ensures Holds(t.nodes, p.user)
  {
  }

  lemma {:induction false} StampRead(tree: Id, rows: seq<Row>, event: Id)
    ensures GetNodeByRemovalEvent(rows, tree, event).Some? <==> Stamped(rows, tree, event)
  {
    if rows != [] {
      StampRead(tree, Init(rows), event);
      assert rows == Init(rows) + [Last(rows)];
    }
  }

  lemma {:induction false} TombstoneRead(tree: Id, rows: seq<Row>, u: Id)
    ensures var b := BestTombstone(rows, tree, u); b.Some? ==> b.value in rows && b.value.tree == tree && b.value.user == u && !b.value.Active()
  {
    if rows != [] {
      TombstoneRead(tree, Init(rows), u);
      assert rows == Init(rows) + [Last(rows)];
    }
  }

  lemma ActiveRead(tree: Id, rows: seq<Row>, u: Id)
    ensures var r := GetNodeIncludingRemoved(rows, tree, u); r.Some? && r.value.Active() <==> FirstActive(rows, tree, u) >= 0
  {
    TombstoneRead(tree, rows, u);
  }

  /** The row landed or stood, and was then taken back, or was left alone. */
  predicate Undone(tree: Id, s: Store, e: Event, mid: Store, at: Time, after: Store) {
    && e.payload.RootAdded?
    && RowStands(tree, s, e, e.payload.user, mid)
    && (after == mid || (InsertOf(tree, s, e) == Ok(mid) && UndoRootProjection(mid, tree, e.payload.user, e.version, at) == Ok(after)))
  }

  /** The event's row landed and was undone again: a tombstone is left, and the version before the event's. */
  predicate TakenBack(tree: Id, s: Store, e: Event, at: Time, after: Store) {
    && e.payload.RootAdded? && InsertOf(tree, s, e).Ok?
    && UndoRootProjection(InsertOf(tree, s, e).value, tree, e.payload.user, e.version, at) == Ok(after)
  }

  /** A root just inserted can always be undone, and undoing it leaves the rows before it and one tombstone. */
  lemma InsertCanBeTakenBack(tree: Id, s: Store, e: Event)
    requires e.payload.RootAdded? && InsertOf(tree, s, e).Ok?
    ensures forall at :: UndoRootProjection(InsertOf(tree, s, e).value, tree, e.payload.user, e.version, at).Ok?
    ensures forall at, after :: TakenBack(tree, s, e, at, after) ==>
              && after.nodes == s.nodes + [Tombstoned(Stored(RowFor(tree, s.nodes, e).value), None, at)]
              && ProjectedVersion(after, tree) == e.version - 1
              && ActiveRows(after.nodes, tree) == ActiveRows(s.nodes, tree)
  {
    var row, mid := Stored(RowFor(tree, s.nodes, e).value), InsertOf(tree, s, e).value;
    assert mid.nodes == s.nodes + [row];
    assert mid.nodes[|s.nodes|].ActiveIn(tree);
    forall i | 0 <= i < |s.nodes| ensures !(mid.nodes[i].ActiveIn(tree) && mid.nodes[i].user == e.payload.user) {
      assert mid.nodes[i] in s.nodes;
      assert Conflict(mid.nodes[i], row).None?;
    }
    assert FirstActive(mid.nodes, tree, e.payload.user) == |s.nodes|;
    forall at, after | TakenBack(tree, s, e, at, after)
      ensures after.nodes == s.nodes + [Tombstoned(row, None, at)] && ActiveRows(after.nodes, tree) == ActiveRows(s.nodes, tree)
    {
      InitOfAppend(s.nodes, Tombstoned(row, None, at));
    }
  }
}
