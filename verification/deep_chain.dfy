/**
 * The one state a load or a rejection cannot recover does occur: a chain of
 * placements, each below the last, reaches the end of the store's depth column.
 */
module DeepChain {
  import opened TreeTypes
  import opened EngineTree
  import opened TreeStore
  import opened Agreement
  import opened Replay
  import opened Protocol
  import opened TreeConsumer
  import opened Delivery
  import opened Building
  import opened WriterFacts

  /** Placement k of the chain: user k + 1 below user k. */
  function Link(tree: Id, k: nat): Event {
    if k == 0 then Event(1, 1, RootAdded(tree, 1, 1, 0, Unilevel))
    else Event(k + 1, k + 1, NodePlaced(tree, k + 1, k, k, None, Unilevel, 0))
  }

  /** The store is level with a chain of k placements below a root. */
  ghost predicate Chained(tree: Id, w: World, k: nat) {
    && Reachable(tree, w) && |w.log| == k + 1 == Projected(tree, w) && KindOf(w.log) == Unilevel
    && (forall e :: e in w.log ==> e.id <= k + 1)
    && var t := Through(tree, w.log, k + 1);
       t.Some? && t.value.kind == Unilevel && ChainNodes(t.value.nodes, k)
  }

  predicate ChainNodes(nodes: seq<Node>, k: nat) {
    nodes != [] && Last(nodes).user == k + 1 && Last(nodes).depth == k && forall n :: n in nodes ==> n.user <= k + 1
  }

  /** An event that applies, and whose row the store takes, lands and leaves the store level. */
  lemma Lands(tree: Id, w: World, t: Tree) returns (v: World)
    requires Reachable(tree, w) && Built(tree, w, t) && Ahead(tree, w) && Last(w.log).IsInsert() && Applies(tree, t, Last(w.log).payload)
    requires RowFor(tree, w.store.nodes, Last(w.log)).Some? && InsertOf(tree, w.store, Last(w.log)).Ok?
    ensures Reachable(tree, v) && v.log == w.log && Projected(tree, v) == |w.log|
    ensures Through(tree, v.log, |v.log|) == Some(Mutate(t, Last(w.log).payload).value.tree)
  {
    hide Through, Inv, InsertFault;
    BuiltFacts(tree, w, t);
    AheadApplies(tree, w, t);
    v := w.(store := InsertOf(tree, w.store, Last(w.log)).value);
    assert Landed(tree, w.store, t, Last(w.log), 0) == Some(v.store);
    WithinLog(tree, w);
    assert Protocol.Moves(tree, w, Land(0), v);
    OneStep(tree, w, Land(0), v);
    hide Reaches;
    ReachesTrans(tree, EMPTY_WORLD, w, v);
  }

  /** The store takes the row of a placement that applies and whose depth fits. */
  lemma PlacementInserts(tree: Id, w: World, t: Tree)
    requires Built(tree, w, t) && Ahead(tree, w) && Last(w.log).payload.NodePlaced? && Applies(tree, t, Last(w.log).payload)
    ensures RowFor(tree, w.store.nodes, Last(w.log)).Some?
    ensures var depth := RowFor(tree, w.store.nodes, Last(w.log)).value.depth;
            && depth == Lookup(t.nodes, Last(w.log).payload.parent).value.depth + 1
            && (InsertOf(tree, w.store, Last(w.log)).Ok? <==> FitsInt4(depth))
  {
    hide Inv, Through, WellFormed, Held;
    var e := Last(w.log);
    BuiltFacts(tree, w, t);
    HeldIsActive(tree, w, t, e.payload.parent);
    AheadHasNoRow(tree, w, t);
    var row := RowFor(tree, w.store.nodes, e).value;
    if InsertOf(tree, w.store, e).Err? && InsertOf(tree, w.store, e).error in SENTINELS {
      ConflictCannotApply(tree, w, t);
    }
    PositionFits(tree, t.kind, e.payload);
    hide Applies, Acceptable;
    ConflictIsSentinel(w.store.nodes, Stored(row));
  }

  lemma PositionFits(tree: Id, kind: Kind, p: Payload)
    requires p.NodePlaced? && Acceptable(tree, kind, p)
    ensures p.position.Some? ==> FitsInt4(p.position.value)
  {
  }

  lemma ConflictIsSentinel(rows: seq<Row>, row: Row)
    ensures FirstConflict(rows, row).Some? ==> FirstConflict(rows, row).value in SENTINELS
  {
  }

  /** The next placement of the chain goes into the stream. */
  lemma Extend(tree: Id, w: World, k: nat) returns (v: World, t: Tree)
    requires Chained(tree, w, k)
    ensures Reachable(tree, v) && v.log == w.log + [Link(tree, k + 1)] && Ahead(tree, v)
    ensures Built(tree, v, t) && t.kind == Unilevel && ChainNodes(t.nodes, k)
    ensures Applies(tree, t, Link(tree, k + 1).payload) && Lookup(t.nodes, k + 1).value.depth == k
  {
    hide Inv, Through, Target;
    ReachableInv(tree, w);
    t := Through(tree, w.log, k + 1).value;
    v := w.(log := w.log + [Link(tree, k + 1)]);
    TargetIsThrough(tree, Unilevel, w.log, k + 1);
    AppendStep(tree, w, Link(tree, k + 1), v, Unilevel, t);
    LookupMember(t.nodes, k + 2);
    hide Reaches;
    ReachesTrans(tree, EMPTY_WORLD, w, v);
  }

  /** The root's event is taken by an empty engine and an empty store. */
  lemma RootTaken(tree: Id)
    ensures var e, t := Link(tree, 0), Tree(Unilevel, []);
            && Applies(tree, t, e.payload) && Mutate(t, e.payload).value.tree == Tree(Unilevel, [Node(1, None, None, None, 0, 0)])
            && RowFor(tree, EMPTY_STORE.nodes, e).Some? && InsertOf(tree, EMPTY_STORE, e).Ok?
  {
  }

  /** The root alone. */
  lemma Start(tree: Id) returns (w: World)
    ensures Chained(tree, w, 0)
  {
    var e, t := Link(tree, 0), Tree(Unilevel, []);
    var v := EMPTY_WORLD.(log := [e]);
    EmptyWorldInv(tree);
    RootTaken(tree);
    hide Inv, Through, Mutate, Applies, InsertOf, RowFor, Target;
    TargetIsThrough(tree, Unilevel, [], 0);
    assert EMPTY_WORLD.log + [e] == [e];
    AppendStep(tree, EMPTY_WORLD, e, v, Unilevel, t);
    hide Built;
    assert Reachable(tree, v);
    hide Reaches;
    w := Lands(tree, v, t);
  }

  lemma TakesLink(tree: Id, t: Tree, k: nat)
    requires k > 0 && Applies(tree, t, Link(tree, k).payload)
    ensures Mutate(t, Link(tree, k).payload).Ok? && Lookup(t.nodes, k).Some?
  {
  }

  /** The next placement has landed: the chain is one longer. */
  lemma Grown(tree: Id, w: World, v: World, t: Tree, k: nat)
    requires Chained(tree, w, k) && ChainNodes(t.nodes, k) && t.kind == Unilevel && Mutate(t, Link(tree, k + 1).payload).Ok?
    requires Lookup(t.nodes, k + 1).Some? && Lookup(t.nodes, k + 1).value.depth == k
    requires Reachable(tree, v) && v.log == w.log + [Link(tree, k + 1)] && Projected(tree, v) == |v.log|
    requires Through(tree, v.log, |v.log|) == Some(Mutate(t, Link(tree, k + 1).payload).value.tree)
    ensures Chained(tree, v, k + 1)
  {
    hide Reaches, Inv, Through;
    assert v.log[0] == w.log[0];
  }

  lemma {:induction false} Chain(tree: Id, k: nat) returns (w: World)
    requires k <= MAX_INT4
    ensures Chained(tree, w, k)
  {
    if k == 0 {
      w := Start(tree);
    } else {
      var before := Chain(tree, k - 1);
      var v, t := Extend(tree, before, k - 1);
      PlacementInserts(tree, v, t);
      hide Chained, ChainNodes, Reaches, Inv, Through, Applies, Built, InsertOf, InsertFault;
      w := Lands(tree, v, t);
      TakesLink(tree, t, k);
      Grown(tree, before, w, t, k - 1);
    }
  }

  /** Some run ends with a placement too deep to store. */
  lemma TooDeepIsReachable(tree: Id)
    ensures exists w :: Reachable(tree, w) && TooDeep(tree, w)
  {
    var w := Chain(tree, MAX_INT4);
    var v, t := Extend(tree, w, MAX_INT4);
    PlacementInserts(tree, v, t);
    BuiltFacts(tree, v, t);
    hide Reaches, Inv, Through;
    assert TooDeep(tree, v);
  }
}
