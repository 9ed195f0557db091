/**
 * What the loader's preflight says of rows the protocol can leave: it passes
 * exactly when the stream replays through the projected version.
 */
module StoredRows {
  import opened TreeTypes
  import opened EngineTree
  import opened TreeStore
  import opened Agreement
  import opened Replay
  import opened Protocol
  import LoaderRules

  predicate AllActive(act: seq<Row>, tree: Id) {
    forall r :: r in act ==> r.ActiveIn(tree)
  }

  /** The active rows alone describe the same tree. */
  lemma {:induction false} ActiveRowsHeld(rows: seq<Row>, tree: Id)
    ensures AllActive(ActiveRows(rows, tree), tree)
    ensures Held(ActiveRows(rows, tree), tree) == Held(rows, tree)
    ensures forall r :: r in ActiveRows(rows, tree) <==> r in rows && r.ActiveIn(tree)
  {
    if rows != [] {
      ActiveRowsHeld(Init(rows), tree);
      assert rows == Init(rows) + [Last(rows)];
      if Last(rows).ActiveIn(tree) {
        HeldAppend(ActiveRows(Init(rows), tree), Last(rows), tree);
      }
    }
  }

  lemma HasUserIsHeld(act: seq<Row>, tree: Id, u: Id)
    requires AllActive(act, tree) && ActiveUsersDistinct(act, tree)
    ensures LoaderRules.HasUser(act, u) <==> Holds(Held(act, tree), u)
    ensures LoaderRules.HasUser(act, u) ==> LoaderRules.RowOf(act, u).value.depth == Lookup(Held(act, tree), u).value.depth
  {
    HeldLookup(act, tree, u);
    var k := FirstActive(act, tree, u);
    if k >= 0 {
      assert act[k] in act;
      assert LoaderRules.DistinctUsers(act);
      LoaderRules.RowOfIs(act, act[k]);
    }
  }

  lemma RowOfAppend(act: seq<Row>, x: Row, u: Id)
    ensures LoaderRules.RowOf(act + [x], u) == if x.user == u then Some(x) else LoaderRules.RowOf(act, u)
  {
    InitOfAppend(act, x);
  }

  /** One row more, hanging from rows already there. */
  lemma ValidGrows(rule: LoaderRules.SlotRule, act: seq<Row>, x: Row)
    requires LoaderRules.Valid(rule, act) && x.user != NIL_ID && !LoaderRules.HasUser(act, x.user)
    requires x.depth > 0 && LoaderRules.ChildOk(rule, act, x)
    requires rule.Slots? ==> forall n :: n in act && n.depth != 0 ==> !(n.parent == x.parent && n.position == x.position)
    ensures LoaderRules.Valid(rule, act + [x])
  {
    hide LoaderRules.ChildOk, LoaderRules.HasUser, LoaderRules.OneRoot, LoaderRules.DistinctUsers;
    if rule.Slots? { SlotsGrow(rule, act, x); }
    ChildrenGrow(rule, act, x);
    RootsGrow(act, x);
    UsersGrow(act, x);
  }

  lemma UsersGrow(act: seq<Row>, x: Row)
    requires LoaderRules.DistinctUsers(act) && !LoaderRules.HasUser(act, x.user)
    ensures LoaderRules.DistinctUsers(act + [x])
  {
    forall i | 0 <= i < |act| ensures act[i].user != x.user {
      UserListed(act, i);
    }
  }

  lemma SlotsGrow(rule: LoaderRules.SlotRule, act: seq<Row>, x: Row)
    requires rule.Slots? && LoaderRules.SlotsClear(rule, act)
    requires forall n :: n in act && n.depth != 0 ==> !(n.parent == x.parent && n.position == x.position)
    ensures LoaderRules.SlotsClear(rule, act + [x])
  {
    var after := act + [x];
    forall i, j | 0 <= i < j < |after| && after[i].depth != 0 && after[j].depth != 0
      ensures !(after[i].parent == after[j].parent && after[i].position == after[j].position)
    {
      assert after[i] in act;
    }
  }

  lemma UserListed(act: seq<Row>, i: int)
    requires 0 <= i < |act|
    ensures LoaderRules.HasUser(act, act[i].user)
  {
    assert act[i] in act;
  }

  lemma RootsGrow(act: seq<Row>, x: Row)
    requires x.depth > 0
    requires LoaderRules.OneRoot(act)
    ensures LoaderRules.OneRoot(act + [x])
  {
    var root :| LoaderRules.IsRoot(act, root);
    assert LoaderRules.IsRoot(act + [x], root);
    assert forall r :: LoaderRules.IsRoot(act + [x], r) ==> LoaderRules.IsRoot(act, r);
  }

  lemma ChildrenGrow(rule: LoaderRules.SlotRule, act: seq<Row>, x: Row)
    requires forall n :: n in act && n.depth != 0 ==> LoaderRules.ChildOk(rule, act, n)
    requires LoaderRules.ChildOk(rule, act, x) && !LoaderRules.HasUser(act, x.user)
    ensures forall n :: n in act + [x] && n.depth != 0 ==> LoaderRules.ChildOk(rule, act + [x], n)
  {
    var after := act + [x];
    forall n | n in after && n.depth != 0 ensures LoaderRules.ChildOk(rule, after, n) {
      assert LoaderRules.ChildOk(rule, act, n);
      RowOfAppend(act, x, n.parent.value);
      RowOfAppend(act, x, n.sponsor.value);
    }
  }

  /** Rows that describe a well-formed tree pass validation, each after its parent and sponsor. */
  lemma {:induction false} WellFormedIsValid(kind: Kind, act: seq<Row>, tree: Id)
    requires AllActive(act, tree) && WellFormed(kind, Held(act, tree)) && act != []
    ensures LoaderRules.Valid(LoaderRules.RuleFor(kind), act) && LoaderRules.DepsFirst(act)
  {
    hide LoaderRules.Valid, LoaderRules.DepsFirst, Follows, LoaderRules.ChildOk, LoaderRules.Deps;
    var prev, x := Init(act), Last(act);
    assert act == prev + [x];
    assert x in act;
    InitOfAppend(Held(prev, tree), NodeOf(x));
    if prev == [] {
      assert Held(prev, tree) == [];
      RootAlone(kind, x);
    } else {
      WellFormedIsValid(kind, prev, tree);
      NewRowFits(kind, prev, x, tree);
      ValidGrows(LoaderRules.RuleFor(kind), prev, x);
      DepsGrow(prev, x);
    }
  }

  lemma RootAlone(kind: Kind, x: Row)
    requires Follows(kind, [], NodeOf(x))
    ensures LoaderRules.Valid(LoaderRules.RuleFor(kind), [x]) && LoaderRules.DepsFirst([x])
  {
    assert LoaderRules.IsRoot([x], x);
  }

  lemma DepsGrow(act: seq<Row>, x: Row)
    requires LoaderRules.DepsFirst(act) && LoaderRules.Deps(x) <= LoaderRules.Users(act)
    ensures LoaderRules.DepsFirst(act + [x])
  {
    var after := act + [x];
    forall i | 0 <= i < |after| ensures LoaderRules.Deps(after[i]) <= LoaderRules.Users(after[..i]) {
      assert after[..i] == act[..i];
      if i == |act| { assert act[..i] == act; }
    }
  }

  lemma NewRowFits(kind: Kind, prev: seq<Row>, x: Row, tree: Id)
    requires AllActive(prev, tree) && WellFormed(kind, Held(prev, tree)) && prev != []
    requires Follows(kind, Held(prev, tree), NodeOf(x))
    ensures x.user != NIL_ID && !LoaderRules.HasUser(prev, x.user) && x.depth > 0
    ensures LoaderRules.ChildOk(LoaderRules.RuleFor(kind), prev, x)
    ensures kind.Binary? ==> forall n :: n in prev && n.depth != 0 ==> !(n.parent == x.parent && n.position == x.position)
    ensures LoaderRules.Deps(x) <= LoaderRules.Users(prev)
  {
    var nodes := Held(prev, tree);
    WellFormedRowsAreDistinct(kind, prev, tree);
    assert nodes != [] by {
      HeldMembers(prev, tree);
      assert NodeOf(prev[0]) in nodes;
    }
    HasUserIsHeld(prev, tree, x.user);
    HasUserIsHeld(prev, tree, x.parent.value);
    HasUserIsHeld(prev, tree, x.sponsor.value);
    LookupMember(nodes, x.parent.value);
    RootIsFirst(kind, nodes);
    if kind.Binary? {
      forall n | n in prev && n.depth != 0 ensures !(n.parent == x.parent && n.position == x.position) {
        HeldMembers(prev, tree);
        assert NodeOf(n) in nodes;
      }
    }
  }

  /** A store level with a stream that replays passes preflight. */
  lemma WellFormedLoads(kind: Kind, rows: seq<Row>, tree: Id)
    requires WellFormed(kind, Held(rows, tree))
    ensures LoaderRules.Loadable(LoaderRules.RuleFor(kind), ActiveRows(rows, tree))
  {
    var act := ActiveRows(rows, tree);
    ActiveRowsHeld(rows, tree);
    if act != [] {
      WellFormedIsValid(kind, act, tree);
      LoaderRules.OrderedIsAcyclic(act, act);
    }
  }

  /** A placement that does not apply, with parent, user and slot in order, lacks its sponsor. */
  lemma OnlySponsorMissing(tree: Id, t: Tree, p: Payload)
    requires p.NodePlaced? && Acceptable(tree, t.kind, p) && !Applies(tree, t, p)
    requires Holds(t.nodes, p.parent) && !Holds(t.nodes, p.user)
    requires t.kind.Binary? ==> !SlotTaken(t.nodes, p.parent, p.position.value)
    ensures !Holds(t.nodes, p.sponsor)
  {
  }

  /** What a row with no conflict says of the tree the other rows describe. */
  lemma NoConflictMeans(tree: Id, before: seq<Row>, row: Row)
    requires ActiveUsersDistinct(before, tree) && row.tree == tree && FirstConflict(before, row).None?
    ensures !Holds(Held(before, tree), row.user)
    ensures row.parent.Some? && row.position.Some? ==> !SlotTaken(Held(before, tree), row.parent.value, row.position.value)
  {
    HeldLookup(before, tree, row.user);
    HeldMembers(before, tree);
  }

  /** The stuck row's sponsor is not in the tree. */
  lemma StuckSponsorMissing(tree: Id, log: seq<Event>, p: int, before: seq<Row>, newest: Row)
    requires 1 <= p <= |log| && StuckRow(tree, log, p, before, newest) && Through(tree, log, p).None?
    ensures newest.sponsor.Some? && newest.parent.Some? && newest.depth > 0 && newest.ActiveIn(tree)
    ensures !Holds(Held(before, tree), newest.sponsor.value)
  {
    hide Through, Applies, Acceptable, WellFormed, FirstConflict, Held, Lookup;
    var e, t := log[p - 1], Through(tree, log, p - 1).value;
    ThroughShape(tree, log, p - 1);
    ThroughNext(tree, log, p);
    WellFormedRowsAreDistinct(t.kind, before, tree);
    HeldLookup(before, tree, e.payload.parent);
    LookupMember(t.nodes, e.payload.parent);
    RootIsFirst(t.kind, t.nodes);
    NoConflictMeans(tree, before, newest);
    PositionGiven(tree, t.kind, e.payload);
    OnlySponsorMissing(tree, t, e.payload);
  }

  lemma PositionGiven(tree: Id, kind: Kind, p: Payload)
    requires p.NodePlaced? && Acceptable(tree, kind, p)
    ensures kind.Binary? ==> p.position.Some?
  {
  }

  /** A store with a stuck row fails preflight, and passes without that row. */
  lemma StuckFailsPreflight(tree: Id, w: World)
    requires Inv(tree, w) && Through(tree, w.log, Projected(tree, w)).None?
    ensures w.store.nodes != [] && Last(w.store.nodes).id == w.log[Projected(tree, w) - 1].id && Last(w.store.nodes).ActiveIn(tree)
    ensures !LoaderRules.Loadable(LoaderRules.RuleFor(KindOf(w.log)), ActiveRows(w.store.nodes, tree))
    ensures LoaderRules.Loadable(LoaderRules.RuleFor(KindOf(w.log)), ActiveRows(Init(w.store.nodes), tree))
  {
    hide Through, Held, WellFormed, ActiveRows, LoaderRules.Loadable, LogOk, SnapOk, FirstConflict;
    var p, rows := Projected(tree, w), w.store.nodes;
    var before, newest := Init(rows), Last(rows);
    assert StuckRow(tree, w.log, p, before, newest);
    StuckSponsorMissing(tree, w.log, p, before, newest);
    ThroughShape(tree, w.log, p - 1);
    WellFormedLoads(KindOf(w.log), before, tree);
    UnsponsoredIsInvalid(KindOf(w.log), before, newest, tree);
    assert rows == before + [newest];
  }

  lemma UnsponsoredIsInvalid(kind: Kind, before: seq<Row>, newest: Row, tree: Id)
    requires newest.ActiveIn(tree) && newest.sponsor.Some? && newest.depth > 0
    requires WellFormed(kind, Held(before, tree)) && !Holds(Held(before, tree), newest.sponsor.value)
    ensures !LoaderRules.Loadable(LoaderRules.RuleFor(kind), ActiveRows(before + [newest], tree))
  {
    InitOfAppend(before, newest);
    var act := ActiveRows(before + [newest], tree);
    assert act == ActiveRows(before, tree) + [newest];
    ActiveRowsHeld(before, tree);
    WellFormedRowsAreDistinct(kind, ActiveRows(before, tree), tree);
    HasUserIsHeld(ActiveRows(before, tree), tree, newest.sponsor.value);
    assert newest in act;
    assert LoaderRules.HasUser(act, newest.sponsor.value) ==> newest.sponsor.value == newest.user;
    assert !LoaderRules.ChildOk(LoaderRules.RuleFor(kind), act, newest);
  }

  /** Preflight passes exactly when the stream replays through the projected version. */
  lemma PreflightMatchesReplay(tree: Id, w: World)
    requires Inv(tree, w)
    ensures LoaderRules.Loadable(LoaderRules.RuleFor(KindOf(w.log)), ActiveRows(w.store.nodes, tree))
            <==> Through(tree, w.log, Projected(tree, w)).Some?
  {
    if Through(tree, w.log, Projected(tree, w)).Some? {
      ThroughShape(tree, w.log, Projected(tree, w));
      WellFormedLoads(KindOf(w.log), w.store.nodes, tree);
    } else {
      StuckFailsPreflight(tree, w);
    }
  }
}
