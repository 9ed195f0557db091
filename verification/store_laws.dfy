/**
 * What the adjacency store keeps over every sequence of its writes, and what
 * the order of a removal's relocations does not change.
 */
module StoreLaws {
  import opened TreeTypes
  import opened TreeStore
  import opened Agreement
  import opened Protocol
  import opened TreeConsumer

  datatype StoreWrite =
    | Insert(node: Row, insertVersion: int)
    | Remove(removeTree: Id, removal: Removal, event: Id, removeVersion: int, removedAt: Time)
    | Reject(rejectTree: Id, rejected: Id, rejectVersion: int, rejectedAt: Time)
    | UndoRoot(undoTree: Id, user: Id, undoVersion: int, undoneAt: Time)

  function Outcome(s: Store, w: StoreWrite): Result<Store, StoreFault> {
    match w
    case Insert(node, version) => ProjectInsert(s, node, version)
    case Remove(tree, removal, event, version, at) => ProjectRemoval(s, tree, removal, event, version, at)
    case Reject(tree, rejected, version, at) => ProjectRejection(s, tree, rejected, version, at)
    case UndoRoot(tree, user, version, at) => UndoRootProjection(s, tree, user, version, at)
  }

  /** The store after the writes in turn. A refused write changes nothing. */
  function AfterAll(s: Store, ws: seq<StoreWrite>): Store {
    if ws == [] then s
    else
      var t := AfterAll(s, Init(ws));
      var r := Outcome(t, Last(ws));
      if r.Ok? then r.value else t
  }

  /** Row ids are unique, and each tree has one active row per user and per slot. */
  ghost predicate Sane(rows: seq<Row>) {
    && IdsDistinct(rows)
    && (forall t :: ActiveUsersDistinct(rows, t))
    && (forall t :: SlotsDistinct(rows, t))
  }

  /** Each tree has at most one active row at depth 0. */
  ghost predicate SingleRoots(rows: seq<Row>) {
    forall t, i, j :: 0 <= i < j < |rows| && rows[i].ActiveIn(t) && rows[j].ActiveIn(t) ==> !(rows[i].depth == 0 && rows[j].depth == 0)
  }

  predicate BelowRoot(ms: seq<Relocation>) {
    forall m :: m in ms ==> m.depth != 0
  }

  /** No write moves a row to depth 0. */
  predicate KeepsRoots(w: StoreWrite) {
    w.Remove? ==> BelowRoot(w.removal.relocated)
  }

  // ----- Edits in place -----

  /** What editing a tree's rows in place may do to one of them. */
  predicate Kept(r: Row, after: Row, tree: Id, deep: bool) {
    && after.id == r.id && after.tree == r.tree && after.user == r.user
    && (after.Active() ==> r.Active())
    && (r.tree != tree ==> after == r)
    && (deep && after.depth == 0 ==> r.depth == 0)
  }

  predicate AllKept(rows: seq<Row>, after: seq<Row>, tree: Id, deep: bool) {
    |after| == |rows| && forall i :: 0 <= i < |rows| ==> Kept(rows[i], after[i], tree, deep)
  }

  lemma {:induction false} TombstonesKeep(rows: seq<Row>, tree: Id, users: seq<Id>, event: Id, now: Time)
    ensures var r := TombstoneAll(rows, tree, users, event, now); r.Some? ==> AllKept(rows, r.value, tree, true)
  {
    if users != [] { TombstonesKeep(rows, tree, Init(users), event, now); }
  }

  lemma {:induction false} RepointKeeps(rows: seq<Row>, tree: Id, ms: seq<Responsored>)
    ensures AllKept(rows, Repoint(rows, tree, ms).rows, tree, true)
    ensures forall i :: 0 <= i < |rows| ==> (Repoint(rows, tree, ms).rows[i].Active() <==> rows[i].Active())
    ensures SlotsDistinct(rows, tree) ==> SlotsDistinct(Repoint(rows, tree, ms).rows, tree)
  {
    if ms != [] { RepointKeeps(rows, tree, Init(ms)); }
  }

  lemma {:induction false} RelocateKeeps(rows: seq<Row>, tree: Id, ms: seq<Relocation>)
    ensures AllKept(rows, Relocate(rows, tree, ms).rows, tree, BelowRoot(ms))
  {
    if ms != [] {
      assert ms == Init(ms) + [Last(ms)];
      RelocateKeeps(rows, tree, Init(ms));
    }
  }

  lemma StagedIsKept(rows: seq<Row>, tree: Id, r: Removal, event: Id, now: Time)
    ensures var staged := StageRemoval(rows, tree, r, event, now);
            staged.Ok? ==> AllKept(rows, staged.value, tree, BelowRoot(r.relocated)) && SlotsDistinct(staged.value, tree)
  {
    var gone := TombstoneAll(rows, tree, r.users, event, now);
    if gone.Some? {
      TombstonesKeep(rows, tree, r.users, event, now);
      RepointKeeps(gone.value, tree, r.responsored);
      RelocateKeeps(Repoint(gone.value, tree, r.responsored).rows, tree, r.relocated);
      hide TombstoneAll, Repoint, Relocate, SlotsDistinct, TargetFree;
    }
  }

  lemma KeptIsSane(rows: seq<Row>, after: seq<Row>, tree: Id, deep: bool)
    requires Sane(rows) && AllKept(rows, after, tree, deep) && SlotsDistinct(after, tree)
    ensures Sane(after)
  {
    forall t ensures ActiveUsersDistinct(after, t) {
      assert ActiveUsersDistinct(rows, t);
    }
    forall t ensures SlotsDistinct(after, t) {
      if t != tree { assert SlotsDistinct(rows, t); }
    }
  }

  lemma RetiredIsKept(rows: seq<Row>, tree: Id, id: Id, now: Time)
    ensures AllKept(rows, Retired(rows, tree, id, now), tree, true)
    ensures SlotsDistinct(rows, tree) ==> SlotsDistinct(Retired(rows, tree, id, now), tree)
  {
  }

  lemma InsertIsSane(rows: seq<Row>, node: Row)
    requires Sane(rows) && InsertFault(rows, node).None?
    ensures Sane(rows + [Stored(node)])
    ensures SingleRoots(rows) ==> SingleRoots(rows + [Stored(node)])
  {
    var after := rows + [Stored(node)];
    forall i | 0 <= i < |rows| ensures rows[i].id != node.id && Conflict(rows[i], Stored(node)).None? {
      assert rows[i] in rows;
    }
    hide InsertFault;
    forall t ensures ActiveUsersDistinct(after, t) {
      assert ActiveUsersDistinct(rows, t);
    }
    forall t ensures SlotsDistinct(after, t) {
      assert SlotsDistinct(rows, t);
    }
  }

  // ----- Every write -----

  /** The rows a write changed are kept or added to. */
  lemma WriteKeepsRows(s: Store, w: StoreWrite)
    requires Sane(s.nodes) && Outcome(s, w).Ok?
    ensures Sane(Outcome(s, w).value.nodes)
    ensures SingleRoots(s.nodes) && KeepsRoots(w) ==> SingleRoots(Outcome(s, w).value.nodes)
  {
    var after := Outcome(s, w).value.nodes;
    match w
    case Insert(node, _) => InsertIsSane(s.nodes, node);
    case Remove(tree, removal, event, _, at) =>
      StagedIsKept(s.nodes, tree, removal, event, at);
      KeptIsSane(s.nodes, after, tree, BelowRoot(removal.relocated));
      KeptRoots(s.nodes, after, tree, BelowRoot(removal.relocated));
    case Reject(tree, rejected, _, at) =>
      assert SlotsDistinct(s.nodes, tree);
      RetiredIsKept(s.nodes, tree, rejected, at);
      KeptIsSane(s.nodes, after, tree, true);
      KeptRoots(s.nodes, after, tree, true);
    case UndoRoot(tree, user, _, at) =>
      assert SlotsDistinct(s.nodes, tree);
      assert AllKept(s.nodes, after, tree, true);
      assert SlotsDistinct(after, tree);
      KeptIsSane(s.nodes, after, tree, true);
      KeptRoots(s.nodes, after, tree, true);
  }

  lemma KeptRoots(rows: seq<Row>, after: seq<Row>, tree: Id, deep: bool)
    requires AllKept(rows, after, tree, deep)
    ensures SingleRoots(rows) && deep ==> SingleRoots(after)
  {
    if SingleRoots(rows) && deep {
      forall t, i, j | 0 <= i < j < |after| && after[i].ActiveIn(t) && after[j].ActiveIn(t)
        ensures !(after[i].depth == 0 && after[j].depth == 0)
      {
        assert rows[i].ActiveIn(t) && rows[j].ActiveIn(t);
      }
    }
  }

  /** A tree's projected version never falls, except that undoing a root lowers its tree's by one. */
  lemma WriteMovesVersions(s: Store, w: StoreWrite, tree: Id)
    requires Outcome(s, w).Ok?
    ensures var before, after := ProjectedVersion(s, tree), ProjectedVersion(Outcome(s, w).value, tree);
            if w.UndoRoot? && w.undoTree == tree then after == before - 1 else after >= before
  {
    hide StageRemoval, InsertFault, Retired;
  }

  /** The id belongs to a row that is no longer active. */
  ghost predicate Dead(rows: seq<Row>, id: Id) {
    HasId(rows, id) && forall r :: r in rows && r.id == id ==> !r.Active()
  }

  lemma KeptDead(rows: seq<Row>, after: seq<Row>, tree: Id, deep: bool, id: Id)
    requires AllKept(rows, after, tree, deep) && Dead(rows, id)
    ensures Dead(after, id)
  {
    var n :| n in rows && n.id == id;
    var i :| 0 <= i < |rows| && rows[i] == n;
    assert after[i] in after;
    forall r | r in after && r.id == id ensures !r.Active() {
      var j :| 0 <= j < |after| && after[j] == r;
      assert rows[j] in rows;
    }
  }

  /** A tombstone stays a tombstone, and its id is never taken again. */
  lemma WriteKeepsDead(s: Store, w: StoreWrite, id: Id)
    requires Dead(s.nodes, id) && Outcome(s, w).Ok?
    ensures Dead(Outcome(s, w).value.nodes, id)
  {
    hide Dead;
    var after := Outcome(s, w).value.nodes;
    match w
    case Insert(node, _) => InsertKeepsDead(s.nodes, node, id);
    case Remove(tree, removal, event, _, at) =>
      StagedIsKept(s.nodes, tree, removal, event, at);
      KeptDead(s.nodes, after, tree, BelowRoot(removal.relocated), id);
    case Reject(tree, rejected, _, at) =>
      RetiredIsKept(s.nodes, tree, rejected, at);
      KeptDead(s.nodes, after, tree, true, id);
    case UndoRoot(tree, user, _, at) =>
      assert AllKept(s.nodes, after, tree, true);
      KeptDead(s.nodes, after, tree, true, id);
  }

  lemma InsertKeepsDead(rows: seq<Row>, node: Row, id: Id)
    requires Dead(rows, id) && InsertFault(rows, node).None?
    ensures Dead(rows + [Stored(node)], id)
  {
    var n :| n in rows && n.id == id;
    assert n in rows + [Stored(node)];
  }

  // ----- Every sequence of writes -----

  /** From an empty store, whatever is written and refused. */
  lemma {:induction false} StoreStaysSane(ws: seq<StoreWrite>)
    ensures Sane(AfterAll(EMPTY_STORE, ws).nodes)
    ensures (forall w :: w in ws ==> KeepsRoots(w)) ==> SingleRoots(AfterAll(EMPTY_STORE, ws).nodes)
  {
    if ws != [] {
      StoreStaysSane(Init(ws));
      assert ws == Init(ws) + [Last(ws)];
      var t := AfterAll(EMPTY_STORE, Init(ws));
      if Outcome(t, Last(ws)).Ok? { WriteKeepsRows(t, Last(ws)); }
    }
  }

  lemma {:induction false} DeadStaysDead(s: Store, ws: seq<StoreWrite>, id: Id)
    requires Dead(s.nodes, id)
    ensures Dead(AfterAll(s, ws).nodes, id)
  {
    hide Dead;
    if ws != [] {
      DeadStaysDead(s, Init(ws), id);
      var t := AfterAll(s, Init(ws));
      if Outcome(t, Last(ws)).Ok? { WriteKeepsDead(t, Last(ws), id); }
    }
  }

  /** One relocation to depth 0 is enough to give a tree, written from nothing, a second root. */
  lemma RelocationMayAddARoot()
    ensures exists ws :: ws != [] && SingleRoots(AfterAll(EMPTY_STORE, Init(ws)).nodes) && !SingleRoots(AfterAll(EMPTY_STORE, ws).nodes)
  {
    hide TombstoneAll, Repoint, Relocate, FirstActive, TargetFree, InsertFault, SlotsDistinct, Sane, Outcome;
    var root := Row(1, 9, 1, None, None, None, 0, 0, None, None);
    var left := Row(2, 9, 2, Some(1), Some(1), Some(0), 1, 0, None, None);
    var right := Row(3, 9, 3, Some(1), Some(1), Some(1), 1, 0, None, None);
    var inserts := [Insert(root, 1), Insert(left, 2), Insert(right, 3)];
    var s := ThreeInserts(inserts, root, left, right);
    StoreStaysSane(inserts);
    var m := Relocation(2, 7, 0, 0);
    var gone := Tombstoned(right, Some(4), 0);
    var placed := [root, Moved(left, m), gone];
    var w := Remove(9, Removal([3], [], [m]), 4, 4, 0);
    RemoveAndMove(s, root, left, right, m);
    InitOfAppend(inserts, w);
    assert placed[0].ActiveIn(9) && placed[1].ActiveIn(9) && placed[0].depth == 0 && placed[1].depth == 0;
    assert !SingleRoots(AfterAll(EMPTY_STORE, inserts + [w]).nodes);
  }

  lemma ThreeInserts(ws: seq<StoreWrite>, a: Row, b: Row, c: Row) returns (s: Store)
    requires ws == [Insert(a, 1), Insert(b, 2), Insert(c, 3)] && a == Stored(a) && b == Stored(b) && c == Stored(c)
    requires a.tree == b.tree == c.tree && a.depth == 0 && b.depth == c.depth == 1
    requires a.position == None && b.position == Some(0) && c.position == Some(1)
    requires a.id != b.id && a.id != c.id && b.id != c.id && a.user != b.user && a.user != c.user && b.user != c.user
    ensures s == AfterAll(EMPTY_STORE, ws) && s.nodes == [a, b, c] && ProjectedVersion(s, a.tree) == 3
  {
    hide AfterAll;
    NothingWritten();
    var s1 := AfterInsert(EMPTY_STORE, [], a, 1);
    assert [] + [Insert(a, 1)] == [Insert(a, 1)];
    var s2 := AfterInsert(s1, [Insert(a, 1)], b, 2);
    assert [Insert(a, 1)] + [Insert(b, 2)] == [Insert(a, 1), Insert(b, 2)];
    s := AfterInsert(s2, [Insert(a, 1), Insert(b, 2)], c, 3);
    assert [Insert(a, 1), Insert(b, 2)] + [Insert(c, 3)] == ws;
  }

  lemma NothingWritten()
    ensures AfterAll(EMPTY_STORE, []) == EMPTY_STORE
  {
  }

  lemma AfterInsert(s: Store, ws: seq<StoreWrite>, node: Row, version: int) returns (t: Store)
    requires s == AfterAll(EMPTY_STORE, ws) && node == Stored(node) && version >= 1 && version > ProjectedVersion(s, node.tree)
    requires FitsInt4(node.depth) && (node.position.Some? ==> FitsInt4(node.position.value)) && InsertFault(s.nodes, node).None?
    ensures t == AfterAll(EMPTY_STORE, ws + [Insert(node, version)])
    ensures t.nodes == s.nodes + [node] && ProjectedVersion(t, node.tree) == version
  {
    hide InsertFault;
    InitOfAppend(ws, Insert(node, version));
    t := AfterAll(EMPTY_STORE, ws + [Insert(node, version)]);
  }

  lemma RemoveAndMove(s: Store, a: Row, b: Row, c: Row, m: Relocation)
    requires s.nodes == [a, b, c] && ProjectedVersion(s, 9) == 3 && FitsInt4(m.position) && FitsInt4(m.depth)
    requires a.user != 3 && b.user != 3 && c.ActiveIn(9) && c.user == 3 && b.ActiveIn(9) && b.user == m.user && a.user != m.user && a.position.None?
    requires b.parent != Some(m.parent)
    ensures var r := Outcome(s, Remove(9, Removal([3], [], [m]), 4, 4, 0));
            r.Ok? && r.value.nodes == [a, Moved(b, m), Tombstoned(c, Some(4), 0)]
  {
    hide TombstoneAll, Relocate, FirstActive, TargetFree, SlotsDistinct;
    var gone := Tombstoned(c, Some(4), 0);
    RemoveThird(a, b, c, 9, 4, 0);
    MoveSecond(a, b, gone, 9, m);
    assert Repoint([a, b, gone], 9, []) == Edited([a, b, gone], {});
  }

  lemma RemoveThird(a: Row, b: Row, c: Row, tree: Id, event: Id, now: Time)
    requires a.user != c.user && b.user != c.user && c.ActiveIn(tree)
    ensures TombstoneAll([a, b, c], tree, [c.user], event, now) == Some([a, b, Tombstoned(c, Some(event), now)])
  {
    var rows := [a, b, c];
    assert rows[2] == c && FirstActive(rows, tree, c.user) == 2;
    assert Init([c.user]) == [] && TombstoneAll(rows, tree, [], event, now) == Some(rows);
    assert rows[2 := Tombstoned(c, Some(event), now)] == [a, b, Tombstoned(c, Some(event), now)];
  }

  lemma MoveSecond(a: Row, b: Row, c: Row, tree: Id, m: Relocation)
    requires b.ActiveIn(tree) && b.user == m.user && a.user != m.user && a.position.None? && !c.Active()
    requires b.parent != Some(m.parent)
    ensures Relocate([a, b, c], tree, [m]) == Edited([a, Moved(b, m), c], {1})
    ensures TargetFree([a, b, c], tree, m) && SlotsDistinct([a, Moved(b, m), c], tree)
  {
    var rows := [a, b, c];
    assert rows[1] == b && FirstActive(rows, tree, m.user) == 1;
    assert Init([m]) == [] && Relocate(rows, tree, []) == Edited(rows, {});
    assert rows[1 := Moved(b, m)] == [a, Moved(b, m), c];
  }

  // ----- An undone root -----

  /**
   * A root_added found diverged after its own insert leaves the active rows as
   * before, and the projected version at one below its own. That is the version
   * before the delivery exactly when the store was level with the event before.
   */
  lemma UndoneRootLeavesNothing(tree: Id, s: Store, e: Event, at: Time, after: Store)
    requires TakenBack(tree, s, e, at, after)
    ensures ActiveRows(after.nodes, tree) == ActiveRows(s.nodes, tree) && Held(after.nodes, tree) == Held(s.nodes, tree)
    ensures ProjectedVersion(after, tree) == ProjectedVersion(s, tree) <==> ProjectedVersion(s, tree) == e.version - 1
    ensures Dead(after.nodes, e.id)
  {
    hide UndoRootProjection, InsertOf, ActiveRows, Dead;
    InsertCanBeTakenBack(tree, s, e);
    InsertedIsNew(tree, s, e);
    var row := Tombstoned(Stored(RowFor(tree, s.nodes, e).value), None, at);
    InitOfAppend(s.nodes, row);
    TombstoneIsDead(s.nodes, row);
  }

  lemma InsertedIsNew(tree: Id, s: Store, e: Event)
    requires e.payload.RootAdded? && InsertOf(tree, s, e).Ok?
    ensures !HasId(s.nodes, e.id)
  {
  }

  lemma TombstoneIsDead(rows: seq<Row>, row: Row)
    requires !HasId(rows, row.id) && !row.Active()
    ensures Dead(rows + [row], row.id)
  {
    assert (rows + [row])[|rows|] == row;
  }

  /** Once its row is a tombstone no later delivery of a root_added gets past the insert, whatever was written since. */
  lemma UndoneRootIsRefused(tree: Id, s: Store, ws: seq<StoreWrite>, e: Event)
    requires e.payload.RootAdded? && Dead(s.nodes, e.id)
    ensures var t := AfterAll(s, ws);
            && InsertOf(tree, t, e).Err?
            && !OwnRowActive(tree, t.nodes, e, e.payload.user)
            && forall after :: !RowStands(tree, t, e, e.payload.user, after)
  {
    DeadStaysDead(s, ws, e.id);
    var t := AfterAll(s, ws);
    hide AfterAll;
    TombstoneRead(tree, t.nodes, e.payload.user);
    var k := FirstActive(t.nodes, tree, e.payload.user);
    assert k >= 0 ==> t.nodes[k] in t.nodes;
  }
}
