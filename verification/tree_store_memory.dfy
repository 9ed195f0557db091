/**
 * The in-memory adjacency store: rows and projected versions changed in place.
 * Each write does what its function on values does, or changes nothing.
 */
module MemoryStore {
  import opened TreeTypes
  import opened TreeStore
  import opened StoreLaws
  import opened RemovalRows

  /** The write took its function's result, or was refused with its fault and left the store alone. */
  predicate Carried(fault: Option<StoreFault>, r: Result<Store, StoreFault>, before: Store, after: Store) {
    match r
    case Ok(s) => fault.None? && after == s
    case Err(f) => fault == Some(f) && after == before
  }

  /** The new row as stored: active, and enrolled to the microsecond. */
  function NewRow(n: Row): Row {
    Row(n.id, n.tree, n.user, n.parent, n.sponsor, n.position, n.depth, n.enrolled - n.enrolled % 1_000, None, None)
  }

  /** The row n leaves the new one its id, its user, its root and its slot. */
  predicate LeavesRoom(n: Row, node: Row) {
    && n.id != node.id
    && (n.tree == node.tree && n.removedAt.None? ==>
          && n.user != node.user
          && !(n.depth == 0 && node.depth == 0)
          && !(n.parent.Some? && n.position.Some? && n.parent == node.parent && n.position == node.position))
  }

  lemma InsertTakes(rows: seq<Row>, node: Row)
    ensures Stored(node) == NewRow(node)
    ensures InsertFault(rows, node).None? <==> forall n :: n in rows ==> LeavesRoom(n, node)
  {
    hide FirstConflict;
    forall n | n in rows ensures LeavesRoom(n, node) <==> n.id != node.id && Conflict(n, Stored(node)).None? { }
  }

  /** A row tombstoned without a stamp. */
  function Taken(n: Row, now: Time): Row {
    Row(n.id, n.tree, n.user, n.parent, n.sponsor, n.position, n.depth, n.enrolled, Some(now), n.removedBy)
  }

  /** The index of the user's active row, scanning from the first row. */
  method FindActive(rows: seq<Row>, tree: Id, u: Id) returns (k: int)
    ensures k == FirstActive(rows, tree, u)
  {
    for i := 0 to |rows|
      invariant FirstActive(rows[..i], tree, u) < 0
    {
      assert Init(rows[..i + 1]) == rows[..i];
      if rows[i].ActiveIn(tree) && rows[i].user == u {
        assert FirstActive(rows[..i + 1], tree, u) == i;
        FirstActivePrefix(rows, tree, u, i + 1);
        return i;
      }
    }
    assert rows[..|rows|] == rows;
    return -1;
  }

  lemma {:induction false} FirstActivePrefix(rows: seq<Row>, tree: Id, u: Id, n: int)
    requires 0 <= n <= |rows| && FirstActive(rows[..n], tree, u) >= 0
    ensures FirstActive(rows, tree, u) == FirstActive(rows[..n], tree, u)
  {
    var k := FirstActive(rows[..n], tree, u);
    assert rows[..n][k] == rows[k];
    forall i | 0 <= i < k ensures !(rows[i].ActiveIn(tree) && rows[i].user == u) {
      assert rows[..n][i] == rows[i];
    }
  }

  // ----- Staging a removal -----

  method Tombstones(all: seq<Row>, tree: Id, users: seq<Id>, event: Id, now: Time) returns (rows: seq<Row>, hits: set<int>)
    ensures TombstoneAll(all, tree, users, event, now) == if |hits| == |users| then Some(rows) else None
  {
    rows, hits := all, {};
    for i := 0 to |users|
      invariant |rows| == |all| && |hits| <= i
      invariant forall k :: k in hits ==> 0 <= k < |rows| && !rows[k].Active()
      invariant TombstoneAll(all, tree, users[..i], event, now) == if |hits| == i then Some(rows) else None
    {
      assert Init(users[..i + 1]) == users[..i];
      var k := FindActive(rows, tree, users[i]);
      if k >= 0 {
        assert k !in hits;
        rows := rows[k := Tombstoned(rows[k], Some(event), now)];
        hits := hits + {k};
      }
    }
    assert users[..|users|] == users;
  }

  method Repoints(all: seq<Row>, tree: Id, ms: seq<Responsored>) returns (rows: seq<Row>, hits: set<int>)
    ensures Repoint(all, tree, ms) == Edited(rows, hits)
  {
    rows, hits := all, {};
    for i := 0 to |ms|
      invariant Repoint(all, tree, ms[..i]) == Edited(rows, hits)
    {
      assert Init(ms[..i + 1]) == ms[..i];
      var k := FindActive(rows, tree, ms[i].user);
      if k >= 0 {
        rows := rows[k := rows[k].(sponsor := Some(ms[i].newSponsor))];
        hits := hits + {k};
      }
    }
    assert ms[..|ms|] == ms;
  }

  method Relocates(all: seq<Row>, tree: Id, ms: seq<Relocation>) returns (rows: seq<Row>, hits: set<int>)
    ensures Relocate(all, tree, ms) == Edited(rows, hits)
  {
    rows, hits := all, {};
    for i := 0 to |ms|
      invariant Relocate(all, tree, ms[..i]) == Edited(rows, hits)
    {
      assert Init(ms[..i + 1]) == ms[..i];
      var k := FindActive(rows, tree, ms[i].user);
      if k >= 0 {
        rows := rows[k := Moved(rows[k], ms[i])];
        hits := hits + {k};
      }
    }
    assert ms[..|ms|] == ms;
  }

  /** Who is active, and who holds each slot: a later row of a slot replaces an earlier one. */
  method IndexSlots(rows: seq<Row>, tree: Id) returns (held: map<Slot, Id>, active: set<Id>)
    ensures forall at :: (if at in held then Some(held[at]) else None) == SlotHolder(rows, tree, at)
    ensures forall u :: u in active <==> exists r :: r in rows && r.ActiveIn(tree) && r.user == u
  {
    held, active := map[], {};
    for i := 0 to |rows|
      invariant forall at :: (if at in held then Some(held[at]) else None) == SlotHolder(rows[..i], tree, at)
      invariant forall u :: u in active <==> exists r :: r in rows[..i] && r.ActiveIn(tree) && r.user == u
    {
      var n := rows[i];
      assert Init(rows[..i + 1]) == rows[..i] && rows[..i + 1] == rows[..i] + [n];
      if n.ActiveIn(tree) {
        active := active + {n.user};
        if n.parent.Some? && n.position.Some? {
          held := held[Slot(n.parent.value, n.position.value) := n.user];
        }
      }
    }
    assert rows[..|rows|] == rows;
  }

  lemma ActiveMeans(rows: seq<Row>, tree: Id, u: Id)
    ensures FirstActive(rows, tree, u) >= 0 <==> exists r :: r in rows && r.ActiveIn(tree) && r.user == u
  {
    var k := FirstActive(rows, tree, u);
    if k >= 0 { assert rows[k] in rows; }
  }

  /** Whether every relocation moves its row nowhere, or to a slot nobody else holds before any of them runs. */
  method CheckRelocationTargets(rows: seq<Row>, tree: Id, ms: seq<Relocation>) returns (free: bool)
    ensures free <==> forall m :: m in ms ==> TargetFree(rows, tree, m)
  {
    var held, active := IndexSlots(rows, tree);
    for i := 0 to |ms|
      invariant forall j :: 0 <= j < i ==> TargetFree(rows, tree, ms[j])
    {
      var m := ms[i];
      var at := Slot(m.parent, m.position);
      ActiveMeans(rows, tree, m.user);
      assert (if at in held then Some(held[at]) else None) == SlotHolder(rows, tree, at);
      if m.user in active && at in held && held[at] != m.user {
        assert !TargetFree(rows, tree, m) && m in ms;
        return false;
      }
      assert TargetFree(rows, tree, m);
    }
    return true;
  }

  predicate HasSlot(r: Row, tree: Id) {
    r.ActiveIn(tree) && r.parent.Some? && r.position.Some?
  }

  /** Whether no two active rows of the tree claim one slot. */
  method CheckActiveSlots(rows: seq<Row>, tree: Id) returns (distinct: bool)
    ensures distinct <==> SlotsDistinct(rows, tree)
  {
    var held: set<Slot> := {};
    for i := 0 to |rows|
      invariant SlotsDistinct(rows[..i], tree)
      invariant forall at :: at in held <==> exists j :: 0 <= j < i && HasSlot(rows[j], tree) && Slot(rows[j].parent.value, rows[j].position.value) == at
    {
      var n := rows[i];
      if HasSlot(n, tree) {
        var at := Slot(n.parent.value, n.position.value);
        if at in held {
          ghost var j :| 0 <= j < i && HasSlot(rows[j], tree) && Slot(rows[j].parent.value, rows[j].position.value) == at;
          assert SameSlot(rows[j], rows[i]);
          return false;
        }
        held := held + {at};
      }
      SlotsGrow(rows, tree, i, held);
    }
    assert rows[..|rows|] == rows;
    return true;
  }

  lemma SlotsGrow(rows: seq<Row>, tree: Id, i: int, held: set<Slot>)
    requires 0 <= i < |rows| && SlotsDistinct(rows[..i], tree)
    requires HasSlot(rows[i], tree) ==>
               forall j :: 0 <= j < i && HasSlot(rows[j], tree) ==>
                 Slot(rows[j].parent.value, rows[j].position.value) != Slot(rows[i].parent.value, rows[i].position.value)
    ensures SlotsDistinct(rows[..i + 1], tree)
  {
    var some := rows[..i + 1];
    forall x, y | 0 <= x < y < |some| && some[x].ActiveIn(tree) && some[y].ActiveIn(tree) ensures !SameSlot(some[x], some[y]) {
      if y < i { assert rows[..i][x] == some[x] && rows[..i][y] == some[y]; }
    }
  }

  class MemoryTreeStore {
    var nodes: seq<Row>
    var projected: map<Id, int>

    constructor ()
      ensures Value() == EMPTY_STORE
    {
      nodes, projected := [], map[];
    }

    function Value(): Store
      reads this
    {
      Store(nodes, projected)
    }

    /** Refuses a version below 1, or below the tree's projected version. */
    method CheckNotBelow(tree: Id, version: int) returns (fault: Option<StoreFault>)
      ensures fault.None? <==> version >= 1 && version >= ProjectedVersion(Value(), tree)
      ensures version < 1 ==> fault == Some(BadVersion)
      ensures 1 <= version < ProjectedVersion(Value(), tree) ==> fault == Some(ProjectionRefused(ProjectedVersion(Value(), tree)))
    {
      if version < 1 {
        return Some(BadVersion);
      }
      var p := if tree in projected then projected[tree] else 0;
      return if version < p then Some(ProjectionRefused(p)) else None;
    }

    method Advance(tree: Id, version: int)
      modifies this`projected
      ensures ProjectedVersion(Value(), tree) == if version > ProjectedVersion(old(Value()), tree) then version else ProjectedVersion(old(Value()), tree)
      ensures projected - {tree} == old(projected) - {tree}
      ensures tree in projected <==> tree in old(projected) || version > 0
    {
      if version > (if tree in projected then projected[tree] else 0) {
        projected := projected[tree := version];
      }
    }

    /** Stores one row, after two passes over the rows: one for its id, one for the rules between active rows. */
    method InsertNode(node: Row) returns (fault: Option<StoreFault>)
      modifies this`nodes
      ensures fault == InsertFault(old(nodes), node)
      ensures nodes == if fault.None? then old(nodes) + [NewRow(node)] else old(nodes)
      ensures fault.None? <==> forall n :: n in old(nodes) ==> LeavesRoom(n, node)
    {
      InsertTakes(nodes, node);
      for i := 0 to |nodes|
        invariant nodes == old(nodes) && forall j :: 0 <= j < i ==> nodes[j].id != node.id
      {
        if nodes[i].id == node.id {
          assert nodes[i] in nodes;
          return Some(AlreadyProjected);
        }
      }
      for i := 0 to |nodes|
        invariant nodes == old(nodes) && FirstConflict(nodes[..i], Stored(node)).None?
      {
        assert Init(nodes[..i + 1]) == nodes[..i];
        var clash := Conflict(nodes[i], Stored(node));
        if clash.Some? {
          FirstConflictPrefix(nodes, Stored(node), i + 1);
          return clash;
        }
      }
      assert nodes[..|nodes|] == nodes;
      nodes := nodes + [Stored(node)];
      return None;
    }

    method ProjectInsert(node: Row, version: int) returns (fault: Option<StoreFault>)
      modifies this
      ensures Carried(fault, TreeStore.ProjectInsert(old(Value()), node, version), old(Value()), Value())
      ensures fault.None? ==> nodes == old(nodes) + [NewRow(node)] && forall n :: n in old(nodes) ==> LeavesRoom(n, node)
    {
      fault := CheckNotBelow(node.tree, version);
      if fault.Some? {
        return;
      }
      if !FitsInt4(node.depth) || (node.position.Some? && !FitsInt4(node.position.value)) {
        return Some(NotInt4);
      }
      fault := InsertNode(node);
      if fault.None? {
        ghost var before := projected;
        Advance(node.tree, version);
        AdvanceIsThat(nodes, before, projected, node.tree, version);
      }
    }

    /** The rows as the removal leaves them, or the first fault. Nothing is changed. */
    method StageRemoval(tree: Id, r: Removal, event: Id, now: Time) returns (staged: Result<seq<Row>, StoreFault>)
      ensures staged == TreeStore.StageRemoval(nodes, tree, r, event, now)
    {
      hide TombstoneAll, Repoint, Relocate, TargetFree, SlotsDistinct;
      var rows, hits := Tombstones(nodes, tree, r.users, event, now);
      if |hits| != |r.users| {
        return Err(TombstoneMismatch);
      }
      rows, hits := Repoints(rows, tree, r.responsored);
      if |hits| != |r.responsored| {
        return Err(ResponsorMismatch);
      }
      var free := CheckRelocationTargets(rows, tree, r.relocated);
      if !free {
        return Err(SlotConflict);
      }
      rows, hits := Relocates(rows, tree, r.relocated);
      if |hits| != |r.relocated| {
        return Err(RelocateMismatch);
      }
      var distinct := CheckActiveSlots(rows, tree);
      return if distinct then Ok(rows) else Err(SlotConflict);
    }

    method ProjectRemoval(tree: Id, r: Removal, event: Id, version: int) returns (fault: Option<StoreFault>, ghost at: Time)
      modifies this
      ensures Carried(fault, TreeStore.ProjectRemoval(old(Value()), tree, r, event, version, at), old(Value()), Value())
      ensures fault.None? && Sane(old(nodes)) ==>
                |nodes| == |old(nodes)| && forall i :: 0 <= i < |nodes| ==> RowAfter(old(nodes)[i], nodes[i], tree, r, event, at)
      ensures Sane(old(nodes)) ==>
                (fault.None? <==>
                   && r.users != [] && version >= 1 && version >= ProjectedVersion(old(Value()), tree)
                   && (forall m :: m in r.relocated ==> FitsInt4(m.position) && FitsInt4(m.depth))
                   && WellNamed(old(nodes), tree, r) && WellPlaced(old(nodes), tree, r))
    {
      hide TreeStore.StageRemoval, Sane, RowAfter, WellNamed, WellPlaced;
      var now: Time := *;
      at := now;
      if r.users == [] {
        return Some(NoUsers), at;
      }
      fault := CheckNotBelow(tree, version);
      if fault.Some? {
        return fault, at;
      }
      if exists m :: m in r.relocated && !(FitsInt4(m.position) && FitsInt4(m.depth)) {
        return Some(NotInt4), at;
      }
      if Sane(nodes) { RemovalAccepted(nodes, tree, r, event, now); }
      var staged := StageRemoval(tree, r, event, now);
      if staged.Err? {
        return Some(staged.error), at;
      }
      if Sane(nodes) { RemovalRowByRow(nodes, tree, r, event, now); }
      nodes := staged.value;
      Advance(tree, version);
      AdvanceIsThat(nodes, old(projected), projected, tree, version);
      return None, at;
    }

    /** Tombstones every active row of the tree carrying the rejected event's id. */
    method ProjectRejection(tree: Id, rejected: Id, version: int) returns (fault: Option<StoreFault>, ghost at: Time)
      modifies this
      ensures Carried(fault, TreeStore.ProjectRejection(old(Value()), tree, rejected, version, at), old(Value()), Value())
      ensures fault.None? ==>
                && |nodes| == |old(nodes)|
                && forall i :: 0 <= i < |nodes| ==>
                     var n := old(nodes)[i];
                     nodes[i] == if n.tree == tree && n.removedAt.None? && n.id == rejected then Taken(n, at) else n
    {
      var now: Time := *;
      at := now;
      fault := CheckNotBelow(tree, version);
      if fault.Some? {
        return fault, at;
      }
      for i := 0 to |nodes|
        invariant |nodes| == |old(nodes)| && projected == old(projected)
        invariant forall j :: 0 <= j < i ==> nodes[j] == Retired(old(nodes), tree, rejected, now)[j]
        invariant forall j :: i <= j < |nodes| ==> nodes[j] == old(nodes)[j]
      {
        if nodes[i].ActiveIn(tree) && nodes[i].id == rejected {
          nodes := nodes[i := Tombstoned(nodes[i], None, now)];
        }
      }
      assert nodes == Retired(old(nodes), tree, rejected, now);
      Advance(tree, version);
      AdvanceIsThat(nodes, old(projected), projected, tree, version);
      return None, at;
    }

    /** Tombstones a root row its own delivery inserted, and steps the projected version back by one. */
    method UndoRootProjection(tree: Id, user: Id, version: int) returns (fault: Option<StoreFault>, ghost at: Time)
      modifies this
      ensures Carried(fault, TreeStore.UndoRootProjection(old(Value()), tree, user, version, at), old(Value()), Value())
      ensures fault.None? ==>
                && ProjectedVersion(old(Value()), tree) == version && ProjectedVersion(Value(), tree) == version - 1
                && exists k :: 0 <= k < |old(nodes)| && old(nodes)[k].tree == tree && old(nodes)[k].removedAt.None? && old(nodes)[k].user == user
                               && nodes == old(nodes)[k := Taken(old(nodes)[k], at)]
    {
      var now: Time := *;
      at := now;
      if version < 1 {
        return Some(BadVersion), at;
      }
      if tree !in projected {
        return Some(NoProjectionRow), at;
      }
      if projected[tree] != version {
        return Some(VersionMismatch), at;
      }
      var k := FindActive(nodes, tree, user);
      if k < 0 {
        return Some(NoActiveRow), at;
      }
      nodes := nodes[k := Tombstoned(nodes[k], None, now)];
      projected := projected[tree := version - 1];
      return None, at;
    }
  }

  /** Only one tree's version moved, to the greater of the two. */
  lemma AdvanceIsThat(nodes: seq<Row>, before: map<Id, int>, after: map<Id, int>, tree: Id, version: int)
    requires version >= 1 && version >= ProjectedVersion(Store(nodes, before), tree)
    requires ProjectedVersion(Store(nodes, after), tree) == version
    requires after - {tree} == before - {tree} && tree in after
    ensures Store(nodes, after) == TreeStore.Advance(Store(nodes, before), tree, version)
  {
    forall t | t in after && t != tree ensures t in before && before[t] == after[t] {
      assert t in after - {tree};
    }
    forall t | t in before ensures t in after {
      if t != tree { assert t in before - {tree}; }
    }
  }

  lemma {:induction false} FirstConflictPrefix(rows: seq<Row>, node: Row, n: int)
    requires 0 <= n <= |rows| && FirstConflict(rows[..n], node).Some?
    ensures FirstConflict(rows, node) == FirstConflict(rows[..n], node)
    decreases |rows| - n
  {
    if n == |rows| {
      assert rows[..n] == rows;
    } else {
      assert Init(rows[..n + 1]) == rows[..n];
      FirstConflictPrefix(rows, node, n + 1);
    }
  }
}
