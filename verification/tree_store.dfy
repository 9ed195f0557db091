/**
 * The adjacency store: rows, projected versions, and the four writes that
 * project an event. The functions state what each write does to a value; the
 * class in tree_store_memory.dfy carries them out in place.
 */
module TreeStore {
  import opened TreeTypes

  datatype StoreFault =
    | BadVersion
    | ProjectionRefused(projectedVersion: int)
    | NotInt4
    | AlreadyProjected
    | ActiveUserConflict
    | RootConflict
    | SlotConflict
    | NoUsers
    | TombstoneMismatch
    | ResponsorMismatch
    | RelocateMismatch
    | NoProjectionRow
    | VersionMismatch
    | NoActiveRow

  datatype Store = Store(nodes: seq<Row>, projected: map<Id, int>)

  const EMPTY_STORE: Store := Store([], map[])

  /** What one removal changes in the store. */
  datatype Removal = Removal(users: seq<Id>, responsored: seq<Responsored>, relocated: seq<Relocation>)

  datatype Slot = Slot(parent: Id, position: int)

  const MIN_INT4: int := -0x8000_0000
  const MAX_INT4: int := 0x7fff_ffff

  predicate FitsInt4(x: int) {
    MIN_INT4 <= x <= MAX_INT4
  }

  // ----- Reads -----

  function ProjectedVersion(s: Store, tree: Id): int {
    if tree in s.projected then s.projected[tree] else 0
  }

  /** The index of the first active row of user u in the tree, or -1. */
  function FirstActive(rows: seq<Row>, tree: Id, u: Id): (k: int)
    ensures -1 <= k < |rows|
    ensures k >= 0 ==> rows[k].ActiveIn(tree) && rows[k].user == u
    ensures forall i :: 0 <= i < |rows| && (k < 0 || i < k) ==> !(rows[i].ActiveIn(tree) && rows[i].user == u)
  {
    if rows == [] then -1
    else
      var k := FirstActive(Init(rows), tree, u);
      if k >= 0 then k
      else if Last(rows).ActiveIn(tree) && Last(rows).user == u then |rows| - 1
      else -1
  }

  function GetNode(rows: seq<Row>, tree: Id, u: Id): Option<Row> {
    var k := FirstActive(rows, tree, u);
    if k >= 0 then Some(rows[k]) else None
  }

  /** A row with no removal time first, then the later removal, then the higher id. */
  predicate RanksAhead(a: Row, b: Row) {
    if a.removedAt.None? && b.removedAt.Some? then true
    else if a.removedAt.Some? && b.removedAt.None? then false
    else if a.removedAt.Some? && a.removedAt.value != b.removedAt.value then a.removedAt.value > b.removedAt.value
    else a.id > b.id
  }

  function BestTombstone(rows: seq<Row>, tree: Id, u: Id): Option<Row> {
    if rows == [] then None
    else
      var best := BestTombstone(Init(rows), tree, u);
      var n := Last(rows);
      if n.tree == tree && n.user == u && !n.Active() && (best.None? || RanksAhead(n, best.value)) then Some(n) else best
  }

  /** The user's active row, or else the highest ranked tombstone. */
  function GetNodeIncludingRemoved(rows: seq<Row>, tree: Id, u: Id): Option<Row> {
    var active := GetNode(rows, tree, u);
    if active.Some? then active else BestTombstone(rows, tree, u)
  }

  function GetNodeByRemovalEvent(rows: seq<Row>, tree: Id, event: Id): Option<Row> {
    if rows == [] then None
    else
      var best := GetNodeByRemovalEvent(Init(rows), tree, event);
      var n := Last(rows);
      if n.tree == tree && n.removedBy == Some(event) && (best.None? || RanksAhead(n, best.value)) then Some(n) else best
  }

  predicate IsTombstone(n: Row, tree: Id, u: Id) {
    n.tree == tree && n.user == u && !n.Active()
  }

  /** The tombstone read is one of the user's, and none of the others was removed later, or at the same time under a higher id. */
  lemma {:induction false} BestIsLatest(rows: seq<Row>, tree: Id, u: Id)
    ensures var b := BestTombstone(rows, tree, u);
            if b.None? then forall n :: n in rows ==> !IsTombstone(n, tree, u)
            else
              && b.value in rows && IsTombstone(b.value, tree, u)
              && forall n :: n in rows && IsTombstone(n, tree, u) ==>
                   n.removedAt.value < b.value.removedAt.value || (n.removedAt == b.value.removedAt && n.id <= b.value.id)
  {
    if rows != [] {
      BestIsLatest(Init(rows), tree, u);
      assert rows == Init(rows) + [Last(rows)];
    }
  }

  function ActiveRows(rows: seq<Row>, tree: Id): seq<Row> {
    if rows == [] then []
    else if Last(rows).ActiveIn(tree) then ActiveRows(Init(rows), tree) + [Last(rows)]
    else ActiveRows(Init(rows), tree)
  }

  /** Shallower first, and of one depth the earlier enrolled. */
  predicate ShallowerFirst(a: Row, b: Row) {
    a.depth < b.depth || (a.depth == b.depth && a.enrolled < b.enrolled)
  }

  predicate DepthOrdered(rows: seq<Row>) {
    forall i, j :: 0 <= i < j < |rows| ==> !ShallowerFirst(rows[j], rows[i])
  }

  function PutInOrder(rows: seq<Row>, x: Row): (r: seq<Row>)
    ensures multiset(r) == multiset(rows) + multiset{x}
  {
    if rows == [] || !ShallowerFirst(x, Last(rows)) then rows + [x]
    else
      assert rows == Init(rows) + [Last(rows)];
      PutInOrder(Init(rows), x) + [Last(rows)]
  }

  /** The rows in depth order. */
  function ByDepth(rows: seq<Row>): (r: seq<Row>)
    ensures multiset(r) == multiset(rows)
  {
    if rows == [] then []
    else
      assert rows == Init(rows) + [Last(rows)];
      PutInOrder(ByDepth(Init(rows)), Last(rows))
  }

  lemma {:induction false} PutInOrderKeepsOrder(rows: seq<Row>, x: Row)
    requires DepthOrdered(rows)
    ensures DepthOrdered(PutInOrder(rows, x))
  {
    if rows != [] && ShallowerFirst(x, Last(rows)) {
      PutInOrderKeepsOrder(Init(rows), x);
      var r := PutInOrder(Init(rows), x);
      forall i | 0 <= i < |r| ensures !ShallowerFirst(Last(rows), r[i]) {
        assert r[i] in multiset(r);
        assert r[i] == x || r[i] in Init(rows);
      }
    }
  }

  lemma {:induction false} ByDepthIsOrdered(rows: seq<Row>)
    ensures DepthOrdered(ByDepth(rows))
    ensures var r := ByDepth(rows);
            forall i, j :: 0 <= i < j < |r| ==> r[i].depth < r[j].depth || (r[i].depth == r[j].depth && r[i].enrolled <= r[j].enrolled)
  {
    if rows != [] {
      ByDepthIsOrdered(Init(rows));
      PutInOrderKeepsOrder(ByDepth(Init(rows)), Last(rows));
    }
  }

  // ----- Insert -----

  function Stored(node: Row): Row {
    node.(removedAt := None, removedBy := None, enrolled := Truncated(node.enrolled))
  }

  predicate SameSlot(a: Row, b: Row) {
    && a.parent.Some? && a.position.Some? && b.parent.Some? && b.position.Some?
    && a.parent == b.parent && a.position == b.position
  }

  /** The rule an active row n of the tree breaks against a new row, if any. */
  function Conflict(n: Row, node: Row): Option<StoreFault> {
    if !n.ActiveIn(node.tree) then None
    else if n.user == node.user then Some(ActiveUserConflict)
    else if node.depth == 0 && n.depth == 0 then Some(RootConflict)
    else if SameSlot(n, node) then Some(SlotConflict)
    else None
  }

  /** The first conflict in row order. */
  function FirstConflict(rows: seq<Row>, node: Row): (f: Option<StoreFault>)
    ensures f.None? <==> forall n :: n in rows ==> Conflict(n, node).None?
    ensures f.Some? ==> exists n :: n in rows && Conflict(n, node) == f
  {
    if rows == [] then None
    else
      assert rows == Init(rows) + [Last(rows)];
      var f := FirstConflict(Init(rows), node);
      if f.Some? then f else Conflict(Last(rows), node)
  }

  predicate HasId(rows: seq<Row>, id: Id) {
    exists n :: n in rows && n.id == id
  }

  function InsertFault(rows: seq<Row>, node: Row): Option<StoreFault> {
    if HasId(rows, node.id) then Some(AlreadyProjected) else FirstConflict(rows, Stored(node))
  }

  function RefuseBelow(s: Store, tree: Id, version: int): Option<StoreFault> {
    if version < 1 then Some(BadVersion)
    else if version < ProjectedVersion(s, tree) then Some(ProjectionRefused(ProjectedVersion(s, tree)))
    else None
  }

  function Advance(s: Store, tree: Id, version: int): Store {
    if version > ProjectedVersion(s, tree) then s.(projected := s.projected[tree := version]) else s
  }

  function ProjectInsert(s: Store, node: Row, version: int): Result<Store, StoreFault> {
    var below := RefuseBelow(s, node.tree, version);
    if below.Some? then Err(below.value)
    else if !FitsInt4(node.depth) || (node.position.Some? && !FitsInt4(node.position.value)) then Err(NotInt4)
    else
      var fault := InsertFault(s.nodes, node);
      if fault.Some? then Err(fault.value)
      else Ok(Advance(s.(nodes := s.nodes + [Stored(node)]), node.tree, version))
  }

  // ----- Removal -----

  function Tombstoned(r: Row, event: Option<Id>, now: Time): Row {
    r.(removedAt := Some(now), removedBy := if event.Some? then event else r.removedBy)
  }

  /** Tombstones and stamps each user's active row in turn. None when a user has none left. */
  function TombstoneAll(rows: seq<Row>, tree: Id, users: seq<Id>, event: Id, now: Time): (r: Option<seq<Row>>)
    ensures r.Some? ==> |r.value| == |rows|
  {
    if users == [] then Some(rows)
    else
      var r := TombstoneAll(rows, tree, Init(users), event, now);
      if r.None? then None
      else
        var k := FirstActive(r.value, tree, Last(users));
        if k < 0 then None else Some(r.value[k := Tombstoned(r.value[k], Some(event), now)])
  }

  /** The rows after a list of edits, and the indexes the edits hit. */
  datatype Edited = Edited(rows: seq<Row>, hits: set<int>)

  function Repoint(rows: seq<Row>, tree: Id, ms: seq<Responsored>): (e: Edited)
    ensures |e.rows| == |rows|
  {
    if ms == [] then Edited(rows, {})
    else
      var e := Repoint(rows, tree, Init(ms));
      var k := FirstActive(e.rows, tree, Last(ms).user);
      if k < 0 then e
      else Edited(e.rows[k := e.rows[k].(sponsor := Some(Last(ms).newSponsor))], e.hits + {k})
  }

  function Moved(r: Row, m: Relocation): Row {
    r.(parent := Some(m.parent), position := Some(m.position), depth := m.depth)
  }

  function Relocate(rows: seq<Row>, tree: Id, ms: seq<Relocation>): (e: Edited)
    ensures |e.rows| == |rows|
  {
    if ms == [] then Edited(rows, {})
    else
      var e := Relocate(rows, tree, Init(ms));
      var k := FirstActive(e.rows, tree, Last(ms).user);
      if k < 0 then e else Edited(e.rows[k := Moved(e.rows[k], Last(ms))], e.hits + {k})
  }

  predicate HoldsSlot(r: Row, tree: Id, at: Slot) {
    r.ActiveIn(tree) && r.parent == Some(at.parent) && r.position == Some(at.position)
  }

  /** The user of the last active row in the slot. */
  function SlotHolder(rows: seq<Row>, tree: Id, at: Slot): (u: Option<Id>)
    ensures u.Some? <==> exists r :: r in rows && HoldsSlot(r, tree, at)
    ensures u.Some? ==> exists r :: r in rows && HoldsSlot(r, tree, at) && r.user == u.value
  {
    if rows == [] then None
    else
      assert rows == Init(rows) + [Last(rows)];
      if HoldsSlot(Last(rows), tree, at) then Some(Last(rows).user) else SlotHolder(Init(rows), tree, at)
  }

  /** m moves its row nowhere, or to a slot nobody else holds. */
  predicate TargetFree(rows: seq<Row>, tree: Id, m: Relocation) {
    FirstActive(rows, tree, m.user) >= 0 ==>
      var holder := SlotHolder(rows, tree, Slot(m.parent, m.position));
      holder.None? || holder.value == m.user
  }

  predicate SlotsDistinct(rows: seq<Row>, tree: Id) {
    forall i, j :: 0 <= i < j < |rows| && rows[i].ActiveIn(tree) && rows[j].ActiveIn(tree) ==> !SameSlot(rows[i], rows[j])
  }

  function StageRemoval(rows: seq<Row>, tree: Id, r: Removal, event: Id, now: Time): Result<seq<Row>, StoreFault> {
    var gone := TombstoneAll(rows, tree, r.users, event, now);
    if gone.None? then Err(TombstoneMismatch)
    else
      var pointed := Repoint(gone.value, tree, r.responsored);
      if |pointed.hits| != |r.responsored| then Err(ResponsorMismatch)
      else if exists m :: m in r.relocated && !TargetFree(pointed.rows, tree, m) then Err(SlotConflict)
      else
        var placed := Relocate(pointed.rows, tree, r.relocated);
        if |placed.hits| != |r.relocated| then Err(RelocateMismatch)
        else if !SlotsDistinct(placed.rows, tree) then Err(SlotConflict)
        else Ok(placed.rows)
  }

  function ProjectRemoval(s: Store, tree: Id, r: Removal, event: Id, version: int, now: Time): Result<Store, StoreFault> {
    var below := RefuseBelow(s, tree, version);
    if r.users == [] then Err(NoUsers)
    else if below.Some? then Err(below.value)
    else if exists m :: m in r.relocated && !(FitsInt4(m.position) && FitsInt4(m.depth)) then Err(NotInt4)
    else
      var staged := StageRemoval(s.nodes, tree, r, event, now);
      if staged.Err? then Err(staged.error) else Ok(Advance(s.(nodes := staged.value), tree, version))
  }

  // ----- Rejection and undo -----

  /** Every active row of the tree carrying the id, tombstoned without a stamp. */
  function Retired(rows: seq<Row>, tree: Id, id: Id, now: Time): (r: seq<Row>)
    ensures |r| == |rows|
    ensures forall i :: 0 <= i < |rows| ==>
              r[i] == if rows[i].ActiveIn(tree) && rows[i].id == id then Tombstoned(rows[i], None, now) else rows[i]
  {
    if rows == [] then []
    else
      var n := Last(rows);
      Retired(Init(rows), tree, id, now) + [if n.ActiveIn(tree) && n.id == id then Tombstoned(n, None, now) else n]
  }

  function ProjectRejection(s: Store, tree: Id, rejected: Id, version: int, now: Time): Result<Store, StoreFault> {
    var below := RefuseBelow(s, tree, version);
    if below.Some? then Err(below.value)
    else Ok(Advance(s.(nodes := Retired(s.nodes, tree, rejected, now)), tree, version))
  }

  function UndoRootProjection(s: Store, tree: Id, user: Id, version: int, now: Time): Result<Store, StoreFault> {
    if version < 1 then Err(BadVersion)
    else if tree !in s.projected then Err(NoProjectionRow)
    else if s.projected[tree] != version then Err(VersionMismatch)
    else
      var k := FirstActive(s.nodes, tree, user);
      if k < 0 then Err(NoActiveRow)
      else Ok(Store(s.nodes[k := Tombstoned(s.nodes[k], None, now)], s.projected[tree := version - 1]))
  }
}
