/**
 * The loader's preflight: validating the rows, ordering them for replay, and
 * naming a concrete cycle when no order exists.
 */
module TreeLoader {
  import opened TreeTypes
  import opened LoaderRules

  // ----- Validation -----

  datatype Indexed = Indexed(byId: map<Id, Row>, root: Option<Row>)

  ghost predicate IndexedBy(ix: Indexed, nodes: seq<Row>) {
    && (forall n :: n in nodes ==> n.user != NIL_ID && n.user in ix.byId && ix.byId[n.user] == n)
    && (forall u :: u in ix.byId ==> ix.byId[u] in nodes && ix.byId[u].user == u)
    && DistinctUsers(nodes)
    && (ix.root.Some? ==> IsRoot(nodes, ix.root.value))
    && (forall r :: IsRoot(nodes, r) ==> ix.root.Some? && r.user == ix.root.value.user)
  }

  /** The first pass: users indexed, one root found. */
  method IndexNodes(nodes: seq<Row>) returns (ix: Indexed, fault: Option<LoadFault>)
    ensures fault.None? ==> IndexedBy(ix, nodes)
    ensures fault.Some? ==> !fault.value.Cycle? && forall rule :: Explains(rule, nodes, fault.value)
  {
    ix := Indexed(map[], None);
    fault := None;
    for i := 0 to |nodes|
      invariant IndexedBy(ix, nodes[..i])
    {
      var n := nodes[i];
      assert n in nodes;
      if n.user == NIL_ID {
        return ix, Some(NilUser);
      }
      if n.user in ix.byId {
        assert ix.byId[n.user] in nodes[..i];
        var j :| 0 <= j < i && nodes[j] == ix.byId[n.user];
        assert 0 <= j < i < |nodes| && nodes[j].user == n.user && nodes[i].user == n.user;
        return ix, Some(DuplicateUser(n.user));
      }
      if n.depth == 0 && ix.root.Some? {
        assert IsRoot(nodes, n) && IsRoot(nodes, ix.root.value);
        assert ix.root.value.user in ix.byId;
        return ix, Some(TwoRoots(ix.root.value.user, n.user));
      }
      assert nodes[..i + 1] == nodes[..i] + [n];
      ghost var before := ix;
      ix := Indexed(ix.byId[n.user := n], if n.depth == 0 then Some(n) else ix.root);
      IndexGrows(before, ix, nodes[..i], n);
    }
    assert nodes[..|nodes|] == nodes;
  }

  lemma IndexGrows(ix: Indexed, next: Indexed, nodes: seq<Row>, n: Row)
    requires IndexedBy(ix, nodes) && n.user != NIL_ID && n.user !in ix.byId
    requires n.depth == 0 ==> ix.root.None?
    requires next == Indexed(ix.byId[n.user := n], if n.depth == 0 then Some(n) else ix.root)
    ensures IndexedBy(next, nodes + [n])
  {
    forall r | IsRoot(nodes + [n], r) ensures next.root.Some? && r.user == next.root.value.user {
      if r in nodes { assert IsRoot(nodes, r); }
    }
  }

  /** The checks on one row below the root, other than the slot clash. */
  method CheckChild(rule: SlotRule, nodes: seq<Row>, ix: Indexed, n: Row) returns (fault: Option<LoadFault>)
    requires IndexedBy(ix, nodes) && n in nodes && n.depth != 0
    ensures fault.None? <==> ChildOk(rule, nodes, n)
    ensures fault.Some? ==> !fault.value.Cycle? && Explains(rule, nodes, fault.value)
  {
    if n.parent.None? || n.sponsor.None? {
      return Some(NilParentOrSponsor(n.user));
    }
    if n.parent.value == n.user {
      return Some(OwnParent(n.user));
    }
    if n.sponsor.value == n.user {
      return Some(OwnSponsor(n.user));
    }
    if n.parent.value !in ix.byId {
      return Some(ParentMissing(n.user));
    }
    if n.sponsor.value !in ix.byId {
      return Some(SponsorMissing(n.user));
    }
    var parent := ix.byId[n.parent.value];
    RowOfIs(nodes, parent);
    if n.depth != parent.depth + 1 {
      return Some(DepthMismatch(n.user));
    }
    if !PositionOk(rule, n.position) {
      return Some(BadPosition(n.user));
    }
    return None;
  }

  datatype SlotKey = SlotKey(parent: Option<Id>, position: Option<int>)

  /** The slots the rows below the root claim, each by one row. */
  ghost predicate OccupiedBy(occupied: map<SlotKey, Id>, nodes: seq<Row>) {
    && (forall n :: n in nodes && n.depth != 0 ==>
          SlotKey(n.parent, n.position) in occupied && occupied[SlotKey(n.parent, n.position)] == n.user)
    && (forall k :: k in occupied ==>
          exists n :: n in nodes && n.depth != 0 && SlotKey(n.parent, n.position) == k && n.user == occupied[k])
  }

  /** The checks on the root row the first pass found. */
  method CheckRoot(nodes: seq<Row>, ix: Indexed) returns (fault: Option<LoadFault>)
    requires IndexedBy(ix, nodes)
    ensures fault.None? ==> ix.root.Some? && ix.root.value.parent.None? && ix.root.value.position.None?
    ensures fault.Some? ==> !fault.value.Cycle? && forall rule :: Explains(rule, nodes, fault.value)
  {
    if ix.root.None? {
      return Some(NoRoot);
    }
    if ix.root.value.parent.Some? {
      return Some(RootHasParent);
    }
    if ix.root.value.position.Some? {
      return Some(RootHasPosition);
    }
    return None;
  }

  /** Accepts exactly the valid sets. A refusal names a real fault. */
  method ValidateNodes(rule: SlotRule, nodes: seq<Row>) returns (fault: Option<LoadFault>)
    ensures fault.None? <==> Valid(rule, nodes)
    ensures fault.Some? ==> !fault.value.Cycle? && Explains(rule, nodes, fault.value)
  {
    var ix;
    ix, fault := IndexNodes(nodes);
    if fault.None? {
      fault := CheckRoot(nodes, ix);
    }
    if fault.None? {
      fault := CheckChildren(rule, nodes, ix);
    }
    if fault.Some? {
      ExplainedIsInvalid(rule, nodes, fault.value);
    } else {
      CheckedIsValid(rule, nodes, ix);
    }
  }

  lemma CheckedIsValid(rule: SlotRule, nodes: seq<Row>, ix: Indexed)
    requires IndexedBy(ix, nodes)
    requires ix.root.Some? && ix.root.value.parent.None? && ix.root.value.position.None?
    requires forall n :: n in nodes && n.depth != 0 ==> ChildOk(rule, nodes, n)
    requires SlotsClear(rule, nodes)
    ensures Valid(rule, nodes)
  {
    var root := ix.root.value;
    forall r | IsRoot(nodes, r) ensures r == root {
      assert ix.byId[r.user] == r && ix.byId[root.user] == root;
    }
    assert IsRoot(nodes, root);
  }

  /** The second pass: every row below the root, in order. */
  method CheckChildren(rule: SlotRule, nodes: seq<Row>, ix: Indexed) returns (fault: Option<LoadFault>)
    requires IndexedBy(ix, nodes) && ix.root.Some?
    ensures fault.None? ==> (forall n :: n in nodes && n.depth != 0 ==> ChildOk(rule, nodes, n)) && SlotsClear(rule, nodes)
    ensures fault.Some? ==> !fault.value.Cycle? && Explains(rule, nodes, fault.value)
  {
    hide Explains, ChildOk, OccupiedBy;
    var occupied: map<SlotKey, Id> := map[];
    NoneOccupied(rule);
    assert nodes[..0] == [];
    for i := 0 to |nodes|
      invariant forall n :: n in nodes[..i] && n.depth != 0 ==> ChildOk(rule, nodes, n)
      invariant rule.Slots? ==> OccupiedBy(occupied, nodes[..i])
      invariant SlotsClear(rule, nodes[..i])
    {
      var n := nodes[i];
      assert n in nodes;
      assert nodes[..i + 1] == nodes[..i] + [n];
      if n.user == ix.root.value.user {
        RootSkipped(rule, nodes, ix, n, occupied, nodes[..i]);
        continue;
      }
      NotTheRoot(nodes, ix, n);
      fault := CheckChild(rule, nodes, ix, n);
      if fault.Some? {
        return;
      }
      if rule.Slots? {
        var key := SlotKey(n.parent, n.position);
        if key in occupied {
          ClashExplained(rule, nodes, i, occupied);
          return Some(SlotClash(occupied[key], n.user));
        }
        SlotAdded(rule, nodes[..i], n, occupied);
        occupied := occupied[key := n.user];
      }
    }
    assert nodes[..|nodes|] == nodes;
    fault := None;
  }

  lemma NoneOccupied(rule: SlotRule)
    ensures SlotsClear(rule, []) && OccupiedBy(map[], [])
  {
  }

  lemma NotTheRoot(nodes: seq<Row>, ix: Indexed, n: Row)
    requires IndexedBy(ix, nodes) && ix.root.Some? && n in nodes && n.user != ix.root.value.user
    ensures n.depth != 0
  {
    assert n.depth == 0 ==> IsRoot(nodes, n);
  }

  lemma RootSkipped(rule: SlotRule, nodes: seq<Row>, ix: Indexed, n: Row, occupied: map<SlotKey, Id>, before: seq<Row>)
    requires IndexedBy(ix, nodes) && ix.root.Some? && n in nodes && n.user == ix.root.value.user
    requires SlotsClear(rule, before) && (rule.Slots? ==> OccupiedBy(occupied, before))
    ensures n.depth == 0
    ensures SlotsClear(rule, before + [n]) && (rule.Slots? ==> OccupiedBy(occupied, before + [n]))
  {
    assert ix.byId[n.user] == n && ix.byId[n.user] == ix.root.value;
  }

  lemma SlotAdded(rule: SlotRule, before: seq<Row>, n: Row, occupied: map<SlotKey, Id>)
    requires rule.Slots? && SlotsClear(rule, before) && OccupiedBy(occupied, before)
    requires n.depth != 0 && SlotKey(n.parent, n.position) !in occupied
    ensures SlotsClear(rule, before + [n])
    ensures OccupiedBy(occupied[SlotKey(n.parent, n.position) := n.user], before + [n])
  {
    var key := SlotKey(n.parent, n.position);
    var after := before + [n];
    var next := occupied[key := n.user];
    forall k | k in next
      ensures exists m :: m in after && m.depth != 0 && SlotKey(m.parent, m.position) == k && m.user == next[k]
    {
      if k == key {
        assert n in after;
      } else {
        var m :| m in before && m.depth != 0 && SlotKey(m.parent, m.position) == k && m.user == occupied[k];
        assert m in after;
      }
    }
    forall i, j | 0 <= i < j < |after| && after[i].depth != 0 && after[j].depth != 0
      ensures !(after[i].parent == after[j].parent && after[i].position == after[j].position)
    {
      assert after[i] in before;
      if j == |before| { assert SlotKey(after[i].parent, after[i].position) in occupied; }
    }
  }

  lemma ClashExplained(rule: SlotRule, nodes: seq<Row>, i: int, occupied: map<SlotKey, Id>)
    requires rule.Slots? && DistinctUsers(nodes) && 0 <= i < |nodes| && nodes[i].depth != 0
    requires OccupiedBy(occupied, nodes[..i]) && SlotKey(nodes[i].parent, nodes[i].position) in occupied
    ensures Explains(rule, nodes, SlotClash(occupied[SlotKey(nodes[i].parent, nodes[i].position)], nodes[i].user))
  {
    var n := nodes[i];
    var key := SlotKey(n.parent, n.position);
    var m :| m in nodes[..i] && m.depth != 0 && SlotKey(m.parent, m.position) == key && m.user == occupied[key];
    var j :| 0 <= j < i && nodes[j] == m;
    assert m in nodes && n in nodes;
  }

  lemma ExplainedIsInvalid(rule: SlotRule, nodes: seq<Row>, f: LoadFault)
    requires Explains(rule, nodes, f) && !f.Cycle?
    ensures !Valid(rule, nodes)
  {
    match f
    case DepthMismatch(u) =>
      var n, p :| n in nodes && p in nodes && n.depth != 0 && n.user == u && n.parent == Some(p.user) && n.depth != p.depth + 1;
      if Valid(rule, nodes) {
        RowOfIs(nodes, p);
        assert false;
      }
    case SlotClash(a, b) =>
      var m, n :| m in nodes && n in nodes && m.depth != 0 && n.depth != 0 && m.user == a && n.user == b
                   && m.parent == n.parent && m.position == n.position;
      var i :| 0 <= i < |nodes| && nodes[i] == m;
      var j :| 0 <= j < |nodes| && nodes[j] == n;
      assert i < j || j < i;
      assert !SlotsClear(rule, nodes);
    case TwoRoots(a, b) =>
      hide ChildOk, SlotsClear;
    case _ =>
      hide SlotsClear;
  }
}
