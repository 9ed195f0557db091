/**
 * The tree an adjacency table describes, and what each store write does to it.
 *
 * The store and the engine take the same events in the same order, so the rows
 * still active list, in row order, exactly the engine's nodes.
 */
module Agreement {
  import opened TreeTypes
  import opened EngineTree
  import opened TreeStore

  /** The engine's view of a row. The engine root carries no sponsor, whatever its row stores. */
  function NodeOf(r: Row): Node {
    Node(r.user, r.parent, if r.parent.None? then None else r.sponsor, r.position, r.depth, Unix(r.enrolled))
  }

  /** The nodes the tree's active rows describe, in row order. */
  function Held(rows: seq<Row>, tree: Id): seq<Node> {
    if rows == [] then []
    else if Last(rows).ActiveIn(tree) then Held(Init(rows), tree) + [NodeOf(Last(rows))]
    else Held(Init(rows), tree)
  }

  predicate ActiveUsersDistinct(rows: seq<Row>, tree: Id) {
    forall i, j :: 0 <= i < j < |rows| && rows[i].ActiveIn(tree) && rows[j].ActiveIn(tree) ==> rows[i].user != rows[j].user
  }

  predicate IdsDistinct(rows: seq<Row>) {
    forall i, j :: 0 <= i < j < |rows| ==> rows[i].id != rows[j].id
  }

  lemma HeldAppend(rows: seq<Row>, r: Row, tree: Id)
    ensures Held(rows + [r], tree) == if r.ActiveIn(tree) then Held(rows, tree) + [NodeOf(r)] else Held(rows, tree)
  {
    InitOfAppend(rows, r);
  }

  lemma {:induction false} HeldMembers(rows: seq<Row>, tree: Id)
    ensures forall r :: r in rows && r.ActiveIn(tree) ==> NodeOf(r) in Held(rows, tree)
    ensures forall n :: n in Held(rows, tree) ==> exists r :: r in rows && r.ActiveIn(tree) && NodeOf(r) == n
  {
    if rows != [] {
      HeldMembers(Init(rows), tree);
      assert rows == Init(rows) + [Last(rows)];
      assert Last(rows) in rows;
    }
  }

  /** A user is held exactly when it has an active row, and the node is that row's. */
  lemma {:induction false} HeldLookup(rows: seq<Row>, tree: Id, u: Id)
    requires ActiveUsersDistinct(rows, tree)
    ensures Holds(Held(rows, tree), u) <==> FirstActive(rows, tree, u) >= 0
    ensures Holds(Held(rows, tree), u) ==> Lookup(Held(rows, tree), u).value == NodeOf(rows[FirstActive(rows, tree, u)])
  {
    if rows != [] {
      HeldLookup(Init(rows), tree, u);
      if Last(rows).ActiveIn(tree) {
        LookupAppend(Held(Init(rows), tree), NodeOf(Last(rows)), u);
      }
    }
  }

  /** If the rows describe a well-formed tree, no user has two active rows. */
  lemma {:induction false} WellFormedRowsAreDistinct(kind: Kind, rows: seq<Row>, tree: Id)
    requires WellFormed(kind, Held(rows, tree))
    ensures ActiveUsersDistinct(rows, tree)
  {
    if rows != [] {
      var prev, x := Init(rows), Last(rows);
      if x.ActiveIn(tree) {
        InitOfAppend(Held(prev, tree), NodeOf(x));
      }
      WellFormedRowsAreDistinct(kind, prev, tree);
      HeldLookup(prev, tree, x.user);
    }
  }

  // ----- Removal -----

  /** What a removal of u leaves of one row. */
  function RowAfterRemoval(r: Row, tree: Id, u: Id, target: Option<Id>, event: Id, now: Time): Row {
    if !r.ActiveIn(tree) then r
    else if r.user == u then Tombstoned(r, Some(event), now)
    else if r.parent.Some? && r.sponsor == Some(u) then r.(sponsor := target)
    else r
  }

  lemma {:induction false} HeldAfterRemoval(rows: seq<Row>, after: seq<Row>, tree: Id, u: Id, target: Option<Id>, event: Id, now: Time)
    requires |after| == |rows|
    requires forall i :: 0 <= i < |rows| ==> after[i] == RowAfterRemoval(rows[i], tree, u, target, event, now)
    ensures Held(after, tree) == Dropped(Held(rows, tree), u, target)
  {
    if rows != [] {
      HeldAfterRemoval(Init(rows), Init(after), tree, u, target, event, now);
      if Last(rows).ActiveIn(tree) {
        InitOfAppend(Held(Init(rows), tree), NodeOf(Last(rows)));
      }
    }
  }

  predicate NoDuplicates(us: seq<Id>) {
    forall i, j :: 0 <= i < j < |us| ==> us[i] != us[j]
  }

  function MatchingIndexes(rows: seq<Row>, tree: Id, us: seq<Id>): set<int> {
    set i | 0 <= i < |rows| && rows[i].ActiveIn(tree) && rows[i].user in us
  }

  function Repointed(r: Row, tree: Id, us: seq<Id>, target: Id): Row {
    if r.ActiveIn(tree) && r.user in us then r.(sponsor := Some(target)) else r
  }

  lemma RepointKeepsDistinct(rows: seq<Row>, after: seq<Row>, tree: Id, us: seq<Id>, target: Id)
    requires ActiveUsersDistinct(rows, tree) && |after| == |rows|
    requires forall i :: 0 <= i < |rows| ==> after[i] == Repointed(rows[i], tree, us, target)
    ensures ActiveUsersDistinct(after, tree)
  {
  }

  /** Every listed recruit with an active row is repointed, each once. */
  lemma {:induction false} RepointMoves(rows: seq<Row>, tree: Id, us: seq<Id>, target: Id)
    requires ActiveUsersDistinct(rows, tree) && NoDuplicates(us)
    requires forall u :: u in us ==> FirstActive(rows, tree, u) >= 0
    ensures var e := Repoint(rows, tree, Moves(us, target));
            && |e.hits| == |us|
            && e.hits == MatchingIndexes(rows, tree, us)
            && forall i :: 0 <= i < |rows| ==> e.rows[i] == Repointed(rows[i], tree, us, target)
  {
    if us == [] {
      assert MatchingIndexes(rows, tree, us) == {};
    } else {
      var prev, u := Init(us), Last(us);
      assert us == prev + [u];
      RepointMoves(rows, tree, prev, target);
      InitOfAppend(Moves(prev, target), Responsored(u, target));
      var e := Repoint(rows, tree, Moves(prev, target));
      RepointStep(rows, e, tree, prev, u, target);
    }
  }

  lemma RepointStep(rows: seq<Row>, e: Edited, tree: Id, us: seq<Id>, u: Id, target: Id)
    requires ActiveUsersDistinct(rows, tree) && u !in us && FirstActive(rows, tree, u) >= 0
    requires |e.rows| == |rows| && |e.hits| == |us| && e.hits == MatchingIndexes(rows, tree, us)
    requires forall i :: 0 <= i < |rows| ==> e.rows[i] == Repointed(rows[i], tree, us, target)
    ensures var k := FirstActive(e.rows, tree, u);
            && k >= 0 && |e.hits + {k}| == |us| + 1
            && e.hits + {k} == MatchingIndexes(rows, tree, us + [u])
            && var after := e.rows[k := e.rows[k].(sponsor := Some(target))];
               forall i :: 0 <= i < |rows| ==> after[i] == Repointed(rows[i], tree, us + [u], target)
  {
    RepointKeepsDistinct(rows, e.rows, tree, us, target);
    var k := FirstActive(rows, tree, u);
    FirstActiveIs(e.rows, tree, u, k);
    OneMoreMatch(rows, tree, us, u, k);
    var after := e.rows[k := e.rows[k].(sponsor := Some(target))];
    forall i | 0 <= i < |rows| ensures after[i] == Repointed(rows[i], tree, us + [u], target) {
      if i != k && rows[i].ActiveIn(tree) { assert rows[i].user != u; }
    }
  }

  lemma OneMoreMatch(rows: seq<Row>, tree: Id, us: seq<Id>, u: Id, k: int)
    requires ActiveUsersDistinct(rows, tree) && u !in us
    requires 0 <= k < |rows| && rows[k].ActiveIn(tree) && rows[k].user == u
    ensures k !in MatchingIndexes(rows, tree, us)
    ensures MatchingIndexes(rows, tree, us + [u]) == MatchingIndexes(rows, tree, us) + {k}
  {
  }

  lemma FirstActiveIs(rows: seq<Row>, tree: Id, u: Id, k: int)
    requires ActiveUsersDistinct(rows, tree)
    requires 0 <= k < |rows| && rows[k].ActiveIn(tree) && rows[k].user == u
    ensures FirstActive(rows, tree, u) == k
  {
  }

  lemma {:induction false} RecruitsFacts(kind: Kind, nodes: seq<Node>, u: Id)
    requires WellFormed(kind, nodes)
    ensures NoDuplicates(Recruits(nodes, u))
    ensures forall v :: v in Recruits(nodes, u) ==> v != u && Holds(nodes, v)
    ensures forall n :: n in nodes ==> (n.user in Recruits(nodes, u) <==> n.sponsor == Some(u) && n.user != u)
  {
    if nodes != [] {
      var prev := Init(nodes);
      assert nodes == prev + [Last(nodes)];
      RecruitsFacts(kind, prev, u);
      UsersDistinct(kind, nodes);
      forall n | n in prev ensures Holds(prev, n.user) { LookupMember(prev, n.user); }
    }
  }

  function RemovalOf(user: Id, moved: seq<Responsored>): Removal {
    Removal([user], moved, [])
  }

  lemma {:induction false} MovesLength(us: seq<Id>, target: Id)
    ensures |Moves(us, target)| == |us|
  {
    if us != [] { MovesLength(Init(us), target); }
  }

  lemma RecruitRow(rows: seq<Row>, tree: Id, kind: Kind, nodes: seq<Node>, user: Id, i: int)
    requires WellFormed(kind, nodes) && Held(rows, tree) == nodes
    requires 0 <= i < |rows| && rows[i].ActiveIn(tree) && rows[i].user != user
    ensures rows[i].user in Recruits(nodes, user) <==> rows[i].parent.Some? && rows[i].sponsor == Some(user)
  {
    RecruitsFacts(kind, nodes, user);
    HeldMembers(rows, tree);
    assert rows[i] in rows;
    assert NodeOf(rows[i]) in nodes;
  }

  lemma RecruitsStayActive(rows: seq<Row>, gone: seq<Row>, tree: Id, kind: Kind, user: Id, v: Id)
    requires WellFormed(kind, Held(rows, tree))
    requires |gone| == |rows| && forall i :: 0 <= i < |rows| && rows[i].user != user ==> gone[i] == rows[i]
    requires v in Recruits(Held(rows, tree), user)
    ensures FirstActive(gone, tree, v) >= 0
  {
    WellFormedRowsAreDistinct(kind, rows, tree);
    RecruitsFacts(kind, Held(rows, tree), user);
    HeldLookup(rows, tree, v);
    assert gone[FirstActive(rows, tree, v)] == rows[FirstActive(rows, tree, v)];
  }

  /** The user's row tombstoned and stamped, its recruits repointed, every other row as it was. */
  lemma RemovalEditsRows(rows: seq<Row>, gone: seq<Row>, tree: Id, t: Tree, user: Id, event: Id, now: Time)
    requires WellFormed(t.kind, t.nodes) && Held(rows, tree) == t.nodes
    requires RemoveNode(t, user).Ok?
    requires FirstActive(rows, tree, user) >= 0
    requires gone == rows[FirstActive(rows, tree, user) := Tombstoned(rows[FirstActive(rows, tree, user)], Some(event), now)]
    ensures var e := Repoint(gone, tree, RemoveNode(t, user).value.moved);
            && |e.hits| == |RemoveNode(t, user).value.moved|
            && forall i :: 0 <= i < |rows| ==>
                 e.rows[i] == RowAfterRemoval(rows[i], tree, user, TargetOf(t.nodes, user), event, now)
  {
    var recruits, target := Recruits(t.nodes, user), TargetOf(t.nodes, user);
    var e := Repoint(gone, tree, RemoveNode(t, user).value.moved);
    WellFormedRowsAreDistinct(t.kind, rows, tree);
    if recruits != [] {
      forall v | v in recruits ensures FirstActive(gone, tree, v) >= 0 {
        RecruitsStayActive(rows, gone, tree, t.kind, user, v);
      }
      RecruitsFacts(t.kind, t.nodes, user);
      RepointMoves(gone, tree, recruits, target.value);
      MovesLength(recruits, target.value);
    }
    forall i | 0 <= i < |rows|
      ensures e.rows[i] == RowAfterRemoval(rows[i], tree, user, target, event, now)
    {
      if rows[i].ActiveIn(tree) {
        if rows[i].user == user {
          FirstActiveIs(rows, tree, user, i);
        } else {
          RecruitRow(rows, tree, t.kind, t.nodes, user, i);
        }
      }
    }
  }

  /** Rows a removal may leave: ids, trees and tombstones kept, and no stamp but its own added. */
  predicate RemovalKeeps(rows: seq<Row>, after: seq<Row>, tree: Id, event: Id) {
    && |after| == |rows|
    && forall i :: 0 <= i < |rows| ==>
         && after[i].id == rows[i].id
         && after[i].tree == rows[i].tree
         && (!rows[i].ActiveIn(tree) ==> after[i] == rows[i])
         && after[i].removedBy in {rows[i].removedBy, Some(event)}
         && after[i].depth == rows[i].depth
         && after[i].position == rows[i].position
         && (after[i].Active() ==> rows[i].Active())
  }

  predicate Stamped(rows: seq<Row>, tree: Id, event: Id) {
    exists r :: r in rows && r.tree == tree && r.removedBy == Some(event)
  }

  /**
   * A removal the engine ran always stages in a store that agrees with it, and
   * the rows it leaves describe the engine's new tree.
   */
  lemma RemovalStages(rows: seq<Row>, tree: Id, t: Tree, user: Id, event: Id, now: Time)
    requires WellFormed(t.kind, t.nodes) && Held(rows, tree) == t.nodes
    requires SlotsDistinct(rows, tree)
    requires RemoveNode(t, user).Ok?
    ensures var out := RemoveNode(t, user).value;
            var staged := StageRemoval(rows, tree, RemovalOf(user, out.moved), event, now);
            && staged.Ok?
            && Held(staged.value, tree) == out.tree.nodes
            && RemovalKeeps(rows, staged.value, tree, event)
            && Stamped(staged.value, tree, event)
            && SlotsDistinct(staged.value, tree)
  {
    hide WellFormed, Held, Dropped, Repoint, Recruits, HasChild;
    var out := RemoveNode(t, user).value;
    WellFormedRowsAreDistinct(t.kind, rows, tree);
    HeldLookup(rows, tree, user);
    var k := FirstActive(rows, tree, user);
    var gone := rows[k := Tombstoned(rows[k], Some(event), now)];
    assert TombstoneAll(rows, tree, [user], event, now) == Some(gone) by {
      assert Init([user]) == [];
      assert TombstoneAll(rows, tree, [], event, now) == Some(rows);
    }
    RemovalEditsRows(rows, gone, tree, t, user, event, now);
    var pointed := Repoint(gone, tree, out.moved);
    HeldAfterRemoval(rows, pointed.rows, tree, user, TargetOf(t.nodes, user), event, now);
    assert Relocate(pointed.rows, tree, []) == Edited(pointed.rows, {});
    assert pointed.rows[k] in pointed.rows;
  }

  // ----- Rejection -----

  /** Retiring the last row's id puts the described tree back as it was before that row. */
  lemma {:induction false} HeldAfterRetire(rows: seq<Row>, tree: Id, id: Id, now: Time)
    requires IdsDistinct(rows)
    ensures (forall r :: r in rows && r.ActiveIn(tree) ==> r.id != id) ==> Retired(rows, tree, id, now) == rows
    ensures rows != [] && Last(rows).id == id && Last(rows).ActiveIn(tree) ==>
              Held(Retired(rows, tree, id, now), tree) == Held(Init(rows), tree)
  {
    var after := Retired(rows, tree, id, now);
    if rows != [] && Last(rows).id == id && Last(rows).ActiveIn(tree) {
      assert Init(after) == Init(rows);
      assert !Last(after).ActiveIn(tree);
    }
  }
}
