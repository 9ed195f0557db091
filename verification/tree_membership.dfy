/**
 * The comparison a load ends with: the engine's tree against the active rows,
 * by user, depth and enrolment second.
 */
module TreeMembership {
  import opened TreeTypes
  import opened EngineTree
  import opened TreeStore
  import opened Agreement
  import opened EngineWorker
  import opened StoredRows
  import LoaderRules

  datatype Member = Member(depth: int, enrolled: int)

  /** Who the rows say is in the tree. A later row of one user replaces an earlier one. */
  function RowMembers(rows: seq<Row>): map<Id, Member> {
    if rows == [] then map[]
    else RowMembers(Init(rows))[Last(rows).user := Member(Last(rows).depth, Unix(Last(rows).enrolled))]
  }

  function NodeMembers(nodes: seq<Node>): map<Id, Member> {
    if nodes == [] then map[]
    else NodeMembers(Init(nodes))[Last(nodes).user := Member(Last(nodes).depth, Last(nodes).enrolled)]
  }

  /** The root of the rows: the last one at depth 0, or the nil id. */
  function RootOfRows(rows: seq<Row>): Id {
    if rows == [] then NIL_ID
    else if Last(rows).depth == 0 then Last(rows).user
    else RootOfRows(Init(rows))
  }

  /** What the comparison found. Failed says whether the engine itself answered with an error. */
  datatype Comparison =
    | Agree
    | Differ(onlyEngine: set<Id>, onlyStore: set<Id>, differs: set<Id>)
    | Failed(engineError: bool)

  /** The engine's members: the root and everything below it. */
  function Reported(t: Tree, root: Id): map<Id, Member>
    requires Holds(t.nodes, root)
  {
    NodeMembers([Lookup(t.nodes, root).value] + Downline(t.nodes, root))
  }

  method IndexRows(rows: seq<Row>) returns (root: Id, store: map<Id, Member>)
    ensures root == RootOfRows(rows) && store == RowMembers(rows)
  {
    root, store := NIL_ID, map[];
    for i := 0 to |rows|
      invariant root == RootOfRows(rows[..i]) && store == RowMembers(rows[..i])
    {
      assert Init(rows[..i + 1]) == rows[..i];
      if rows[i].depth == 0 {
        root := rows[i].user;
      }
      store := store[rows[i].user := Member(rows[i].depth, Unix(rows[i].enrolled))];
    }
    assert rows[..|rows|] == rows;
  }

  method IndexNodes(first: Node, down: seq<Node>) returns (held: map<Id, Member>)
    ensures held == NodeMembers([first] + down)
  {
    held := map[first.user := Member(first.depth, first.enrolled)];
    assert [first] + down[..0] == [first] && Init([first]) == [];
    for i := 0 to |down|
      invariant held == NodeMembers([first] + down[..i])
    {
      InitOfAppend([first] + down[..i], down[i]);
      assert [first] + down[..i + 1] == [first] + down[..i] + [down[i]];
      held := held[down[i].user := Member(down[i].depth, down[i].enrolled)];
    }
    assert down[..|down|] == down;
  }

  /** The users of the first side that the second side lacks, and those it has otherwise. */
  method Unmatched(held: map<Id, Member>, store: map<Id, Member>) returns (only: set<Id>, differs: set<Id>)
    ensures only == held.Keys - store.Keys
    ensures differs == Differing(held, store)
  {
    only, differs := {}, {};
    var rest := held.Keys;
    while rest != {}
      invariant rest <= held.Keys
      invariant forall v :: v in only <==> v in held && v !in rest && v !in store
      invariant forall v :: v in differs <==> v in held && v !in rest && v in store && held[v] != store[v]
      decreases |rest|
    {
      var u :| u in rest;
      rest := rest - {u};
      if u !in store {
        only := only + {u};
      } else if store[u] != held[u] {
        differs := differs + {u};
      }
    }
  }

  function Differing(held: map<Id, Member>, store: map<Id, Member>): set<Id> {
    set u | u in held && u in store && held[u] != store[u]
  }

  /** The two sides are equal exactly when nobody is missing on either and nobody differs. */
  lemma NothingUnmatched(held: map<Id, Member>, store: map<Id, Member>)
    ensures held == store <==> held.Keys - store.Keys == {} && store.Keys - held.Keys == {} && Differing(held, store) == {}
  {
    if held.Keys - store.Keys == {} && store.Keys - held.Keys == {} && Differing(held, store) == {} {
      forall u ensures u in held <==> u in store {
        assert u in held ==> u !in held.Keys - store.Keys;
        assert u in store ==> u !in store.Keys - held.Keys;
      }
      forall u | u in held ensures held[u] == store[u] {
        assert u !in Differing(held, store);
      }
    }
  }

  /**
   * Compares the engine with a set of active rows. Agreement means the engine's
   * root and downline are exactly the rows' users, each at the same depth and
   * enrolment second; a difference lists exactly who is where.
   */
  method CheckMembership(engine: Worker, rows: seq<Row>) returns (r: Comparison)
    requires engine.held.Some?
    ensures !r.Failed? ==> Holds(engine.held.value.nodes, RootOfRows(rows))
    ensures r.Agree? ==> Reported(engine.held.value, RootOfRows(rows)) == RowMembers(rows)
    ensures r.Agree? && LoaderRules.DistinctUsers(rows) ==>
              var t, root := engine.held.value, RootOfRows(rows);
              Alike([Lookup(t.nodes, root).value] + Downline(t.nodes, root), rows)
    ensures r.Differ? ==>
              var held, store := Reported(engine.held.value, RootOfRows(rows)), RowMembers(rows);
              && held != store
              && r.onlyEngine == held.Keys - store.Keys && r.onlyStore == store.Keys - held.Keys
              && r.differs == Differing(held, store)
    ensures !engine.faulty && Holds(engine.held.value.nodes, RootOfRows(rows)) ==> !r.Failed?
  {
    var root, store := IndexRows(rows);
    var pos := engine.GetPosition(root);
    if !pos.At? {
      return Failed(pos.Absent?);
    }
    var down := engine.GetDownline(root);
    if down.None? {
      var answered: bool := *;
      return Failed(answered);
    }
    var held := IndexNodes(pos.node, down.value);
    var onlyEngine, differs := Unmatched(held, store);
    var onlyStore, _ := Unmatched(store, held);
    NothingUnmatched(held, store);
    if onlyEngine == {} && onlyStore == {} && differs == {} {
      if LoaderRules.DistinctUsers(rows) { SameMembersAlike([pos.node] + down.value, rows); }
      return Agree;
    }
    return Differ(onlyEngine, onlyStore, differs);
  }

  /** Every row has a node of its user, depth and enrolment second, and every node has a row of its user. */
  ghost predicate Alike(nodes: seq<Node>, rows: seq<Row>) {
    && (forall r :: r in rows ==> exists n :: n in nodes && n.user == r.user && n.depth == r.depth && n.enrolled == Unix(r.enrolled))
    && (forall n :: n in nodes ==> exists r :: r in rows && r.user == n.user)
  }

  lemma {:induction false} NodeMembersAre(nodes: seq<Node>, u: Id)
    ensures u in NodeMembers(nodes) <==> exists n :: n in nodes && n.user == u
    ensures u in NodeMembers(nodes) ==> exists n :: n in nodes && n.user == u && NodeMembers(nodes)[u] == Member(n.depth, n.enrolled)
  {
    if nodes != [] {
      NodeMembersAre(Init(nodes), u);
      assert nodes == Init(nodes) + [Last(nodes)];
    }
  }

  lemma SameMembersAlike(nodes: seq<Node>, rows: seq<Row>)
    requires NodeMembers(nodes) == RowMembers(rows) && LoaderRules.DistinctUsers(rows)
    ensures Alike(nodes, rows)
  {
    hide NodeMembers, RowMembers;
    forall r | r in rows ensures exists n :: n in nodes && n.user == r.user && n.depth == r.depth && n.enrolled == Unix(r.enrolled) {
      MembersAre(rows, r.user);
      NodeMembersAre(nodes, r.user);
      LoaderRules.RowOfIs(rows, r);
    }
    forall n | n in nodes ensures exists r :: r in rows && r.user == n.user {
      NodeMembersAre(nodes, n.user);
      MembersAre(rows, n.user);
    }
  }

  // ----- Rows in any order -----

  lemma {:induction false} MembersAre(rows: seq<Row>, u: Id)
    ensures u in RowMembers(rows) <==> LoaderRules.HasUser(rows, u)
    ensures LoaderRules.HasUser(rows, u) ==>
              var r := LoaderRules.RowOf(rows, u).value; RowMembers(rows)[u] == Member(r.depth, Unix(r.enrolled))
  {
    if rows != [] {
      MembersAre(Init(rows), u);
      assert rows == Init(rows) + [Last(rows)];
    }
  }

  /** Who the rows say is in the tree does not depend on the order they come in. */
  lemma MembersIgnoreListing(a: seq<Row>, b: seq<Row>)
    requires LoaderRules.DistinctUsers(a) && LoaderRules.DistinctUsers(b) && multiset(a) == multiset(b)
    ensures RowMembers(a) == RowMembers(b)
  {
    forall u ensures (u in RowMembers(a) <==> u in RowMembers(b)) && (u in RowMembers(a) ==> RowMembers(a)[u] == RowMembers(b)[u]) {
      MembersAre(a, u);
      MembersAre(b, u);
      LoaderRules.SameRowOf(a, b, u);
    }
  }

  lemma {:induction false} RootOfRowsIs(rows: seq<Row>)
    ensures (exists r :: LoaderRules.IsRoot(rows, r)) ==> exists r :: LoaderRules.IsRoot(rows, r) && r.user == RootOfRows(rows)
  {
    if rows != [] {
      assert rows == Init(rows) + [Last(rows)];
      if Last(rows).depth == 0 {
        assert LoaderRules.IsRoot(rows, Last(rows));
      } else {
        RootOfRowsIs(Init(rows));
        forall r | LoaderRules.IsRoot(rows, r) ensures LoaderRules.IsRoot(Init(rows), r) {}
        if exists r :: LoaderRules.IsRoot(rows, r) {
          var r :| LoaderRules.IsRoot(Init(rows), r) && r.user == RootOfRows(Init(rows));
          assert LoaderRules.IsRoot(rows, r);
        }
      }
    }
  }

  lemma {:induction false} SameMembers(rows: seq<Row>, tree: Id)
    requires AllActive(rows, tree)
    ensures RowMembers(rows) == NodeMembers(Held(rows, tree))
  {
    if rows != [] {
      assert rows == Init(rows) + [Last(rows)];
      assert Last(rows) in rows;
      SameMembers(Init(rows), tree);
      InitOfAppend(Held(Init(rows), tree), NodeOf(Last(rows)));
    }
  }

  /**
   * When the rows describe the engine's tree, in whatever order they are read,
   * the comparison agrees: the root is held, and both sides have the same members.
   */
  lemma AgreementIsMembership(kind: Kind, all: seq<Row>, tree: Id, t: Tree, rows: seq<Row>)
    requires WellFormed(kind, t.nodes) && Held(all, tree) == t.nodes && t.nodes != []
    requires multiset(rows) == multiset(ActiveRows(all, tree))
    ensures Holds(t.nodes, RootOfRows(rows)) && RootOfRows(rows) == t.nodes[0].user
    ensures Reported(t, RootOfRows(rows)) == RowMembers(rows)
  {
    var act := ActiveRows(all, tree);
    ActiveRowsHeld(all, tree);
    assert act != [] by { assert Held([], tree) == []; }
    WellFormedIsValid(kind, act, tree);
    LoaderRules.ValidIgnoresListing(LoaderRules.RuleFor(kind), act, rows);
    MembersIgnoreListing(act, rows);
    SameMembers(act, tree);
    RootOfRowsIs(rows);
    RootRowIsFirst(kind, act, tree, rows);
    UsersDistinct(kind, t.nodes);
    assert t.nodes[0] in t.nodes;
    DownlineOfRoot(kind, t.nodes);
  }

  lemma RootRowIsFirst(kind: Kind, act: seq<Row>, tree: Id, rows: seq<Row>)
    requires AllActive(act, tree) && act != [] && WellFormed(kind, Held(act, tree)) && Held(act, tree) != []
    requires multiset(rows) == multiset(act)
    requires LoaderRules.OneRoot(rows)
    ensures RootOfRows(rows) == Held(act, tree)[0].user
  {
    hide LoaderRules.OneRoot;
    RootIsFirst(kind, Held(act, tree));
    HeldMembers(act, tree);
    assert Held(act, tree)[0] in Held(act, tree);
    var r :| r in act && r.ActiveIn(tree) && NodeOf(r) == Held(act, tree)[0];
    LoaderRules.SameRows(act, rows);
    assert LoaderRules.IsRoot(rows, r);
    RootOfRowsIs(rows);
    var q :| LoaderRules.IsRoot(rows, q) && q.user == RootOfRows(rows);
    LoaderRules.RootsShareUser(rows, r, q);
  }
}
