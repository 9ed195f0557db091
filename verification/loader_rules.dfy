/**
 * The rules a set of active rows must meet before it is replayed: structural
 * validity, the dependency graph over parents and sponsors, and the replay
 * order.
 */
module LoaderRules {
  import opened TreeTypes

  /** Unilevel rows carry no position. Binary and matrix rows carry one below the limit. */
  datatype SlotRule = NoSlots | Slots(limit: int)

  function RuleFor(kind: Kind): SlotRule {
    match kind
    case Unilevel => NoSlots
    case Binary => Slots(2)
  }

  datatype LoadFault =
    | NilUser
    | DuplicateUser(user: Id)
    | TwoRoots(first: Id, second: Id)
    | NoRoot
    | RootHasParent
    | RootHasPosition
    | NilParentOrSponsor(user: Id)
    | OwnParent(user: Id)
    | OwnSponsor(user: Id)
    | ParentMissing(user: Id)
    | SponsorMissing(user: Id)
    | DepthMismatch(user: Id)
    | BadPosition(user: Id)
    | SlotClash(first: Id, second: Id)
    | Cycle(path: seq<Id>, stuck: nat)

  // ----- Structural validity -----

  predicate DistinctUsers(nodes: seq<Row>) {
    forall i, j :: 0 <= i < j < |nodes| ==> nodes[i].user != nodes[j].user
  }

  predicate HasUser(nodes: seq<Row>, u: Id) {
    exists n :: n in nodes && n.user == u
  }

  /** The row of user u, for a set without duplicate users. */
  function RowOf(nodes: seq<Row>, u: Id): (r: Option<Row>)
    ensures r.Some? <==> HasUser(nodes, u)
    ensures r.Some? ==> r.value in nodes && r.value.user == u
  {
    if nodes == [] then None
    else
      assert nodes == Init(nodes) + [Last(nodes)];
      if Last(nodes).user == u then Some(Last(nodes)) else RowOf(Init(nodes), u)
  }

  predicate IsRoot(nodes: seq<Row>, r: Row) {
    r in nodes && r.depth == 0
  }

  predicate PositionOk(rule: SlotRule, position: Option<int>) {
    match rule
    case NoSlots => position.None?
    case Slots(limit) => position.Some? && 0 <= position.value < limit
  }

  /** A row below the root: its references resolve, its depth follows its parent's, its position fits. */
  predicate ChildOk(rule: SlotRule, nodes: seq<Row>, n: Row) {
    && n.parent.Some? && n.sponsor.Some?
    && n.parent.value != n.user && n.sponsor.value != n.user
    && HasUser(nodes, n.parent.value) && HasUser(nodes, n.sponsor.value)
    && n.depth == RowOf(nodes, n.parent.value).value.depth + 1
    && PositionOk(rule, n.position)
  }

  predicate SlotsClear(rule: SlotRule, nodes: seq<Row>) {
    rule.Slots? ==>
      forall i, j :: 0 <= i < j < |nodes| && nodes[i].depth != 0 && nodes[j].depth != 0 ==>
        !(nodes[i].parent == nodes[j].parent && nodes[i].position == nodes[j].position)
  }

  ghost predicate Valid(rule: SlotRule, nodes: seq<Row>) {
    && (forall n :: n in nodes ==> n.user != NIL_ID)
    && DistinctUsers(nodes)
    && OneRoot(nodes)
    && (forall n :: n in nodes && n.depth != 0 ==> ChildOk(rule, nodes, n))
    && SlotsClear(rule, nodes)
  }

  /** One row is at depth 0, and it carries neither a parent nor a position. */
  ghost predicate OneRoot(nodes: seq<Row>) {
    && (exists r :: IsRoot(nodes, r))
    && (forall r, q :: IsRoot(nodes, r) && IsRoot(nodes, q) ==> r.user == q.user)
    && (forall r :: IsRoot(nodes, r) ==> r.parent.None? && r.position.None?)
  }

  /** The fault names something wrong with the rows. */
  ghost predicate Explains(rule: SlotRule, nodes: seq<Row>, f: LoadFault) {
    match f
    case NilUser => exists n :: n in nodes && n.user == NIL_ID
    case DuplicateUser(u) => exists i, j :: 0 <= i < j < |nodes| && nodes[i].user == u && nodes[j].user == u
    case TwoRoots(a, b) => a != b && exists r, q :: IsRoot(nodes, r) && IsRoot(nodes, q) && r.user == a && q.user == b
    case NoRoot => !exists r :: IsRoot(nodes, r)
    case RootHasParent => exists r :: IsRoot(nodes, r) && r.parent.Some?
    case RootHasPosition => exists r :: IsRoot(nodes, r) && r.position.Some?
    case NilParentOrSponsor(u) => exists n :: n in nodes && n.depth != 0 && n.user == u && (n.parent.None? || n.sponsor.None?)
    case OwnParent(u) => exists n :: n in nodes && n.depth != 0 && n.user == u && n.parent == Some(u)
    case OwnSponsor(u) => exists n :: n in nodes && n.depth != 0 && n.user == u && n.sponsor == Some(u)
    case ParentMissing(u) =>
      exists n :: n in nodes && n.depth != 0 && n.user == u && n.parent.Some? && !HasUser(nodes, n.parent.value)
    case SponsorMissing(u) =>
      exists n :: n in nodes && n.depth != 0 && n.user == u && n.sponsor.Some? && !HasUser(nodes, n.sponsor.value)
    case DepthMismatch(u) =>
      exists n, p :: n in nodes && p in nodes && n.depth != 0 && n.user == u && n.parent == Some(p.user) && n.depth != p.depth + 1
    case BadPosition(u) => exists n :: n in nodes && n.depth != 0 && n.user == u && !PositionOk(rule, n.position)
    case SlotClash(a, b) =>
      rule.Slots? && a != b &&
      exists m, n :: m in nodes && n in nodes && m.depth != 0 && n.depth != 0 && m.user == a && n.user == b
                     && m.parent == n.parent && m.position == n.position
    case Cycle(path, _) => IsCycle(nodes, path)
  }

  // ----- Dependencies -----

  /** The users that must be replayed before n. The root's stored sponsor is not one of them. */
  function Deps(n: Row): set<Id> {
    if n.parent.None? then {}
    else {n.parent.value} + (if n.sponsor.Some? then {n.sponsor.value} else {}) - {n.user}
  }

  /** Every dependency is in the set, and no two rows share a user. */
  predicate Resolved(nodes: seq<Row>) {
    DistinctUsers(nodes) && forall n, d :: n in nodes && d in Deps(n) ==> HasUser(nodes, d)
  }

  lemma ValidIsResolved(rule: SlotRule, nodes: seq<Row>)
    requires Valid(rule, nodes)
    ensures Resolved(nodes)
  {
    forall n, d | n in nodes && d in Deps(n) ensures HasUser(nodes, d) {
      assert n.depth == 0 ==> IsRoot(nodes, n);
    }
  }

  /** The row of a, not a root, names b, another user, as its parent or its sponsor. */
  predicate DependsOn(nodes: seq<Row>, a: Id, b: Id) {
    exists n :: n in nodes && n.user == a && a != b && n.parent.Some? && (n.parent == Some(b) || n.sponsor == Some(b))
  }

  /** A closed walk along real references. */
  predicate IsCycle(nodes: seq<Row>, path: seq<Id>) {
    && |path| >= 2
    && path[0] == path[|path| - 1]
    && forall i :: 0 <= i < |path| - 1 ==> DependsOn(nodes, path[i], path[i + 1])
  }

  ghost predicate Acyclic(nodes: seq<Row>) {
    forall path :: !IsCycle(nodes, path)
  }

  function Users(rows: seq<Row>): set<Id> {
    set n | n in rows :: n.user
  }

  /** Every row comes after everything it depends on. */
  predicate DepsFirst(order: seq<Row>) {
    forall i :: 0 <= i < |order| ==> Deps(order[i]) <= Users(order[..i])
  }

  /** The user referred to, if any and not the row's own, has an earlier row. */
  predicate Earlier(order: seq<Row>, i: int, ref: Option<Id>)
    requires 0 <= i < |order|
  {
    ref.None? || ref.value == order[i].user || exists j :: 0 <= j < i && order[j].user == ref.value
  }

  /** Every row with a parent comes after the rows of its parent and its sponsor. */
  predicate ParentAndSponsorFirst(order: seq<Row>) {
    forall i :: 0 <= i < |order| && order[i].parent.Some? ==> Earlier(order, i, order[i].parent) && Earlier(order, i, order[i].sponsor)
  }

  lemma DepsFirstMeans(order: seq<Row>)
    ensures DepsFirst(order) <==> ParentAndSponsorFirst(order)
  {
    forall i | 0 <= i < |order|
      ensures Deps(order[i]) <= Users(order[..i]) <==>
                (order[i].parent.Some? ==> Earlier(order, i, order[i].parent) && Earlier(order, i, order[i].sponsor))
    {
      EarlierIsAmong(order, i, order[i].parent);
      EarlierIsAmong(order, i, order[i].sponsor);
    }
  }

  lemma EarlierIsAmong(order: seq<Row>, i: int, ref: Option<Id>)
    requires 0 <= i < |order|
    ensures Earlier(order, i, ref) <==> ref.None? || ref.value == order[i].user || ref.value in Users(order[..i])
  {
    if exists j :: 0 <= j < i && ref.Some? && order[j].user == ref.value {
      var j :| 0 <= j < i && order[j].user == ref.value;
      assert order[j] in order[..i];
    }
    if ref.Some? && ref.value in Users(order[..i]) {
      var n :| n in order[..i] && n.user == ref.value;
      var j :| 0 <= j < i && order[..i][j] == n;
      assert order[j].user == ref.value;
    }
  }

  /** The row may come at place i: it has not come yet, and what it refers to has. */
  predicate Waiting(order: seq<Row>, i: int, m: Row)
    requires 0 <= i <= |order|
  {
    && !HasUser(order[..i], m.user)
    && (m.parent.Some? ==> (m.parent.value == m.user || HasUser(order[..i], m.parent.value))
                           && (m.sponsor.Some? ==> m.sponsor.value == m.user || HasUser(order[..i], m.sponsor.value)))
  }

  /** At each place stands the row, of those that may come there, that is shallowest, then enrolled earliest, then least by user id. */
  ghost predicate ShallowestFirst(nodes: seq<Row>, order: seq<Row>) {
    forall i, m :: 0 <= i < |order| && m in nodes && Waiting(order, i, m) ==>
      var n := order[i];
      n.depth < m.depth || (n.depth == m.depth && (n.enrolled < m.enrolled || (n.enrolled == m.enrolled && n.user <= m.user)))
  }

  lemma LeastFirstMeans(nodes: seq<Row>, order: seq<Row>)
    requires DistinctUsers(nodes) && LeastFirst(RowSet(nodes), order)
    ensures ShallowestFirst(nodes, order)
  {
    forall i, m | 0 <= i < |order| && m in nodes && Waiting(order, i, m)
      ensures var n := order[i];
              n.depth < m.depth || (n.depth == m.depth && (n.enrolled < m.enrolled || (n.enrolled == m.enrolled && n.user <= m.user)))
    {
      WaitingIsReady(order, i, m);
      assert m in ReadyRows(RowSet(nodes), Users(order[..i])) && IsLeast(order[i], ReadyRows(RowSet(nodes), Users(order[..i])));
      if m.user == order[i].user {
        RowOfIs(nodes, m);
        RowOfIs(nodes, order[i]);
      }
    }
  }

  lemma WaitingIsReady(order: seq<Row>, i: int, m: Row)
    requires 0 <= i <= |order| && Waiting(order, i, m)
    ensures Ready(m, Users(order[..i]))
  {
  }

  /** A row may be replayed: it has not been, and all it depends on has. */
  predicate Ready(n: Row, done: set<Id>) {
    n.user !in done && Deps(n) <= done
  }

  function ReadyRows(all: set<Row>, done: set<Id>): set<Row> {
    set n | n in all && Ready(n, done)
  }

  /** Shallowest first, then earliest enrolled, then user id. */
  predicate Before(a: Row, b: Row) {
    if a.depth != b.depth then a.depth < b.depth
    else if a.enrolled != b.enrolled then a.enrolled < b.enrolled
    else a.user < b.user
  }

  predicate IsLeast(n: Row, rows: set<Row>) {
    n in rows && forall m :: m in rows && m.user != n.user ==> Before(n, m)
  }

  ghost predicate SetDistinct(all: set<Row>) {
    forall a, b :: a in all && b in all && a.user == b.user ==> a == b
  }

  lemma LeastExists(rows: set<Row>)
    requires rows != {} && SetDistinct(rows)
    ensures exists n :: IsLeast(n, rows)
  {
    var x :| x in rows;
    var rest := rows - {x};
    if rest == {} {
      assert rows == rest + {x} == {x};
      assert IsLeast(x, rows);
    } else {
      LeastExists(rest);
      var m :| IsLeast(m, rest);
      if Before(m, x) {
        assert IsLeast(m, rows);
      } else {
        forall y | y in rows && y.user != x.user ensures Before(x, y) {
          assert y in rest;
          if y.user != m.user { assert Before(m, y); }
        }
        assert IsLeast(x, rows);
      }
    }
  }

  lemma LeastIsUnique(a: Row, b: Row, rows: set<Row>)
    requires IsLeast(a, rows) && IsLeast(b, rows) && SetDistinct(rows)
    ensures a == b
  {
  }

  function Unplayed(all: set<Row>, done: set<Id>): set<Row> {
    set n | n in all && n.user !in done
  }

  /** Every row is the least of those ready when its turn comes. */
  ghost predicate LeastFirst(all: set<Row>, order: seq<Row>) {
    forall i :: 0 <= i < |order| ==> IsLeast(order[i], ReadyRows(all, Users(order[..i])))
  }

  function RowSet(nodes: seq<Row>): set<Row> {
    set n | n in nodes
  }

  lemma {:induction false} SamePrefix(all: set<Row>, x: seq<Row>, y: seq<Row>, k: nat)
    requires SetDistinct(all) && LeastFirst(all, x) && LeastFirst(all, y)
    requires k <= |x| && k <= |y|
    ensures x[..k] == y[..k]
  {
    if k > 0 {
      SamePrefix(all, x, y, k - 1);
      LeastIsUnique(x[k - 1], y[k - 1], ReadyRows(all, Users(x[..k - 1])));
      assert x[..k] == x[..k - 1] + [x[k - 1]];
      assert y[..k] == y[..k - 1] + [y[k - 1]];
    }
  }

  /** Two listings of one set of rows replay in the same order. */
  lemma OrderIgnoresListing(a: seq<Row>, b: seq<Row>, x: seq<Row>, y: seq<Row>)
    requires DistinctUsers(a) && multiset(a) == multiset(b)
    requires LeastFirst(RowSet(a), x) && multiset(x) == multiset(a)
    requires LeastFirst(RowSet(b), y) && multiset(y) == multiset(b)
    ensures x == y
  {
    SameRows(a, b);
    assert RowSet(a) == RowSet(b);
    SameRows(x, y);
    SamePrefix(RowSet(a), x, y, |x|);
    assert x[..|x|] == x && y[..|y|] == y;
  }

  lemma SameRows(nodes: seq<Row>, order: seq<Row>)
    requires multiset(order) == multiset(nodes)
    ensures |order| == |nodes| && forall n :: n in order <==> n in nodes
  {
    assert |order| == |multiset(order)| == |multiset(nodes)| == |nodes|;
    forall n ensures n in order <==> n in nodes {
      assert n in order <==> n in multiset(order);
      assert n in nodes <==> n in multiset(nodes);
    }
  }

  /** In an order of a valid set that puts dependencies first, the root is first and alone at depth 0. */
  lemma RootComesFirst(rule: SlotRule, nodes: seq<Row>, order: seq<Row>)
    requires Valid(rule, nodes) && multiset(order) == multiset(nodes) && DepsFirst(order)
    ensures order != [] && IsRoot(nodes, order[0])
    ensures forall i :: 0 < i < |order| ==> order[i].depth > 0
  {
    SameRows(nodes, order);
    FirstIsRoot(rule, nodes, order);
    forall i | 0 < i < |order| ensures order[i].depth > 0 {
      hide Valid, DepsFirst, IsRoot;
      assert order[i] in order;
      LaterIsDeeper(rule, nodes, order, i);
    }
  }

  lemma FirstIsRoot(rule: SlotRule, nodes: seq<Row>, order: seq<Row>)
    requires Valid(rule, nodes) && DepsFirst(order) && forall n :: n in order <==> n in nodes
    ensures order != [] && IsRoot(nodes, order[0])
  {
    hide SlotsClear, DistinctUsers, HasUser, RowOf;
    var root :| IsRoot(nodes, root);
    assert root in order;
    assert order[0] in order;
    assert Users(order[..0]) == {};
    assert Deps(order[0]) == {};
    ChildDepends(rule, nodes, order[0]);
  }

  lemma ChildDepends(rule: SlotRule, nodes: seq<Row>, n: Row)
    requires Valid(rule, nodes) && n in nodes
    ensures n.depth != 0 ==> Deps(n) != {}
  {
    hide SlotsClear, DistinctUsers, HasUser, RowOf, OneRoot;
    if n.depth != 0 {
      assert ChildOk(rule, nodes, n);
      assert n.parent.value in Deps(n);
    }
  }

  lemma LaterIsDeeper(rule: SlotRule, nodes: seq<Row>, order: seq<Row>, i: int)
    requires Valid(rule, nodes) && multiset(order) == multiset(nodes)
    requires 0 < i < |order| && IsRoot(nodes, order[0]) && order[i] in nodes
    ensures order[i].depth > 0
  {
    ValidIsOneTree(rule, nodes, order[0], order[i]);
    PairDiffers(nodes, order, 0, i);
    if order[i].depth == 0 {
      assert IsRoot(nodes, order[i]);
      RowOfIs(nodes, order[i]);
      RowOfIs(nodes, order[0]);
    }
  }

  lemma {:induction false} CountsOnce(nodes: seq<Row>, n: Row)
    requires DistinctUsers(nodes)
    ensures multiset(nodes)[n] <= 1
  {
    if nodes != [] {
      assert nodes == Init(nodes) + [Last(nodes)];
      CountsOnce(Init(nodes), n);
    }
  }

  lemma SmallerSet<T>(a: set<T>, b: set<T>)
    requires a < b
    ensures |a| < |b|
  {
    assert b == a + (b - a);
  }

  // ----- What validity means for the whole tree -----

  /** The k-th parent above user u. */
  function Ancestor(nodes: seq<Row>, u: Id, k: nat): Option<Id>
    decreases k
  {
    if k == 0 then Some(u)
    else
      var r := RowOf(nodes, u);
      if r.None? || r.value.parent.None? then None else Ancestor(nodes, r.value.parent.value, k - 1)
  }

  lemma {:induction false} RowOfIs(nodes: seq<Row>, n: Row)
    requires DistinctUsers(nodes) && n in nodes
    ensures RowOf(nodes, n.user) == Some(n)
  {
  }

  lemma {:induction false} ShallowestRow(nodes: seq<Row>) returns (m: Row)
    requires nodes != []
    ensures m in nodes && forall n :: n in nodes ==> m.depth <= n.depth
  {
    m := Last(nodes);
    if |nodes| > 1 {
      assert nodes == Init(nodes) + [Last(nodes)];
      var p := ShallowestRow(Init(nodes));
      if p.depth < m.depth { m := p; }
    }
  }

  /**
   * The local checks force one tree: no depth is negative, and every parent
   * chain reaches the one root in exactly depth steps and not before.
   */
  lemma ValidIsOneTree(rule: SlotRule, nodes: seq<Row>, root: Row, n: Row)
    requires Valid(rule, nodes) && IsRoot(nodes, root) && n in nodes
    ensures n.depth >= 0
    ensures Ancestor(nodes, n.user, n.depth) == Some(root.user)
    ensures forall k :: 0 <= k < n.depth ==> Ancestor(nodes, n.user, k).Some? && Ancestor(nodes, n.user, k) != Some(root.user)
  {
    var m := ShallowestRow(nodes);
    assert m.depth == 0 by {
      if m.depth != 0 { assert false; }
    }
    forall m | m in nodes && m.depth != 0 ensures HangsFromParent(nodes, m) {
      assert ChildOk(rule, nodes, m);
    }
    ChainReachesRoot(nodes, root, n);
  }

  predicate HangsFromParent(nodes: seq<Row>, n: Row) {
    && n.parent.Some?
    && HasUser(nodes, n.parent.value)
    && n.depth == RowOf(nodes, n.parent.value).value.depth + 1
  }

  lemma AncestorStep(nodes: seq<Row>, n: Row, k: nat)
    requires DistinctUsers(nodes) && n in nodes && n.parent.Some? && k > 0
    ensures Ancestor(nodes, n.user, k) == Ancestor(nodes, n.parent.value, k - 1)
  {
    RowOfIs(nodes, n);
  }

  lemma {:induction false} ChainReachesRoot(nodes: seq<Row>, root: Row, n: Row)
    requires DistinctUsers(nodes)
    requires forall m :: m in nodes && m.depth != 0 ==> HangsFromParent(nodes, m)
    requires IsRoot(nodes, root) && forall r :: IsRoot(nodes, r) ==> r.user == root.user
    requires n in nodes && n.depth >= 0
    ensures Ancestor(nodes, n.user, n.depth) == Some(root.user)
    ensures forall k :: 0 <= k < n.depth ==> Ancestor(nodes, n.user, k).Some? && Ancestor(nodes, n.user, k) != Some(root.user)
    decreases n.depth
  {
    if n.depth == 0 {
      assert IsRoot(nodes, n);
    } else {
      var p := RowOf(nodes, n.parent.value).value;
      ChainReachesRoot(nodes, root, p);
      AncestorStep(nodes, n, n.depth);
      forall k | 0 <= k < n.depth ensures Ancestor(nodes, n.user, k).Some? && Ancestor(nodes, n.user, k) != Some(root.user) {
        if k > 0 {
          AncestorStep(nodes, n, k);
        } else {
          RowOfIs(nodes, n);
          RowOfIs(nodes, root);
        }
      }
    }
  }

  // ----- Orders and cycles -----

  function Position(order: seq<Row>, u: Id): (i: int)
    ensures -1 <= i < |order|
    ensures i >= 0 ==> order[i].user == u
    ensures u in Users(order) ==> i >= 0
    ensures forall j :: 0 <= j < i ==> order[j].user != u
  {
    if order == [] then -1
    else
      assert order == Init(order) + [Last(order)];
      var i := Position(Init(order), u);
      if i >= 0 then i else if Last(order).user == u then |order| - 1 else -1
  }

  /** A walk along references only moves to earlier places of an order that puts dependencies first. */
  lemma {:induction false} WalkDescends(nodes: seq<Row>, order: seq<Row>, path: seq<Id>, k: nat)
    requires DistinctUsers(order) && DepsFirst(order) && forall n :: n in nodes ==> n in order
    requires 0 < k < |path| && forall i :: 0 <= i < |path| - 1 ==> DependsOn(nodes, path[i], path[i + 1])
    ensures 0 <= Position(order, path[k]) < Position(order, path[0])
  {
    assert DependsOn(nodes, path[k - 1], path[k - 1 + 1]);
    var n :| n in nodes && n.user == path[k - 1] && path[k] in Deps(n);
    var i :| 0 <= i < |order| && order[i] == n;
    assert Position(order, n.user) == i;
    assert path[k] in Users(order[..i]);
    var j :| 0 <= j < i && order[j].user == path[k];
    assert order[j] in order;
    if k > 1 { WalkDescends(nodes, order, path, k - 1); }
  }

  /** An order with dependencies first rules out every cycle. */
  lemma OrderedIsAcyclic(nodes: seq<Row>, order: seq<Row>)
    requires DistinctUsers(order) && DepsFirst(order) && forall n :: n in nodes ==> n in order
    ensures Acyclic(nodes)
  {
    forall path | IsCycle(nodes, path) ensures false {
      WalkDescends(nodes, order, path, |path| - 1);
    }
  }

  /** Replay may start: the rows are valid and their references form no cycle. An empty set passes. */
  ghost predicate Loadable(rule: SlotRule, nodes: seq<Row>) {
    nodes == [] || (Valid(rule, nodes) && Acyclic(nodes))
  }

  // ----- The verdict depends on the rows alone, not on the order they are read in -----

  lemma RootsShareUser(nodes: seq<Row>, r: Row, q: Row)
    requires OneRoot(nodes) && IsRoot(nodes, r) && IsRoot(nodes, q)
    ensures r.user == q.user
  {
  }

  lemma PermutedUsersDistinct(a: seq<Row>, b: seq<Row>)
    requires DistinctUsers(a) && multiset(a) == multiset(b)
    ensures DistinctUsers(b)
  {
    SameRows(a, b);
    forall i, j | 0 <= i < j < |b| ensures b[i].user != b[j].user {
      assert b[i] in b && b[j] in b;
      PairDiffers(a, b, i, j);
      if b[i].user == b[j].user {
        RowOfIs(a, b[i]);
        RowOfIs(a, b[j]);
        assert false;
      }
    }
  }

  lemma PairDiffers(a: seq<Row>, b: seq<Row>, i: int, j: int)
    requires DistinctUsers(a) && multiset(a) == multiset(b) && 0 <= i < j < |b|
    ensures b[i] != b[j]
  {
    if b[i] == b[j] {
      assert b == b[..i] + [b[i]] + b[i + 1..j] + [b[j]] + b[j + 1..];
      assert multiset(b)[b[i]] >= 2;
      CountsOnce(a, b[i]);
      assert false;
    }
  }

  lemma SameRowOf(a: seq<Row>, b: seq<Row>, u: Id)
    requires DistinctUsers(a) && DistinctUsers(b) && multiset(a) == multiset(b)
    ensures RowOf(a, u) == RowOf(b, u) && (HasUser(a, u) <==> HasUser(b, u))
  {
    SameRows(a, b);
    if RowOf(a, u).Some? {
      RowOfIs(b, RowOf(a, u).value);
    }
    if RowOf(b, u).Some? {
      RowOfIs(a, RowOf(b, u).value);
    }
  }

  lemma PermutedSlotsClear(rule: SlotRule, a: seq<Row>, b: seq<Row>)
    requires SlotsClear(rule, a) && DistinctUsers(a) && multiset(a) == multiset(b)
    ensures SlotsClear(rule, b)
  {
    if rule.Slots? {
      SameRows(a, b);
      forall i, j | 0 <= i < j < |b| && b[i].depth != 0 && b[j].depth != 0
        ensures !(b[i].parent == b[j].parent && b[i].position == b[j].position)
      {
        PairDiffers(a, b, i, j);
        assert b[i] in b && b[j] in b;
        var x :| 0 <= x < |a| && a[x] == b[i];
        var y :| 0 <= y < |a| && a[y] == b[j];
      }
    }
  }

  lemma PermutedOneRoot(a: seq<Row>, b: seq<Row>)
    requires OneRoot(a) && forall n :: n in a <==> n in b
    ensures OneRoot(b)
  {
    assert forall r :: IsRoot(a, r) <==> IsRoot(b, r);
  }

  lemma ValidIgnoresListing(rule: SlotRule, a: seq<Row>, b: seq<Row>)
    requires Valid(rule, a) && multiset(a) == multiset(b)
    ensures Valid(rule, b)
  {
    hide OneRoot, DistinctUsers, SlotsClear, HasUser, RowOf;
    SameRows(a, b);
    PermutedUsersDistinct(a, b);
    PermutedSlotsClear(rule, a, b);
    PermutedOneRoot(a, b);
    forall n | n in b && n.depth != 0 ensures ChildOk(rule, b, n) {
      assert ChildOk(rule, a, n);
      SameRowOf(a, b, n.parent.value);
      SameRowOf(a, b, n.sponsor.value);
    }
  }

  /** Preflight's verdict is the same however the rows are listed. */
  lemma LoadableIgnoresListing(rule: SlotRule, a: seq<Row>, b: seq<Row>)
    requires multiset(a) == multiset(b)
    ensures Loadable(rule, a) <==> Loadable(rule, b)
  {
    hide Valid;
    SameRows(a, b);
    if Valid(rule, a) { ValidIgnoresListing(rule, a, b); }
    if Valid(rule, b) { ValidIgnoresListing(rule, b, a); }
    AcyclicIgnoresListing(a, b);
  }

  lemma AcyclicIgnoresListing(a: seq<Row>, b: seq<Row>)
    requires forall n :: n in a <==> n in b
    ensures Acyclic(a) <==> Acyclic(b)
  {
    assert forall x, y :: DependsOn(a, x, y) <==> DependsOn(b, x, y);
    assert forall path :: IsCycle(a, path) <==> IsCycle(b, path);
  }
}
