/**
 * The engine's unilevel and binary trees.
 *
 * The worker keeps nodes in an arena and links them by slot. Here a tree is the
 * sequence of its nodes in the order they were added, and links are user ids.
 */
module EngineTree {
  import opened TreeTypes

  datatype Node = Node(
    user: Id,
    parent: Option<Id>,
    sponsor: Option<Id>,
    position: Option<int>,
    depth: int,
    enrolled: int)

  datatype Tree = Tree(kind: Kind, nodes: seq<Node>)

  datatype Code =
    | UserAlreadyExists
    | RootAlreadyExists
    | UserNotFound
    | SponsorNotFound
    | PositionOccupied
    | InvalidPosition
    | MissingParam
    | HasChildren
    | SponsorlessWithRecruits
    | SponsorCycle
    | NilUserId
    | TreeExists
    | StructureNotFound
    | BadSnapshot

  /** What a mutation that ran returned: the new tree and the recruits it re-sponsored. */
  datatype Outcome = Outcome(tree: Tree, moved: seq<Responsored>)

  // ----- Lookups -----

  function Lookup(nodes: seq<Node>, u: Id): Option<Node> {
    if nodes == [] then None
    else if Last(nodes).user == u then Some(Last(nodes))
    else Lookup(Init(nodes), u)
  }

  predicate Holds(nodes: seq<Node>, u: Id) {
    Lookup(nodes, u).Some?
  }

  predicate HasRoot(nodes: seq<Node>) {
    exists n :: n in nodes && n.parent.None?
  }

  predicate HasChild(nodes: seq<Node>, u: Id) {
    exists n :: n in nodes && n.parent == Some(u)
  }

  predicate SlotTaken(nodes: seq<Node>, parent: Id, position: int) {
    exists n :: n in nodes && n.parent == Some(parent) && n.position == Some(position)
  }

  /** The users node u sponsors, in the order they were added. */
  function Recruits(nodes: seq<Node>, u: Id): seq<Id> {
    if nodes == [] then []
    else if Last(nodes).sponsor == Some(u) && Last(nodes).user != u then Recruits(Init(nodes), u) + [Last(nodes).user]
    else Recruits(Init(nodes), u)
  }

  // ----- Mutations -----

  function AddRoot(t: Tree, user: Id, enrolled: int): Result<Outcome, Code> {
    if user == NIL_ID then Err(NilUserId)
    else if HasRoot(t.nodes) then Err(RootAlreadyExists)
    else if Holds(t.nodes, user) then Err(UserAlreadyExists)
    else Ok(Outcome(t.(nodes := t.nodes + [Node(user, None, None, None, 0, enrolled)]), []))
  }

  /** The position rule runs before any lookup, as the worker's parameter parsing and range check do. */
  function PositionFault(kind: Kind, user: Id, position: Option<int>): Option<Code> {
    match kind
    case Unilevel => if user == NIL_ID then Some(NilUserId) else None
    case Binary =>
      if position.None? || position.value < 0 then Some(MissingParam)
      else if user == NIL_ID then Some(NilUserId)
      else if position.value > 1 then Some(InvalidPosition)
      else None
  }

  function AddNode(t: Tree, user: Id, parent: Id, sponsor: Id, position: Option<int>, enrolled: int): Result<Outcome, Code> {
    var fault := PositionFault(t.kind, user, position);
    if fault.Some? then Err(fault.value)
    else if Holds(t.nodes, user) then Err(UserAlreadyExists)
    else
      var p := Lookup(t.nodes, parent);
      if p.None? then Err(UserNotFound)
      else if !Holds(t.nodes, sponsor) then Err(SponsorNotFound)
      else if t.kind.Binary? && SlotTaken(t.nodes, parent, position.value) then Err(PositionOccupied)
      else
        var at := if t.kind.Binary? then position else None;
        Ok(Outcome(t.(nodes := t.nodes + [Node(user, Some(parent), Some(sponsor), at, p.value.depth + 1, enrolled)]), []))
  }

  /** The nodes left when u goes and each of its recruits is moved to target. */
  function Dropped(nodes: seq<Node>, u: Id, target: Option<Id>): seq<Node> {
    if nodes == [] then []
    else if Last(nodes).user == u then Dropped(Init(nodes), u, target)
    else Dropped(Init(nodes), u, target) + [Redirected(Last(nodes), u, target)]
  }

  function Redirected(n: Node, u: Id, target: Option<Id>): Node {
    if n.sponsor == Some(u) then n.(sponsor := target) else n
  }

  function Moves(recruits: seq<Id>, target: Id): seq<Responsored> {
    if recruits == [] then [] else Moves(Init(recruits), target) + [Responsored(Last(recruits), target)]
  }

  /** Who a removal of user moves its recruits to, when it has any. */
  function TargetOf(nodes: seq<Node>, user: Id): Option<Id>
    requires Holds(nodes, user)
  {
    if Recruits(nodes, user) == [] then None else Lookup(nodes, user).value.sponsor
  }

  function RemoveNode(t: Tree, user: Id): Result<Outcome, Code> {
    if !Holds(t.nodes, user) then Err(UserNotFound)
    else if HasChild(t.nodes, user) then Err(HasChildren)
    else
      var recruits := Recruits(t.nodes, user);
      var target := TargetOf(t.nodes, user);
      if recruits == [] then Ok(Outcome(t.(nodes := Dropped(t.nodes, user, target)), []))
      else if target.None? then Err(SponsorlessWithRecruits)
      else if target.value == user || target.value in recruits then Err(SponsorCycle)
      else Ok(Outcome(t.(nodes := Dropped(t.nodes, user, target)), Moves(recruits, target.value)))
  }

  // ----- Shape -----

  /** x may follow prev: it is the root of an empty tree, or hangs from nodes already there. */
  predicate Follows(kind: Kind, prev: seq<Node>, x: Node) {
    && x.user != NIL_ID
    && !Holds(prev, x.user)
    && if prev == [] then
         x.parent.None? && x.sponsor.None? && x.position.None? && x.depth == 0
       else
         && x.parent.Some?
         && x.sponsor.Some?
         && Holds(prev, x.parent.value)
         && Holds(prev, x.sponsor.value)
         && x.depth == Lookup(prev, x.parent.value).value.depth + 1
         && match kind
            case Unilevel => x.position.None?
            case Binary =>
              && x.position.Some?
              && 0 <= x.position.value <= 1
              && !SlotTaken(prev, x.parent.value, x.position.value)
  }

  /** Every node follows the nodes before it. */
  predicate WellFormed(kind: Kind, nodes: seq<Node>) {
    nodes == [] || (WellFormed(kind, Init(nodes)) && Follows(kind, Init(nodes), Last(nodes)))
  }

  lemma {:induction false} LookupMember(nodes: seq<Node>, u: Id)
    ensures Holds(nodes, u) ==> Lookup(nodes, u).value in nodes && Lookup(nodes, u).value.user == u
    ensures (exists n :: n in nodes && n.user == u) ==> Holds(nodes, u)
  {
    if nodes != [] {
      LookupMember(Init(nodes), u);
      assert nodes == Init(nodes) + [Last(nodes)];
    }
  }

  lemma LookupAppend(nodes: seq<Node>, x: Node, u: Id)
    ensures Lookup(nodes + [x], u) == if x.user == u then Some(x) else Lookup(nodes, u)
  {
    InitOfAppend(nodes, x);
  }

  lemma AppendWellFormed(kind: Kind, nodes: seq<Node>, x: Node)
    requires WellFormed(kind, nodes) && Follows(kind, nodes, x)
    ensures WellFormed(kind, nodes + [x])
  {
    InitOfAppend(nodes, x);
  }

  /** The first node is the root, and it is the only node without a parent. */
  lemma {:induction false} RootIsFirst(kind: Kind, nodes: seq<Node>)
    requires WellFormed(kind, nodes) && nodes != []
    ensures nodes[0].parent.None? && nodes[0].depth == 0
    ensures forall i :: 0 < i < |nodes| ==> nodes[i].parent.Some? && nodes[i].sponsor.Some? && nodes[i].depth > 0
    ensures forall n :: n in nodes ==> n.depth >= 0
  {
    if |nodes| > 1 {
      RootIsFirst(kind, Init(nodes));
      LookupMember(Init(nodes), Last(nodes).parent.value);
      assert nodes == Init(nodes) + [Last(nodes)];
    }
  }

  lemma {:induction false} UsersDistinct(kind: Kind, nodes: seq<Node>)
    requires WellFormed(kind, nodes)
    ensures forall i, j :: 0 <= i < j < |nodes| ==> nodes[i].user != nodes[j].user
    ensures forall n :: n in nodes ==> Lookup(nodes, n.user) == Some(n)
  {
    if nodes != [] {
      UsersDistinct(kind, Init(nodes));
      LookupMember(Init(nodes), Last(nodes).user);
      assert nodes == Init(nodes) + [Last(nodes)];
    }
  }

  /** A root without children is alone. */
  lemma {:induction false} ChildlessRootIsAlone(kind: Kind, nodes: seq<Node>)
    requires WellFormed(kind, nodes) && nodes != []
    requires !HasChild(nodes, nodes[0].user)
    ensures |nodes| == 1
  {
    if |nodes| > 1 {
      assert nodes == Init(nodes) + [Last(nodes)];
      ChildlessRootIsAlone(kind, Init(nodes));
      LookupMember(Init(nodes), Last(nodes).parent.value);
    }
  }

  /** A node never sponsors anyone added before it. */
  lemma {:induction false} SponsorsComeFirst(kind: Kind, nodes: seq<Node>, u: Id)
    requires WellFormed(kind, nodes) && Holds(nodes, u)
    ensures Lookup(nodes, u).value.sponsor.Some? ==> Lookup(nodes, u).value.sponsor.value != u
    ensures Lookup(nodes, u).value.sponsor.Some? ==> Holds(nodes, Lookup(nodes, u).value.sponsor.value)
    ensures Lookup(nodes, u).value.sponsor.Some? ==> Lookup(nodes, u).value.sponsor.value !in Recruits(nodes, u)
  {
    var prev := Init(nodes);
    if Last(nodes).user == u {
      NoRecruitsBefore(kind, prev, u);
    } else {
      SponsorsComeFirst(kind, prev, u);
    }
  }

  lemma {:induction false} NoRecruitsBefore(kind: Kind, nodes: seq<Node>, u: Id)
    requires WellFormed(kind, nodes) && !Holds(nodes, u)
    ensures Recruits(nodes, u) == []
  {
    if nodes != [] {
      NoRecruitsBefore(kind, Init(nodes), u);
    }
  }

  // ----- What every mutation keeps -----

  lemma AddRootKeepsShape(t: Tree, user: Id, enrolled: int)
    requires WellFormed(t.kind, t.nodes)
    ensures var r := AddRoot(t, user, enrolled); r.Ok? ==> WellFormed(t.kind, r.value.tree.nodes) && t.nodes == []
    ensures t.nodes != [] ==> HasRoot(t.nodes)
  {
    if t.nodes != [] {
      RootIsFirst(t.kind, t.nodes);
      assert t.nodes[0] in t.nodes;
    }
    if AddRoot(t, user, enrolled).Ok? {
      AppendWellFormed(t.kind, t.nodes, Node(user, None, None, None, 0, enrolled));
    }
  }

  lemma AddNodeKeepsShape(t: Tree, user: Id, parent: Id, sponsor: Id, position: Option<int>, enrolled: int)
    requires WellFormed(t.kind, t.nodes)
    ensures var r := AddNode(t, user, parent, sponsor, position, enrolled); r.Ok? ==> WellFormed(t.kind, r.value.tree.nodes)
  {
    var r := AddNode(t, user, parent, sponsor, position, enrolled);
    if r.Ok? {
      AppendWellFormed(t.kind, t.nodes, Last(r.value.tree.nodes));
      InitOfAppend(t.nodes, Last(r.value.tree.nodes));
    }
  }

  lemma {:induction false} LookupDropped(nodes: seq<Node>, u: Id, target: Option<Id>, v: Id)
    requires v != u
    ensures Holds(Dropped(nodes, u, target), v) == Holds(nodes, v)
    ensures Holds(nodes, v) ==> Lookup(Dropped(nodes, u, target), v).value == Redirected(Lookup(nodes, v).value, u, target)
  {
    if nodes != [] {
      LookupDropped(Init(nodes), u, target, v);
      if Last(nodes).user != u {
        LookupAppend(Dropped(Init(nodes), u, target), Redirected(Last(nodes), u, target), v);
      }
    }
  }

  lemma {:induction false} MembersDropped(nodes: seq<Node>, u: Id, target: Option<Id>, n: Node)
    requires n in Dropped(nodes, u, target)
    ensures exists m :: m in nodes && m.user != u && n == Redirected(m, u, target)
  {
    var prev := Init(nodes);
    assert nodes == prev + [Last(nodes)];
    if n in Dropped(prev, u, target) {
      MembersDropped(prev, u, target, n);
    } else {
      assert Last(nodes) in nodes;
    }
  }

  lemma {:induction false} DroppedKeepsShape(kind: Kind, nodes: seq<Node>, u: Id, target: Option<Id>)
    requires WellFormed(kind, nodes)
    requires !HasChild(nodes, u)
    requires forall i :: 0 <= i < |nodes| && nodes[i].sponsor == Some(u) ==> target.Some? && target.value != u && Holds(nodes[..i], target.value)
    ensures WellFormed(kind, Dropped(nodes, u, target))
  {
    if nodes != [] {
      var prev, x := Init(nodes), Last(nodes);
      assert nodes == prev + [x];
      assert forall i :: 0 <= i < |prev| ==> prev[..i] == nodes[..i];
      DroppedKeepsShape(kind, prev, u, target);
      if x.user != u {
        var rest, y := Dropped(prev, u, target), Redirected(x, u, target);
        LookupDropped(prev, u, target, x.user);
        if prev != [] {
          assert x in nodes;
          LookupDropped(prev, u, target, x.parent.value);
          LookupDropped(prev, u, target, y.sponsor.value);
          assert rest != [];
          if kind.Binary? && SlotTaken(rest, x.parent.value, x.position.value) {
            var n :| n in rest && n.parent == x.parent && n.position == x.position;
            MembersDropped(prev, u, target, n);
          }
        }
        AppendWellFormed(kind, rest, y);
      }
    }
  }

  lemma {:induction false} SponsoredComeLater(kind: Kind, nodes: seq<Node>, u: Id, i: int)
    requires WellFormed(kind, nodes) && Holds(nodes, u)
    requires 0 <= i < |nodes| && nodes[i].sponsor == Some(u)
    ensures var s := Lookup(nodes, u).value.sponsor;
            Recruits(nodes, u) != [] && (s.Some? ==> s.value != u && Holds(nodes[..i], s.value))
  {
    var prev, x := Init(nodes), Last(nodes);
    assert nodes == prev + [x];
    if i == |nodes| - 1 {
      assert nodes[..i] == prev;
      assert Holds(prev, u);
      SponsorsComeFirst(kind, prev, u);
    } else {
      assert prev[..i] == nodes[..i];
      if x.user == u {
        SponsorHeld(kind, prev, i);
        LookupMember(prev, u);
      } else {
        SponsoredComeLater(kind, prev, u, i);
      }
    }
  }

  lemma {:induction false} SponsorHeld(kind: Kind, nodes: seq<Node>, i: int)
    requires WellFormed(kind, nodes) && 0 <= i < |nodes| && nodes[i].sponsor.Some?
    ensures Holds(nodes, nodes[i].sponsor.value)
  {
    if i < |nodes| - 1 {
      SponsorHeld(kind, Init(nodes), i);
    }
  }

  /**
   * A removal keeps the shape. On a well-formed tree it is refused only for an
   * absent user or one with children: the two sponsor refusals never happen.
   */
  lemma RemoveNodeKeepsShape(t: Tree, user: Id)
    requires WellFormed(t.kind, t.nodes)
    ensures var r := RemoveNode(t, user); r.Ok? ==> WellFormed(t.kind, r.value.tree.nodes)
    ensures RemoveNode(t, user).Ok? <==> Holds(t.nodes, user) && !HasChild(t.nodes, user)
    ensures RemoveNode(t, user).Err? ==> RemoveNode(t, user).error in {UserNotFound, HasChildren}
  {
    if Holds(t.nodes, user) && !HasChild(t.nodes, user) {
      var target := Lookup(t.nodes, user).value.sponsor;
      SponsorsComeFirst(t.kind, t.nodes, user);
      LookupMember(t.nodes, user);
      RootIsFirst(t.kind, t.nodes);
      if target.None? {
        ChildlessRootIsAlone(t.kind, t.nodes);
        assert t.nodes == [] + [t.nodes[0]];
        InitOfAppend([], t.nodes[0]);
        assert Recruits([], user) == [];
        assert Recruits(t.nodes, user) == [];
      }
      forall i | 0 <= i < |t.nodes| && t.nodes[i].sponsor == Some(user)
        ensures Recruits(t.nodes, user) != [] && target.Some? && target.value != user && Holds(t.nodes[..i], target.value)
      {
        SponsoredComeLater(t.kind, t.nodes, user, i);
      }
      DroppedKeepsShape(t.kind, t.nodes, user, TargetOf(t.nodes, user));
    }
  }

  lemma {:induction false} DroppedIsGone(nodes: seq<Node>, u: Id, target: Option<Id>)
    ensures !Holds(Dropped(nodes, u, target), u)
  {
    if nodes != [] {
      DroppedIsGone(Init(nodes), u, target);
      if Last(nodes).user != u {
        LookupAppend(Dropped(Init(nodes), u, target), Redirected(Last(nodes), u, target), u);
      }
    }
  }

  /** The node a removal of user leaves of n: a recruit goes to the removed user's own sponsor. */
  function HandedOn(nodes: seq<Node>, user: Id, n: Node): Node
    requires Holds(nodes, user)
  {
    if n.sponsor == Some(user) then n.(sponsor := Lookup(nodes, user).value.sponsor) else n
  }

  /**
   * A removal takes the user out and nobody else. Each of its recruits moves to
   * its sponsor, the reply names exactly those moves, and no other node changes.
   */
  lemma RemovalHandsOn(t: Tree, user: Id, v: Id)
    requires WellFormed(t.kind, t.nodes) && RemoveNode(t, user).Ok?
    ensures var r := RemoveNode(t, user).value;
            && Holds(t.nodes, user) && !Holds(r.tree.nodes, user)
            && (v != user ==> Lookup(r.tree.nodes, v) == if Holds(t.nodes, v) then Some(HandedOn(t.nodes, user, Lookup(t.nodes, v).value)) else None)
            && (forall m :: m in r.moved && m.user == v <==>
                              v != user && Holds(t.nodes, v) && Lookup(t.nodes, v).value.sponsor == Some(user) && m == Responsored(v, m.newSponsor)
                              && Lookup(t.nodes, user).value.sponsor == Some(m.newSponsor))
  {
    var recruits, target := Recruits(t.nodes, user), TargetOf(t.nodes, user);
    DroppedIsGone(t.nodes, user, target);
    RecruitsAre(t.kind, t.nodes, user, v);
    if v != user { LookupDropped(t.nodes, user, target, v); }
    if target.Some? { MovesAre(recruits, target.value, v); }
  }

  lemma {:induction false} RecruitsAre(kind: Kind, nodes: seq<Node>, u: Id, v: Id)
    requires WellFormed(kind, nodes)
    ensures v in Recruits(nodes, u) <==> v != u && Holds(nodes, v) && Lookup(nodes, v).value.sponsor == Some(u)
  {
    if nodes != [] { RecruitsAre(kind, Init(nodes), u, v); }
  }

  lemma {:induction false} MovesAre(recruits: seq<Id>, target: Id, v: Id)
    ensures forall m :: m in Moves(recruits, target) && m.user == v <==> v in recruits && m == Responsored(v, target)
  {
    if recruits != [] {
      MovesAre(Init(recruits), target, v);
      assert recruits == Init(recruits) + [Last(recruits)];
    }
  }
}
