/**
 * What a tree stream means: the events that take effect, and the engine tree
 * they build.
 */
module Replay {
  import opened TreeTypes
  import opened EngineTree

  /** The event passes every check made on its payload before an engine call. */
  predicate Acceptable(tree: Id, kind: Kind, p: Payload) {
    match p
    case RootAdded(t, user, _, _, _) => t == tree && user != NIL_ID
    case NodePlaced(t, user, parent, sponsor, position, k, _) =>
      && t == tree && user != NIL_ID && parent != NIL_ID && sponsor != NIL_ID && k == kind
      && (match kind
          case Unilevel => position.None?
          case Binary => position.Some? && 0 <= position.value <= 1)
    case NodeRemoved(t, user, k) => t == tree && user != NIL_ID && (k.None? || k.value == kind)
    case EventRejected(_, _, _, _, _) => false
    case Unreadable(_) => false
  }

  /** A payload refused before any call: unreadable, of another tree or kind, or with an id or position missing. */
  predicate Malformed(tree: Id, kind: Kind, p: Payload) {
    match p
    case RootAdded(t, user, _, _, _) => t != tree || user == NIL_ID
    case NodePlaced(t, user, parent, sponsor, position, k, _) =>
      || t != tree || user == NIL_ID || parent == NIL_ID || sponsor == NIL_ID || k != kind
      || position.Some? != kind.Binary? || (position.Some? && position.value != 0 && position.value != 1)
    case NodeRemoved(t, user, k) => t != tree || user == NIL_ID || (k.Some? && k.value != kind)
    case _ => true
  }

  lemma MalformedIs(tree: Id, kind: Kind, p: Payload)
    ensures Malformed(tree, kind, p) <==> !Acceptable(tree, kind, p)
  {
  }

  /** The engine call an event makes. */
  function Mutate(t: Tree, p: Payload): Result<Outcome, Code> {
    match p
    case RootAdded(_, user, _, enrolled, _) => AddRoot(t, user, Unix(enrolled))
    case NodePlaced(_, user, parent, sponsor, position, _, enrolled) =>
      AddNode(t, user, parent, sponsor, position, Unix(enrolled))
    case NodeRemoved(_, user, _) => RemoveNode(t, user)
    case EventRejected(_, _, _, _, _) => Err(MissingParam)
    case Unreadable(_) => Err(MissingParam)
  }

  /** The event's checks pass and the engine takes it. */
  predicate Applies(tree: Id, t: Tree, p: Payload) {
    Acceptable(tree, t.kind, p) && Mutate(t, p).Ok?
  }

  /** The tree after the events, or None when one of them does not apply. */
  function ReplayFrom(tree: Id, t0: Tree, evs: seq<Event>): Option<Tree> {
    if evs == [] then Some(t0)
    else
      var t := ReplayFrom(tree, t0, Init(evs));
      if t.Some? && Applies(tree, t.value, Last(evs).payload)
      then Some(Mutate(t.value, Last(evs).payload).value.tree)
      else None
  }

  /** rejection names prev: its id, its version and its type. */
  predicate Names(tree: Id, rejection: Event, prev: Event) {
    && rejection.payload.EventRejected?
    && rejection.payload.tree == tree
    && rejection.payload.rejectedId == prev.id
    && rejection.payload.rejectedVersion == prev.version
    && rejection.payload.rejectedType == prev.Type()
    && prev.Rejectable()
  }

  /** Every event is a tree event, and every rejection names the event directly before it. */
  predicate WellRejected(tree: Id, evs: seq<Event>) {
    forall i :: 0 <= i < |evs| ==> Fits(tree, evs, i)
  }

  predicate Fits(tree: Id, evs: seq<Event>, i: int)
    requires 0 <= i < |evs|
  {
    if evs[i].IsRejection() then i > 0 && Names(tree, evs[i], evs[i - 1]) else evs[i].Rejectable()
  }

  /** The events that take effect: all but the rejections and what they name. */
  function Effective(evs: seq<Event>): seq<Event> {
    if evs == [] then []
    else if !Last(evs).IsRejection() then Effective(Init(evs)) + [Last(evs)]
    else if |evs| == 1 then []
    else Effective(evs[..|evs| - 2])
  }

  // ----- Laws -----

  lemma WellRejectedPrefix(tree: Id, a: seq<Event>, b: seq<Event>)
    requires WellRejected(tree, a + b)
    ensures WellRejected(tree, a)
  {
    forall i | 0 <= i < |a| ensures Fits(tree, a, i) {
      assert Fits(tree, a + b, i);
      assert (a + b)[i] == a[i];
      if i > 0 { assert (a + b)[i - 1] == a[i - 1]; }
    }
  }

  lemma {:induction false} ReplayConcat(tree: Id, t0: Tree, a: seq<Event>, b: seq<Event>)
    ensures ReplayFrom(tree, t0, a + b) ==
            var t := ReplayFrom(tree, t0, a);
            if t.Some? then ReplayFrom(tree, t.value, b) else None
  {
    if b == [] {
      assert a + b == a;
    } else {
      ReplayConcat(tree, t0, a, Init(b));
      assert Init(a + b) == a + Init(b);
    }
  }

  lemma ReplayAppend(tree: Id, t0: Tree, evs: seq<Event>, e: Event)
    ensures ReplayFrom(tree, t0, evs + [e]) ==
            var t := ReplayFrom(tree, t0, evs);
            if t.Some? && Applies(tree, t.value, e.payload) then Some(Mutate(t.value, e.payload).value.tree) else None
  {
    InitOfAppend(evs, e);
  }

  lemma EffectiveAppend(evs: seq<Event>, e: Event)
    ensures !e.IsRejection() ==> Effective(evs + [e]) == Effective(evs) + [e]
    ensures e.IsRejection() && evs != [] ==> Effective(evs + [e]) == Effective(Init(evs))
  {
    InitOfAppend(evs, e);
    if evs != [] {
      assert (evs + [e])[..|evs + [e]| - 2] == Init(evs);
    }
  }

  /**
   * Splitting a stream keeps its meaning exactly when the tail does not start
   * with a rejection: that rejection would reach back across the split.
   */
  lemma {:induction false} EffectiveSplits(tree: Id, a: seq<Event>, b: seq<Event>)
    requires WellRejected(tree, a + b)
    ensures Effective(a + b) == Effective(a) + Effective(b) <==> !(b != [] && b[0].IsRejection())
    decreases |b|
  {
    if b == [] {
      assert a + b == a;
    } else if b[0].IsRejection() {
      assert (a + b)[|a|] == b[0];
      RejectedHeadIsShorter(tree, a, b);
    } else {
      EffectiveSplitsAt(tree, a, b);
    }
  }

  lemma {:induction false} EffectiveSplitsAt(tree: Id, a: seq<Event>, b: seq<Event>)
    requires WellRejected(tree, a + b)
    requires b == [] || !b[0].IsRejection()
    ensures Effective(a + b) == Effective(a) + Effective(b)
    decreases |b|
  {
    hide WellRejected;
    if b == [] {
      assert a + b == a;
    } else if !Last(b).IsRejection() {
      assert a + b == (a + Init(b)) + [Last(b)];
      WellRejectedPrefix(tree, a + Init(b), [Last(b)]);
      EffectiveSplitsAt(tree, a, Init(b));
      EffectiveAppend(a + Init(b), Last(b));
    } else {
      var c := b[..|b| - 2];
      assert Last(a + b) == Last(b) && (a + b)[..|a + b| - 2] == a + c;
      assert a + b == (a + c) + b[|b| - 2..];
      WellRejectedPrefix(tree, a + c, b[|b| - 2..]);
      EffectiveSplitsAt(tree, a, c);
    }
  }

  lemma {:induction false} RejectedHeadIsShorter(tree: Id, a: seq<Event>, b: seq<Event>)
    requires WellRejected(tree, a + b)
    requires b != [] && b[0].IsRejection()
    ensures |Effective(a + b)| < |Effective(a) + Effective(b)|
    decreases |b|
  {
    assert (a + b)[|a|] == b[0];
    assert Fits(tree, a + b, |a|);
    assert a != [] && (a + b)[|a| - 1] == a[|a| - 1] && Names(tree, b[0], a[|a| - 1]);
    assert Effective(a) == Effective(Init(a)) + [Last(a)];
    if |b| == 1 {
      assert a + b == a + [b[0]];
      EffectiveAppend(a, b[0]);
    } else if !Last(b).IsRejection() {
      assert a + b == (a + Init(b)) + [Last(b)];
      WellRejectedPrefix(tree, a + Init(b), [Last(b)]);
      RejectedHeadIsShorter(tree, a, Init(b));
      EffectiveAppend(a + Init(b), Last(b));
    } else {
      var c := b[..|b| - 2];
      assert Fits(tree, a + b, |a| + |b| - 1);
      assert (a + b)[|a| + |b| - 2] == b[|b| - 2];
      assert (a + b)[|a| + |b| - 1] == Last(b);
      assert Names(tree, Last(b), b[|b| - 2]);
      assert c != [];
      assert (a + b)[..|a + b| - 2] == a + c;
      assert a + b == (a + c) + b[|b| - 2..];
      WellRejectedPrefix(tree, a + c, b[|b| - 2..]);
      RejectedHeadIsShorter(tree, a, c);
    }
  }

  /** A replay of well-formed steps stays well formed and keeps its kind. */
  lemma {:induction false} ReplayKeepsShape(tree: Id, t0: Tree, evs: seq<Event>)
    requires WellFormed(t0.kind, t0.nodes)
    ensures var r := ReplayFrom(tree, t0, evs); r.Some? ==> r.value.kind == t0.kind && WellFormed(t0.kind, r.value.nodes)
  {
    if evs != [] {
      ReplayKeepsShape(tree, t0, Init(evs));
      var t := ReplayFrom(tree, t0, Init(evs));
      if t.Some? { MutateKeepsShape(t.value, Last(evs).payload); }
    }
  }

  lemma MutateKeepsShape(t: Tree, p: Payload)
    requires WellFormed(t.kind, t.nodes)
    ensures var r := Mutate(t, p); r.Ok? ==> r.value.tree.kind == t.kind && WellFormed(t.kind, r.value.tree.nodes)
  {
    match p
    case RootAdded(_, user, _, enrolled, _) => AddRootKeepsShape(t, user, Unix(enrolled));
    case NodePlaced(_, user, parent, sponsor, position, _, enrolled) =>
      AddNodeKeepsShape(t, user, parent, sponsor, position, Unix(enrolled));
    case NodeRemoved(_, user, _) => RemoveNodeKeepsShape(t, user);
    case EventRejected(_, _, _, _, _) =>
    case Unreadable(_) =>
  }

  function RootOf(t: Tree): Option<Id> {
    if t.nodes == [] then None else Some(t.nodes[0].user)
  }

  /** How a mutation moves the root: only a root_added sets it, only its own removal clears it. */
  lemma RootAfterMutation(t: Tree, p: Payload)
    requires WellFormed(t.kind, t.nodes) && Mutate(t, p).Ok?
    ensures var r := RootOf(Mutate(t, p).value.tree);
            match p
            case RootAdded(_, user, _, _, _) => r == Some(user)
            case NodeRemoved(_, user, _) => r == if RootOf(t) == Some(user) then None else RootOf(t)
            case _ => r == RootOf(t)
  {
    match p
    case RootAdded(_, user, _, enrolled, _) =>
      AddRootKeepsShape(t, user, Unix(enrolled));
      assert t.nodes == [];
    case NodePlaced(_, user, parent, sponsor, position, _, enrolled) =>
      LookupMember(t.nodes, parent);
    case NodeRemoved(_, user, _) =>
      LookupMember(t.nodes, user);
      if t.nodes[0].user == user {
        ChildlessRootIsAlone(t.kind, t.nodes);
        assert t.nodes == [t.nodes[0]] && Init(t.nodes) == [];
        assert Dropped(Init(t.nodes), user, TargetOf(t.nodes, user)) == [];
      } else {
        FirstSurvives(t.nodes, user, TargetOf(t.nodes, user));
      }
    case EventRejected(_, _, _, _, _) =>
    case Unreadable(_) =>
  }

  lemma {:induction false} FirstSurvives(nodes: seq<Node>, u: Id, target: Option<Id>)
    requires nodes != [] && nodes[0].user != u
    ensures Dropped(nodes, u, target) != [] && Dropped(nodes, u, target)[0].user == nodes[0].user
  {
    if |nodes| > 1 {
      FirstSurvives(Init(nodes), u, target);
    } else {
      assert Init(nodes) == [];
      assert Dropped([], u, target) == [];
    }
  }
}
