/**
 * The engine worker as the platform sees it: one structure, and calls whose
 * replies can be lost.
 */
module EngineWorker {
  import opened TreeTypes
  import opened EngineTree
  import opened Replay

  /** A mutation's reply. NoAnswer is a call that failed before, or after, it took effect. */
  datatype Reply = Done(moved: seq<Responsored>) | Refused(code: Code) | NoAnswer

  /** The reply to get_position. */
  datatype Position = At(node: Node) | Absent | Unanswered

  datatype RestoreReply = Restored | AlreadyHeld | BadData | RestoreUnanswered

  /** The nodes below u, in the order they were added. */
  function Downline(nodes: seq<Node>, u: Id): seq<Node> {
    if nodes == [] then []
    else
      var down := Downline(Init(nodes), u);
      var x := Last(nodes);
      if x.parent == Some(u) || (x.parent.Some? && Holds(down, x.parent.value)) then down + [x] else down
  }

  /** In a well-formed tree everything but the root is below the root. */
  lemma {:induction false} DownlineOfRoot(kind: Kind, nodes: seq<Node>)
    requires WellFormed(kind, nodes) && nodes != []
    ensures [nodes[0]] + Downline(nodes, nodes[0].user) == nodes
  {
    if |nodes| == 1 {
      RootIsFirst(kind, nodes);
      assert nodes == [nodes[0]] && Init(nodes) == [];
      assert Downline(Init(nodes), nodes[0].user) == [];
    } else {
      var prev, x, root := Init(nodes), Last(nodes), nodes[0].user;
      DownlineOfRoot(kind, prev);
      var down := Downline(prev, root);
      assert nodes == prev + [x] && prev == [nodes[0]] + down;
      LookupMember(prev, x.parent.value);
      var q :| q in prev && q.user == x.parent.value;
      if q in down { LookupMember(down, q.user); }
    }
  }

  class Worker {
    var held: Option<Tree>
    const faulty: bool

    /** The mutations asked of the engine so far, whatever came of them. */
    ghost var calls: seq<Payload>

    constructor (faulty: bool)
      ensures this.faulty == faulty && held == None && calls == []
    {
      this.faulty := faulty;
      held := None;
      calls := [];
    }

    /** Makes the engine call of one event. */
    method Apply(p: Payload) returns (reply: Reply)
      requires held.Some?
      modifies this
      ensures reply.Done? ==> held.Some? && Mutate(old(held).value, p) == Ok(Outcome(held.value, reply.moved))
      ensures reply.Refused? ==> held == old(held) && Mutate(held.value, p) == Err(reply.code)
      ensures reply.NoAnswer? ==>
                held == old(held) || (Mutate(old(held).value, p).Ok? && held == Some(Mutate(old(held).value, p).value.tree))
      ensures !faulty ==> !reply.NoAnswer?
      ensures calls == old(calls) + [p]
    {
      calls := calls + [p];
      var r := Mutate(held.value, p);
      var before: bool, after: bool := *, *;
      if faulty && before {
        return NoAnswer;
      }
      if r.Err? {
        return Refused(r.error);
      }
      held := Some(r.value.tree);
      if faulty && after {
        return NoAnswer;
      }
      return Done(r.value.moved);
    }

    method GetPosition(u: Id) returns (pos: Position)
      requires held.Some?
      ensures pos.At? ==> Lookup(held.value.nodes, u) == Some(pos.node)
      ensures pos.Absent? ==> !Holds(held.value.nodes, u)
      ensures !faulty ==> !pos.Unanswered?
    {
      var fails: bool := *;
      if faulty && fails {
        return Unanswered;
      }
      var n := Lookup(held.value.nodes, u);
      return if n.Some? then At(n.value) else Absent;
    }

    method GetDownline(u: Id) returns (r: Option<seq<Node>>)
      requires held.Some?
      ensures r.Some? ==> Holds(held.value.nodes, u) && r.value == Downline(held.value.nodes, u)
      ensures !faulty && Holds(held.value.nodes, u) ==> r.Some?
    {
      var fails: bool := *;
      if (faulty && fails) || !Holds(held.value.nodes, u) {
        return None;
      }
      return Some(Downline(held.value.nodes, u));
    }

    /** Creates an empty structure, or refuses when one is held. */
    method Create(kind: Kind) returns (ok: bool)
      modifies this
      ensures calls == old(calls)
      ensures ok ==> old(held).None? && held == Some(Tree(kind, []))
      ensures !ok ==> held == old(held) || (old(held).None? && held == Some(Tree(kind, [])))
      ensures !faulty && old(held).None? ==> ok
    {
      var before: bool, after: bool := *, *;
      if (faulty && before) || held.Some? {
        return false;
      }
      held := Some(Tree(kind, []));
      return !(faulty && after);
    }

    /** Restores a snapshot, or refuses when a structure is held or the data does not check out. */
    method Restore(t: Tree) returns (reply: RestoreReply)
      modifies this
      ensures calls == old(calls)
      ensures reply.Restored? ==> old(held).None? && held == Some(t)
      ensures reply.AlreadyHeld? ==> old(held).Some? && held == old(held)
      ensures reply.BadData? ==> old(held).None? && held == None
      ensures reply.RestoreUnanswered? ==> held == old(held) || (old(held).None? && held == Some(t))
      ensures !faulty ==> reply.Restored? || reply.AlreadyHeld?
    {
      var before: bool, bad: bool, after: bool := *, *, *;
      if faulty && before {
        return RestoreUnanswered;
      }
      if held.Some? {
        return AlreadyHeld;
      }
      if faulty && bad {
        return BadData;
      }
      held := Some(t);
      return if faulty && after then RestoreUnanswered else Restored;
    }

    /** Drops the structure and reports whether one existed. */
    method DropStructure() returns (dropped: Option<bool>)
      modifies this
      ensures calls == old(calls)
      ensures dropped.Some? ==> held == None && dropped.value == old(held).Some?
      ensures dropped.None? ==> held == None || held == old(held)
      ensures !faulty ==> dropped.Some?
    {
      var before: bool, after: bool := *, *;
      if faulty && before {
        return None;
      }
      var had := held.Some?;
      held := None;
      return if faulty && after then None else Some(had);
    }

    /** Whether the engine would take the event's call. Nothing changes. */
    method CheckMutation(p: Payload) returns (ok: bool)
      requires held.Some?
      ensures ok ==> Mutate(held.value, p).Ok?
      ensures !faulty ==> (ok <==> Mutate(held.value, p).Ok?)
    {
      var fails: bool := *;
      return !(faulty && fails) && Mutate(held.value, p).Ok?;
    }
  }
}
