/**
 * The protocol never wedges: from every state it can reach, one load or one
 * rejection brings the store level with a stream that replays, when nothing
 * fails on the way. The exact exception is a placement too deep to store.
 */
module Recovery {
  import opened TreeTypes
  import opened Replay
  import opened Protocol
  import opened Delivery
  import opened Building
  import opened WriterFacts
  import opened TreeWriting

  /** Who an operator names to reject: the last event, or the event a rejection there already names. */
  function ToReject(log: seq<Event>): Id
    requires log != []
  {
    if Last(log).payload.EventRejected? then Last(log).payload.rejectedId else Last(log).id
  }

  method Recover(writer: TreeWriter, kind: Kind, reason: string, id: Id) returns (level: bool)
    requires writer.Valid() && !writer.faulty && writer.engine.held.None? && KindFits(kind, writer.log)
    requires HasText(reason) && forall x :: x in writer.log ==> x.id != id
    modifies writer, writer.store, writer.engine
    ensures writer.Valid() && Reaches(writer.tree, old(writer.Durable()), writer.Durable())
    ensures level ==>
              && Projected(writer.tree, writer.Durable()) == |writer.log|
              && Through(writer.tree, writer.log, |writer.log|).Some?
    ensures level <==> !TooDeep(writer.tree, old(writer.Durable()))
  {
    hide Inv, Through, TooDeep;
    ghost var w := writer.Durable();
    InvBasics(writer.tree, w);
    WithinOneOrPending(writer.tree, w);
    DeepIsBuilt(writer.tree, w);
    TargetIsThrough(writer.tree, kind, w.log, |w.log|);
    var nodes := writer.Load(kind);
    if nodes.Some? {
      return true;
    }
    ghost var mid := writer.Durable();
    InvBasics(writer.tree, mid);
    WithinOneOrPending(writer.tree, mid);
    DeepStays(writer.tree, w, mid);
    PendingIsReadable(writer.tree, mid);
    var _ := writer.engine.DropStructure();
    assert writer.Durable() == mid;
    var r := writer.Reject(ToReject(writer.log), reason, id);
    ReachesTrans(writer.tree, w, mid, writer.Durable());
    return !r.NotRejected? && !r.RejectUnknown?;
  }

  /** A failed load leaves a placement too deep to store where it is, and makes no other. */
  lemma DeepStays(tree: Id, w: World, v: World)
    requires w.log == v.log
    requires v.store == w.store || (Projected(tree, v) == |v.log| && !TooDeep(tree, w))
    ensures TooDeep(tree, w) <==> TooDeep(tree, v)
  {
  }

  lemma PendingIsReadable(tree: Id, w: World)
    requires Inv(tree, w) && w.log != []
    ensures Last(w.log).IsRejection() ==> Last(w.log).payload.EventRejected?
  {
    assert Fits(tree, w.log, |w.log| - 1);
  }
}
