/**
 * What holds over every run of the protocol from an empty tree: the laws the
 * stream, the store and the snapshot keep between them.
 */
module ProtocolLaws {
  import opened TreeTypes
  import opened TreeStore
  import opened EngineTree
  import opened Agreement
  import opened Replay
  import opened Protocol
  import opened ReplayStream
  import opened Building
  import opened WriterFacts
  import LoaderRules

  /** The store is never ahead of the stream, and at most two events behind: two only when the stream ends with a rejection. */
  lemma StoreKeepsUp(tree: Id, w: World)
    requires Reachable(tree, w)
    ensures 0 <= Projected(tree, w) <= |w.log| <= Projected(tree, w) + 2
    ensures |w.log| == Projected(tree, w) + 2 ==> Last(w.log).IsRejection()
  {
    hide Reachable, Through;
    ReachableInv(tree, w);
  }

  /**
   * When the stream replays through the projected version, the tree it builds is
   * the tree of the active rows: the same users with the same parents, sponsors,
   * positions, depths and enrolment seconds, in the order they were added. So
   * the comparison a load ends with finds no difference, however the rows are read.
   */
  lemma StoreIsTheReplayedTree(tree: Id, w: World, rows: seq<Row>)
    requires Reachable(tree, w) && 0 <= Projected(tree, w) <= |w.log| && Through(tree, w.log, Projected(tree, w)).Some?
    requires multiset(rows) == multiset(ActiveRows(w.store.nodes, tree))
    ensures var t := Through(tree, w.log, Projected(tree, w)).value;
            && Held(w.store.nodes, tree) == t.nodes
            && Matches(t, RootOf(t), rows)
  {
    hide Reachable, Inv, Target, Matches;
    ReachableInv(tree, w);
    var kind, p := KindOf(w.log), Projected(tree, w);
    TargetIsThrough(tree, kind, w.log, p);
    TargetFacts(tree, kind, w);
    EmptyStreamTarget(tree, w.log, p);
    TargetMatches(tree, kind, w, Through(tree, w.log, p).value, rows);
  }

  lemma EmptyStreamTarget(tree: Id, log: seq<Event>, p: int)
    requires 0 <= p <= |log|
    ensures Target(tree, KindOf(log), log, p) == Through(tree, log, p)
  {
  }

  /**
   * A rejection never names a removal whose tombstones landed, and once it is
   * projected no active row carries the rejected event's id. So projecting it
   * undoes all the rejected event did.
   */
  lemma RejectionUndoesWhole(tree: Id, w: World, i: int)
    requires Reachable(tree, w) && 0 < i < |w.log| && w.log[i].IsRejection()
    ensures Names(tree, w.log[i], w.log[i - 1])
    ensures !Stamped(w.store.nodes, tree, w.log[i - 1].id)
    ensures i < Projected(tree, w) ==> forall r :: r in w.store.nodes && r.Active() ==> r.id != w.log[i - 1].id
  {
    hide Reachable, Through;
    ReachableInv(tree, w);
    var p := Projected(tree, w);
    assert Fits(tree, w.log, i);
    assert Through(tree, w.log, i).None?;
    forall r | r in w.store.nodes
      ensures r.removedBy != Some(w.log[i - 1].id)
      ensures i < p && r.Active() ==> r.id != w.log[i - 1].id
    {
      RejectedLeavesNoRow(tree, w.log, p, r, i);
    }
  }

  lemma RejectedLeavesNoRow(tree: Id, log: seq<Event>, p: int, r: Row, i: int)
    requires LogOk(tree, log) && 0 <= p <= |log| && RowOk(tree, log, p, r)
    requires 0 < i < |log| && Through(tree, log, i).None?
    ensures r.removedBy != Some(log[i - 1].id)
    ensures i < p && r.Active() ==> r.id != log[i - 1].id
  {
    hide Through, WellRejected;
    var v :| WrittenAt(tree, log, p, r, v);
    if r.removedBy.Some? {
      var u :| StampedAt(tree, log, p, r.removedBy.value, u);
    }
  }

  /** A projected rejection puts the active rows back to the tree before the event it names. */
  lemma RejectionRestoresTree(tree: Id, w: World)
    requires Reachable(tree, w) && w.log != [] && Last(w.log).IsRejection() && Projected(tree, w) == |w.log|
    ensures |w.log| >= 2 && Through(tree, w.log, |w.log| - 2).Some?
    ensures Held(w.store.nodes, tree) == Through(tree, w.log, |w.log| - 2).value.nodes
  {
    hide Reachable, Through;
    ReachableInv(tree, w);
    RejectionSettled(tree, w, 0);
    assert Fits(tree, w.log, |w.log| - 1);
    ThroughRejection(tree, w.log, |w.log|);
  }

  /**
   * A stored snapshot is always one a load can use, and restoring it and
   * replaying the events after it gives what replaying the whole stream through
   * the projected version gives.
   */
  lemma SnapshotIsAsGoodAsTheStream(tree: Id, w: World)
    requires Reachable(tree, w) && w.snap.Some?
    ensures var s, p := w.snap.value, Projected(tree, w);
            && 1 <= s.version <= p <= |w.log|
            && !Unusable(KindOf(w.log), p, s, if s.version < |w.log| then Some(w.log[s.version]) else None)
            && ReplayFrom(tree, s.tree, Effective(Range(w.log, s.version + 1, p))) == Through(tree, w.log, p)
  {
    hide Reachable, Inv, Through, Unusable;
    ReachableInv(tree, w);
    SnapshotAndTail(tree, w);
    StoredSnapshotIsUsable(tree, w, KindOf(w.log));
  }

  /**
   * From a tree that was right at version v, the rest of the stream can be
   * replayed exactly when the whole can and the next event is not a rejection;
   * the result is then the whole stream's. A rejection there reaches back to an
   * event the replay does not hold, and stops it.
   */
  lemma RejectionStopsTheTail(tree: Id, log: seq<Event>, v: int, p: int, t: Tree)
    requires WellRejected(tree, log) && 1 <= v <= p <= |log| && Through(tree, log, v) == Some(t)
    ensures Replayable(tree, t, log, v + 1, p) <==> Through(tree, log, p).Some? && !(v < p && log[v].IsRejection())
    ensures Replayable(tree, t, log, v + 1, p) ==> ReplayFrom(tree, t, Effective(Range(log, v + 1, p))) == Through(tree, log, p)
  {
    hide ReplayFrom, Effective, Through;
    if v < p && log[v].IsRejection() {
      assert Range(log, v + 1, p)[0] == log[v];
      assert !Fits(tree, Range(log, v + 1, p), 0);
    } else {
      SnapshotSplit(tree, log, v, p, t);
    }
  }

  /** Preflight refuses the rows exactly when a placement's row landed and its engine call can never run. */
  lemma PreflightFindsStuckRows(tree: Id, w: World, rows: seq<Row>)
    requires Reachable(tree, w) && 0 <= Projected(tree, w) <= |w.log|
    requires multiset(rows) == multiset(ActiveRows(w.store.nodes, tree))
    ensures LoaderRules.Loadable(LoaderRules.RuleFor(KindOf(w.log)), rows) <==> Through(tree, w.log, Projected(tree, w)).Some?
  {
    hide Reachable, Inv, Through, LoaderRules.Loadable;
    ReachableInv(tree, w);
    RowsLoad(tree, KindOf(w.log), w, rows);
  }
}
