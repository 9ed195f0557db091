/**
 * What a load rebuilds, and why restoring a snapshot and replaying the events
 * after it gives what replaying the whole stream gives.
 */
module Building {
  import opened TreeTypes
  import opened EngineTree
  import opened TreeStore
  import opened Agreement
  import opened Replay
  import opened Protocol
  import opened ReplayStream
  import opened StoredRows
  import opened TreeMembership
  import LoaderRules

  /** The tree a load through version p must leave in the engine, for the kind the load goes ahead with. */
  function Target(tree: Id, kind: Kind, log: seq<Event>, p: int): Option<Tree>
    requires 0 <= p <= |log|
  {
    ReplayFrom(tree, Tree(kind, []), Effective(log[..p]))
  }

  /** The kind is the one version 1 records, or any kind for an empty stream. */
  predicate KindFits(kind: Kind, log: seq<Event>) {
    log != [] ==> kind == KindOf(log)
  }

  lemma TargetIsThrough(tree: Id, kind: Kind, log: seq<Event>, p: int)
    requires 0 <= p <= |log| && KindFits(kind, log)
    ensures log != [] ==> Target(tree, kind, log, p) == Through(tree, log, p)
    ensures log == [] ==> Target(tree, kind, log, p) == Some(Tree(kind, [])) && Through(tree, log, p).Some?
  {
  }

  /** What the target is worth in a state the protocol can reach. */
  lemma TargetFacts(tree: Id, kind: Kind, w: World)
    requires Inv(tree, w) && KindFits(kind, w.log)
    ensures var t := Target(tree, kind, w.log, Projected(tree, w));
            && (t.Some? <==> Through(tree, w.log, Projected(tree, w)).Some?)
            && (t.Some? ==> t.value.kind == kind && WellFormed(kind, t.value.nodes) && Held(w.store.nodes, tree) == t.value.nodes)
  {
    var p := Projected(tree, w);
    TargetIsThrough(tree, kind, w.log, p);
    ReplayKeepsShape(tree, Tree(kind, []), Effective(w.log[..p]));
  }

  // ----- Rows and preflight -----

  /** Preflight on the rows as read passes exactly when the load has a target. */
  lemma RowsLoad(tree: Id, kind: Kind, w: World, rows: seq<Row>)
    requires Inv(tree, w) && KindFits(kind, w.log)
    requires multiset(rows) == multiset(ActiveRows(w.store.nodes, tree))
    ensures LoaderRules.Loadable(LoaderRules.RuleFor(kind), rows) <==> Through(tree, w.log, Projected(tree, w)).Some?
  {
    hide Through, LoaderRules.Loadable, RowOk, RejectedForCause;
    LoaderRules.LoadableIgnoresListing(LoaderRules.RuleFor(kind), ActiveRows(w.store.nodes, tree), rows);
    if w.log == [] {
      NoRowsYet(tree, w);
      WellFormedLoads(kind, w.store.nodes, tree);
    } else {
      PreflightMatchesReplay(tree, w);
    }
  }

  lemma NoRowsYet(tree: Id, w: World)
    requires Inv(tree, w) && w.log == []
    ensures w.store.nodes == [] && Projected(tree, w) == 0 && Through(tree, w.log, 0).Some?
  {
    FirstAppend(tree, w, Event(NIL_ID, 1, Unreadable(ForeignType)));
  }

  lemma RowsMatchTarget(tree: Id, kind: Kind, w: World, t: Tree, rows: seq<Row>)
    requires Inv(tree, w) && KindFits(kind, w.log) && Target(tree, kind, w.log, Projected(tree, w)) == Some(t)
    requires multiset(rows) == multiset(ActiveRows(w.store.nodes, tree))
    ensures rows == [] <==> t.nodes == []
    ensures rows != [] ==>
              && RootOf(t) == Some(RootOfRows(rows)) && Holds(t.nodes, RootOfRows(rows))
              && Reported(t, RootOfRows(rows)) == RowMembers(rows)
              && forall r :: r in rows && r.depth == 0 ==> r.user == RootOfRows(rows)
  {
    hide Inv, Target;
    TargetFacts(tree, kind, w);
    ActiveRowsHeld(w.store.nodes, tree);
    LoaderRules.SameRows(ActiveRows(w.store.nodes, tree), rows);
    assert t.nodes == [] <==> rows == [] by {
      HeldMembers(w.store.nodes, tree);
      if t.nodes != [] { assert t.nodes[0] in t.nodes; }
      if rows != [] { assert rows[0] in rows; }
    }
    if rows != [] {
      AgreementIsMembership(kind, w.store.nodes, tree, t, rows);
      OneRootRow(kind, w.store.nodes, tree, rows);
    }
  }

  lemma OneRootRow(kind: Kind, all: seq<Row>, tree: Id, rows: seq<Row>)
    requires WellFormed(kind, Held(all, tree)) && rows != [] && multiset(rows) == multiset(ActiveRows(all, tree))
    ensures forall r :: r in rows && r.depth == 0 ==> r.user == RootOfRows(rows)
  {
    var act := ActiveRows(all, tree);
    ActiveRowsHeld(all, tree);
    LoaderRules.SameRows(act, rows);
    assert rows[0] in rows;
    assert act != [];
    WellFormedIsValid(kind, act, tree);
    LoaderRules.ValidIgnoresListing(LoaderRules.RuleFor(kind), act, rows);
    hide LoaderRules.OneRoot;
    forall r | r in rows && r.depth == 0 ensures r.user == RootOfRows(rows) {
      assert LoaderRules.IsRoot(rows, r);
      RootOfRowsIs(rows);
      var q :| LoaderRules.IsRoot(rows, q) && q.user == RootOfRows(rows);
      LoaderRules.RootsShareUser(rows, r, q);
    }
  }

  // ----- The two ways to build -----

  /** Replaying the whole stream builds the target, and works exactly when there is one. */
  lemma WholeStream(tree: Id, kind: Kind, log: seq<Event>, p: int)
    requires LogOk(tree, log) && 0 <= p <= |log|
    ensures Numbered(log)
    ensures Replayable(tree, Tree(kind, []), log, 1, p) <==> Target(tree, kind, log, p).Some?
    ensures ReplayFrom(tree, Tree(kind, []), Effective(Range(log, 1, p))) == Target(tree, kind, log, p)
  {
    assert Range(log, 1, p) == log[..p];
    assert log == log[..p] + log[p..];
    WellRejectedPrefix(tree, log[..p], log[p..]);
  }

  lemma {:induction false} WellRejectedSuffix(tree: Id, a: seq<Event>, b: seq<Event>)
    requires WellRejected(tree, a + b) && (b == [] || !b[0].IsRejection())
    ensures WellRejected(tree, b)
  {
    forall i | 0 <= i < |b| ensures Fits(tree, b, i) {
      assert Fits(tree, a + b, |a| + i);
      assert (a + b)[|a| + i] == b[i];
      if i > 0 { assert (a + b)[|a| + i - 1] == b[i - 1]; }
    }
  }

  /** The event after a stored snapshot is never a rejection: a rejection names an event the stream cannot be replayed through. */
  lemma NextAfterSnapshot(tree: Id, w: World)
    requires Inv(tree, w) && w.snap.Some? && w.snap.value.version < |w.log|
    ensures !w.log[w.snap.value.version].IsRejection()
  {
    hide Through;
  }

  /**
   * Restoring the stored snapshot and replaying the events after it builds the
   * target, and works exactly when there is one.
   */
  lemma SnapshotAndTail(tree: Id, w: World)
    requires Inv(tree, w) && w.snap.Some?
    ensures var s, p := w.snap.value, Projected(tree, w);
            && 1 <= s.version <= p <= |w.log| && Numbered(w.log)
            && s.tree.kind == KindOf(w.log) && WellFormed(s.tree.kind, s.tree.nodes)
            && ReplayFrom(tree, s.tree, Effective(Range(w.log, s.version + 1, p))) == Through(tree, w.log, p)
            && (Replayable(tree, s.tree, w.log, s.version + 1, p) <==> Through(tree, w.log, p).Some?)
  {
    var s, p := w.snap.value, Projected(tree, w);
    SnapshotFacts(tree, w);
    ThroughShape(tree, w.log, s.version);
    if s.version < |w.log| { NextAfterSnapshot(tree, w); }
    hide *;
    SnapshotSplit(tree, w.log, s.version, p, s.tree);
  }

  lemma SnapshotSplit(tree: Id, log: seq<Event>, v: int, p: int, t: Tree)
    requires WellRejected(tree, log) && 1 <= v <= p <= |log| && Through(tree, log, v) == Some(t)
    requires v < p ==> !log[v].IsRejection()
    ensures ReplayFrom(tree, t, Effective(Range(log, v + 1, p))) == Through(tree, log, p)
    ensures Replayable(tree, t, log, v + 1, p) <==> Through(tree, log, p).Some?
  {
    hide ReplayFrom, Effective, WellRejected;
    var head, tail := log[..v], Range(log, v + 1, p);
    assert head + tail == log[..p];
    assert log == log[..p] + log[p..];
    SplitReplay(tree, Tree(KindOf(log), []), head, tail, log[p..]);
  }

  lemma SnapshotFacts(tree: Id, w: World)
    requires Inv(tree, w) && w.snap.Some?
    ensures 1 <= w.snap.value.version <= Projected(tree, w) <= |w.log|
    ensures Numbered(w.log) && WellRejected(tree, w.log) && Through(tree, w.log, w.snap.value.version) == Some(w.snap.value.tree)
  {
    hide Through;
  }

  lemma SplitReplay(tree: Id, t0: Tree, head: seq<Event>, tail: seq<Event>, rest: seq<Event>)
    requires WellRejected(tree, (head + tail) + rest) && (tail == [] || !tail[0].IsRejection())
    ensures WellRejected(tree, tail)
    ensures ReplayFrom(tree, t0, Effective(head + tail)) ==
            var t := ReplayFrom(tree, t0, Effective(head));
            if t.Some? then ReplayFrom(tree, t.value, Effective(tail)) else None
  {
    WellRejectedPrefix(tree, head + tail, rest);
    WellRejectedSuffix(tree, head, tail);
    EffectiveSplitsAt(tree, head, tail);
    ReplayConcat(tree, t0, Effective(head), Effective(tail));
  }

  /** A call the full replay had refused names an event the stream cannot be replayed through. */
  lemma RefusedInStream(tree: Id, kind: Kind, log: seq<Event>, p: int, fault: ReplayFault)
    requires LogOk(tree, log) && 0 <= p <= |log| && KindFits(kind, log)
    requires RefusedAt(tree, Tree(kind, []), log, 1, p, fault) && fault.CallRefused?
    ensures var v := fault.event.version; 1 <= v <= p && log[v - 1] == fault.event && Through(tree, log, v).None?
  {
    var v := fault.event.version;
    WholeStream(tree, kind, log, v);
    TargetIsThrough(tree, kind, log, v);
  }

  // ----- Where a store stands when its load goes ahead -----

  /** The store is level with the stream, or one event behind that is not a rejection. */
  predicate WithinOne(tree: Id, w: World) {
    |w.log| <= Projected(tree, w) + 1 && (w.log != [] && Projected(tree, w) < |w.log| ==> !Last(w.log).IsRejection())
  }

  /** In every reachable state a store that is not within one event of its stream waits for a rejection to be projected. */
  lemma WithinOneOrPending(tree: Id, w: World)
    requires Inv(tree, w)
    ensures !WithinOne(tree, w) <==> w.log != [] && Last(w.log).IsRejection() && Projected(tree, w) < |w.log|
    ensures Through(tree, w.log, Projected(tree, w)).None? && WithinOne(tree, w) ==> Projected(tree, w) == |w.log|
  {
    hide Through;
  }

  /** Projecting the rejection a level store ends with changes nothing. */
  lemma RejectionSettled(tree: Id, w: World, at: Time)
    requires Inv(tree, w) && w.log != [] && Last(w.log).IsRejection() && Projected(tree, w) == |w.log|
    ensures Last(w.log).payload.EventRejected?
    ensures ProjectRejection(w.store, tree, Last(w.log).payload.rejectedId, |w.log|, at) == Ok(w.store)
    ensures Through(tree, w.log, |w.log|).Some?
  {
    hide Through;
    var last := |w.log|;
    assert Fits(tree, w.log, last - 1);
    var id := w.log[last - 2].id;
    var rows := w.store.nodes;
    forall i | 0 <= i < |rows| ensures !(rows[i].ActiveIn(tree) && rows[i].id == id) {
      assert rows[i] in rows;
      var v :| WrittenAt(tree, w.log, last, rows[i], v);
    }
    assert Retired(rows, tree, id, at) == rows;
  }
}
