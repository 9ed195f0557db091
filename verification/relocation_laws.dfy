/**
 * A removal's relocations can be written one row at a time, in any order: no
 * order puts two active rows in one slot on the way, and all end in the same rows.
 */
module RelocationLaws {
  import opened TreeTypes
  import opened TreeStore
  import opened Agreement
  import opened StoreLaws

  predicate DistinctMoves(ms: seq<Relocation>) {
    forall i, j :: 0 <= i < j < |ms| ==> ms[i].user != ms[j].user
  }

  function MoveFor(ms: seq<Relocation>, u: Id): Option<Relocation> {
    if ms == [] then None
    else if Last(ms).user == u then Some(Last(ms))
    else MoveFor(Init(ms), u)
  }

  lemma {:induction false} MoveForIs(ms: seq<Relocation>, u: Id, m: Relocation)
    requires DistinctMoves(ms)
    ensures MoveFor(ms, u) == Some(m) <==> m in ms && m.user == u
  {
    if ms != [] {
      assert ms == Init(ms) + [Last(ms)];
      MoveForIs(Init(ms), u, m);
    }
  }

  /** What the relocations make of one row. */
  function AfterMoves(r: Row, tree: Id, ms: seq<Relocation>): Row {
    if r.ActiveIn(tree) && MoveFor(ms, r.user).Some? then Moved(r, MoveFor(ms, r.user).value) else r
  }

  /** Each row is moved by its own user's relocation, and by no other. */
  lemma {:induction false} RelocateRowwise(rows: seq<Row>, tree: Id, ms: seq<Relocation>)
    requires ActiveUsersDistinct(rows, tree) && DistinctMoves(ms)
    ensures forall i :: 0 <= i < |rows| ==> Relocate(rows, tree, ms).rows[i] == AfterMoves(rows[i], tree, ms)
  {
    if ms != [] {
      var init, m := Init(ms), Last(ms);
      RelocateRowwise(rows, tree, init);
      var e := Relocate(rows, tree, init);
      forall i | 0 <= i < |rows| ensures Relocate(rows, tree, ms).rows[i] == AfterMoves(rows[i], tree, ms) {
        if rows[i].ActiveIn(tree) && rows[i].user == m.user {
          assert e.rows[i].ActiveIn(tree) && e.rows[i].user == m.user;
          assert rows[FirstActive(e.rows, tree, m.user)].ActiveIn(tree);
          NotMovedBefore(ms, m.user);
        }
      }
    }
  }

  lemma {:induction false} NotMovedBefore(ms: seq<Relocation>, u: Id)
    requires DistinctMoves(ms) && ms != [] && Last(ms).user == u
    ensures MoveFor(Init(ms), u).None?
  {
    if MoveFor(Init(ms), u).Some? {
      MoveForIs(Init(ms), u, MoveFor(Init(ms), u).value);
    }
  }

  /** The rows the relocations hit: the active rows of the users they name. */
  predicate IsHit(rows: seq<Row>, tree: Id, ms: seq<Relocation>, i: int) {
    0 <= i < |rows| && rows[i].ActiveIn(tree) && exists m :: m in ms && m.user == rows[i].user
  }

  lemma {:induction false} HitsAre(rows: seq<Row>, tree: Id, ms: seq<Relocation>)
    requires ActiveUsersDistinct(rows, tree)
    ensures forall i :: i in Relocate(rows, tree, ms).hits <==> IsHit(rows, tree, ms, i)
    ensures |Relocate(rows, tree, ms).hits| <= |ms|
    ensures AllKept(rows, Relocate(rows, tree, ms).rows, tree, false)
    ensures forall i :: 0 <= i < |rows| ==> (Relocate(rows, tree, ms).rows[i].Active() <==> rows[i].Active())
  {
    if ms != [] {
      HitsAre(rows, tree, Init(ms));
      var e := Relocate(rows, tree, Init(ms));
      var k := FirstActive(e.rows, tree, Last(ms).user);
      forall i ensures i in Relocate(rows, tree, ms).hits <==> IsHit(rows, tree, ms, i) {
        HitGrows(rows, tree, ms, i);
        if 0 <= i < |rows| && rows[i].ActiveIn(tree) && rows[i].user == Last(ms).user {
          assert e.rows[i].ActiveIn(tree) && e.rows[i].user == Last(ms).user;
          assert rows[k].ActiveIn(tree);
        }
      }
    }
  }

  lemma HitGrows(rows: seq<Row>, tree: Id, ms: seq<Relocation>, i: int)
    requires ms != []
    ensures IsHit(rows, tree, ms, i) <==>
              IsHit(rows, tree, Init(ms), i) || (0 <= i < |rows| && rows[i].ActiveIn(tree) && rows[i].user == Last(ms).user)
  {
    assert ms == Init(ms) + [Last(ms)];
    assert Last(ms) in ms;
  }

  /** When as many rows are hit as there are relocations, the last of them hits a row of its own. */
  lemma LastHits(rows: seq<Row>, tree: Id, ms: seq<Relocation>) returns (k: int)
    requires ActiveUsersDistinct(rows, tree) && ms != [] && |Relocate(rows, tree, ms).hits| == |ms|
    ensures |Relocate(rows, tree, Init(ms)).hits| == |ms| - 1
    ensures 0 <= k < |rows| && rows[k].ActiveIn(tree) && rows[k].user == Last(ms).user && !IsHit(rows, tree, Init(ms), k)
  {
    HitsAre(rows, tree, Init(ms));
    var e := Relocate(rows, tree, Init(ms));
    k := FirstActive(e.rows, tree, Last(ms).user);
    assert k >= 0 && k !in e.hits;
  }

  /** As many rows hit as relocations: no two relocations name one user. */
  lemma {:induction false} HitsMeanDistinct(rows: seq<Row>, tree: Id, ms: seq<Relocation>)
    requires ActiveUsersDistinct(rows, tree) && |Relocate(rows, tree, ms).hits| == |ms|
    ensures DistinctMoves(ms)
  {
    hide Relocate;
    if ms != [] {
      var init := Init(ms);
      var k := LastHits(rows, tree, ms);
      HitsMeanDistinct(rows, tree, init);
      forall i | 0 <= i < |init| ensures ms[i].user != Last(ms).user {
        assert ms[i] == init[i] && init[i] in init;
      }
    }
  }

  /** And each relocation names a user with an active row. */
  lemma {:induction false} HitsMeanAll(rows: seq<Row>, tree: Id, ms: seq<Relocation>)
    requires ActiveUsersDistinct(rows, tree) && |Relocate(rows, tree, ms).hits| == |ms|
    ensures forall m :: m in ms ==> FirstActive(rows, tree, m.user) >= 0
  {
    hide Relocate;
    if ms != [] {
      var k := LastHits(rows, tree, ms);
      HitsMeanAll(rows, tree, Init(ms));
      assert ms == Init(ms) + [Last(ms)];
    }
  }

  lemma SameMoves(a: seq<Relocation>, b: seq<Relocation>)
    requires multiset(a) == multiset(b)
    ensures |a| == |b| && forall m :: m in a <==> m in b
  {
    assert |a| == |multiset(a)| == |multiset(b)| == |b|;
    forall m ensures m in a <==> m in b {
      assert m in a <==> m in multiset(a);
      assert m in b <==> m in multiset(b);
    }
  }

  lemma ReorderedIsDistinct(rows: seq<Row>, tree: Id, ms: seq<Relocation>, order: seq<Relocation>)
    requires ActiveUsersDistinct(rows, tree) && |Relocate(rows, tree, ms).hits| == |ms| && multiset(order) == multiset(ms)
    ensures DistinctMoves(ms) && DistinctMoves(order)
  {
    SameMoves(order, ms);
    HitsAre(rows, tree, ms);
    HitsAre(rows, tree, order);
    forall i ensures i in Relocate(rows, tree, ms).hits <==> i in Relocate(rows, tree, order).hits {
      if IsHit(rows, tree, ms, i) {
        var m :| m in ms && m.user == rows[i].user;
        assert m in order;
      }
      if IsHit(rows, tree, order, i) {
        var m :| m in order && m.user == rows[i].user;
        assert m in ms;
      }
    }
    assert Relocate(rows, tree, ms).hits == Relocate(rows, tree, order).hits;
    HitsMeanDistinct(rows, tree, ms);
    HitsMeanDistinct(rows, tree, order);
  }

  /** The move a prefix of the order makes for a user, if it makes one, is the whole list's. */
  lemma PrefixMoves(ms: seq<Relocation>, order: seq<Relocation>, k: int, u: Id)
    requires DistinctMoves(ms) && DistinctMoves(order) && 0 <= k <= |order| && forall m :: m in order <==> m in ms
    ensures MoveFor(order[..k], u).Some? ==> MoveFor(order[..k], u) == MoveFor(ms, u) && MoveFor(ms, u).value in ms && MoveFor(ms, u).value.user == u
    ensures k == |order| ==> MoveFor(order[..k], u) == MoveFor(ms, u)
  {
    var head := order[..k];
    if MoveFor(head, u).Some? {
      MoveForIs(head, u, MoveFor(head, u).value);
      MoveForIs(ms, u, MoveFor(head, u).value);
    } else if k == |order| && MoveFor(ms, u).Some? {
      assert head == order;
      MoveForIs(ms, u, MoveFor(ms, u).value);
      MoveForIs(order, u, MoveFor(ms, u).value);
    }
  }

  /** The slot's holder is the one active row in it. */
  lemma HolderIs(rows: seq<Row>, tree: Id, j: int, at: Slot)
    requires SlotsDistinct(rows, tree) && 0 <= j < |rows| && HoldsSlot(rows[j], tree, at)
    ensures SlotHolder(rows, tree, at) == Some(rows[j].user)
  {
    assert rows[j] in rows;
    var r :| r in rows && HoldsSlot(r, tree, at) && r.user == SlotHolder(rows, tree, at).value;
    var x :| 0 <= x < |rows| && rows[x] == r;
    assert HoldsSlot(rows[x], tree, at);
    assert SameSlot(rows[x], rows[j]) && SameSlot(rows[j], rows[x]);
    assert x == j;
  }

  /** A moved row and one not moved yet never share a slot. */
  lemma NoCollision(rows: seq<Row>, tree: Id, i: int, j: int, m: Relocation)
    requires ActiveUsersDistinct(rows, tree) && SlotsDistinct(rows, tree)
    requires 0 <= i < |rows| && 0 <= j < |rows| && i != j && rows[i].ActiveIn(tree) && rows[j].ActiveIn(tree)
    requires m.user == rows[i].user && TargetFree(rows, tree, m)
    ensures !SameSlot(Moved(rows[i], m), rows[j]) && !SameSlot(rows[j], Moved(rows[i], m))
  {
    var at := Slot(m.parent, m.position);
    assert FirstActive(rows, tree, m.user) >= 0;
    if HoldsSlot(rows[j], tree, at) { HolderIs(rows, tree, j, at); }
  }

  lemma PairStaysApart(rows: seq<Row>, tree: Id, ms: seq<Relocation>, order: seq<Relocation>, k: int, i: int, j: int)
    requires ActiveUsersDistinct(rows, tree) && SlotsDistinct(rows, tree) && forall m :: m in ms ==> TargetFree(rows, tree, m)
    requires DistinctMoves(ms) && DistinctMoves(order) && 0 <= k <= |order| && forall m :: m in order <==> m in ms
    requires 0 <= i < j < |rows| && rows[i].ActiveIn(tree) && rows[j].ActiveIn(tree)
    requires !SameSlot(AfterMoves(rows[i], tree, ms), AfterMoves(rows[j], tree, ms))
    ensures !SameSlot(AfterMoves(rows[i], tree, order[..k]), AfterMoves(rows[j], tree, order[..k]))
  {
    hide MoveFor, DistinctMoves, TargetFree;
    PrefixMoves(ms, order, k, rows[i].user);
    PrefixMoves(ms, order, k, rows[j].user);
    var a, b := MoveFor(order[..k], rows[i].user), MoveFor(order[..k], rows[j].user);
    if a.Some? && b.None? {
      NoCollision(rows, tree, i, j, a.value);
    } else if a.None? && b.Some? {
      NoCollision(rows, tree, j, i, b.value);
    }
  }

  lemma RelocationsInAnyOrder(rows: seq<Row>, tree: Id, ms: seq<Relocation>, order: seq<Relocation>, k: int)
    requires ActiveUsersDistinct(rows, tree) && SlotsDistinct(rows, tree) && forall m :: m in ms ==> TargetFree(rows, tree, m)
    requires |Relocate(rows, tree, ms).hits| == |ms| && SlotsDistinct(Relocate(rows, tree, ms).rows, tree)
    requires multiset(order) == multiset(ms) && 0 <= k <= |order|
    ensures SlotsDistinct(Relocate(rows, tree, order[..k]).rows, tree)
    ensures k == |order| ==> Relocate(rows, tree, order).rows == Relocate(rows, tree, ms).rows
  {
    hide TargetFree, MoveFor, Relocate;
    ReorderedIsDistinct(rows, tree, ms, order);
    SameMoves(order, ms);
    RelocateRowwise(rows, tree, ms);
    RelocateRowwise(rows, tree, order[..k]);
    hide DistinctMoves, ActiveUsersDistinct;
    var done, all := Relocate(rows, tree, order[..k]).rows, Relocate(rows, tree, ms).rows;
    forall i, j | 0 <= i < j < |done| && done[i].ActiveIn(tree) && done[j].ActiveIn(tree) ensures !SameSlot(done[i], done[j]) {
      assert all[i].ActiveIn(tree) && all[j].ActiveIn(tree);
      PairStaysApart(rows, tree, ms, order, k, i, j);
    }
    if k == |order| {
      assert order[..k] == order;
      forall i | 0 <= i < |rows| ensures done[i] == all[i] { PrefixMoves(ms, order, k, rows[i].user); }
    }
  }

  /**
   * For a removal the store accepts: from the rows its tombstones and
   * re-sponsorings leave, the relocations in any order pass only through rows
   * with distinct slots, and end in the rows the store staged.
   */
  lemma AcceptedMovesInAnyOrder(rows: seq<Row>, tree: Id, r: Removal, event: Id, now: Time, order: seq<Relocation>, k: int)
    requires Sane(rows) && StageRemoval(rows, tree, r, event, now).Ok?
    requires multiset(order) == multiset(r.relocated) && 0 <= k <= |order|
    ensures var start := Repoint(TombstoneAll(rows, tree, r.users, event, now).value, tree, r.responsored).rows;
            && SlotsDistinct(Relocate(start, tree, order[..k]).rows, tree)
            && (k == |order| ==> Relocate(start, tree, order).rows == StageRemoval(rows, tree, r, event, now).value)
  {
    var gone := TombstoneAll(rows, tree, r.users, event, now).value;
    var start := Repoint(gone, tree, r.responsored).rows;
    TombstonesKeep(rows, tree, r.users, event, now);
    TombstonesKeepSlots(rows, tree, r.users, event, now);
    RepointKeeps(gone, tree, r.responsored);
    KeptUsers(rows, gone, tree);
    KeptUsers(gone, start, tree);
    hide TombstoneAll, Repoint, Relocate, TargetFree, SlotsDistinct, Sane;
    RelocationsInAnyOrder(start, tree, r.relocated, order, k);
  }

  lemma KeptUsers(rows: seq<Row>, after: seq<Row>, tree: Id)
    requires AllKept(rows, after, tree, true) && ActiveUsersDistinct(rows, tree)
    ensures ActiveUsersDistinct(after, tree)
  {
  }

  lemma {:induction false} TombstonesKeepSlots(rows: seq<Row>, tree: Id, users: seq<Id>, event: Id, now: Time)
    requires SlotsDistinct(rows, tree)
    ensures var r := TombstoneAll(rows, tree, users, event, now); r.Some? ==> SlotsDistinct(r.value, tree)
  {
    if users != [] { TombstonesKeepSlots(rows, tree, Init(users), event, now); }
  }

  // ----- Roots -----

  /** The removal leaves the row as the tree's root: neither removed nor relocated. */
  predicate StaysRoot(n: Row, tree: Id, r: Removal) {
    n.ActiveIn(tree) && n.depth == 0 && n.user !in r.users && MoveFor(r.relocated, n.user).None?
  }

  /** The relocations to depth 0, and the root that stays, number at most one. */
  predicate OneRootAtMost(rows: seq<Row>, tree: Id, r: Removal) {
    && (forall i, j :: 0 <= i < j < |r.relocated| ==> r.relocated[i].depth != 0 || r.relocated[j].depth != 0)
    && (forall m, n :: m in r.relocated && n in rows ==> m.depth != 0 || !StaysRoot(n, tree, r))
  }

  /** What a removal's tombstones and re-sponsorings leave of one row. */
  predicate Thinned(n: Row, after: Row, tree: Id, users: seq<Id>) {
    && after.tree == n.tree && after.user == n.user && after.depth == n.depth
    && (after.ActiveIn(tree) <==> n.ActiveIn(tree) && n.user !in users)
    && (n.tree != tree ==> after == n)
  }

  lemma {:induction false} TombstonesThin(rows: seq<Row>, tree: Id, users: seq<Id>, event: Id, now: Time)
    requires ActiveUsersDistinct(rows, tree)
    ensures var r := TombstoneAll(rows, tree, users, event, now);
            r.Some? ==> forall i :: 0 <= i < |rows| ==> Thinned(rows[i], r.value[i], tree, users)
  {
    if users != [] {
      assert users == Init(users) + [Last(users)];
      TombstonesThin(rows, tree, Init(users), event, now);
      var r := TombstoneAll(rows, tree, Init(users), event, now);
      if r.Some? && FirstActive(r.value, tree, Last(users)) >= 0 {
        var k := FirstActive(r.value, tree, Last(users));
        assert rows[k].ActiveIn(tree) && rows[k].user == Last(users);
      }
    }
  }

  lemma {:induction false} RepointThins(rows: seq<Row>, tree: Id, ms: seq<Responsored>)
    ensures forall i :: 0 <= i < |rows| ==> Thinned(rows[i], Repoint(rows, tree, ms).rows[i], tree, [])
  {
    if ms != [] { RepointThins(rows, tree, Init(ms)); }
  }

  /** Row by row, what an accepted removal makes of the rows. */
  lemma StagedRowwise(rows: seq<Row>, tree: Id, r: Removal, event: Id, now: Time) returns (start: seq<Row>)
    requires ActiveUsersDistinct(rows, tree) && StageRemoval(rows, tree, r, event, now).Ok?
    ensures |start| == |rows| && forall i :: 0 <= i < |rows| ==> Thinned(rows[i], start[i], tree, r.users)
    ensures |StageRemoval(rows, tree, r, event, now).value| == |rows|
    ensures forall i :: 0 <= i < |rows| ==> StageRemoval(rows, tree, r, event, now).value[i] == AfterMoves(start[i], tree, r.relocated)
    ensures DistinctMoves(r.relocated) && forall m :: m in r.relocated ==> FirstActive(start, tree, m.user) >= 0
  {
    var gone := TombstoneAll(rows, tree, r.users, event, now).value;
    start := Repoint(gone, tree, r.responsored).rows;
    TombstonesThin(rows, tree, r.users, event, now);
    RepointThins(gone, tree, r.responsored);
    hide TombstoneAll, Repoint, Relocate, TargetFree, SlotsDistinct, MoveFor;
    assert ActiveUsersDistinct(start, tree);
    HitsMeanDistinct(start, tree, r.relocated);
    HitsMeanAll(start, tree, r.relocated);
    RelocateRowwise(start, tree, r.relocated);
  }

  /** The row ends as a root: moved to depth 0, or left the root it was. */
  predicate EndsAsRoot(n: Row, mid: Row, tree: Id, r: Removal) {
    var m := MoveFor(r.relocated, n.user);
    if m.Some? then mid.ActiveIn(tree) && m.value.depth == 0 else StaysRoot(n, tree, r)
  }

  lemma RootAfter(n: Row, mid: Row, tree: Id, r: Removal)
    requires Thinned(n, mid, tree, r.users)
    ensures var after := AfterMoves(mid, tree, r.relocated);
            after.ActiveIn(tree) && after.depth == 0 <==> EndsAsRoot(n, mid, tree, r)
  {
  }

  /**
   * An accepted removal leaves every tree at most one root exactly when its
   * relocations to depth 0, and a root it neither removes nor relocates,
   * number at most one.
   */
  lemma RemovalKeepsOneRoot(rows: seq<Row>, tree: Id, r: Removal, event: Id, now: Time)
    requires Sane(rows) && SingleRoots(rows) && StageRemoval(rows, tree, r, event, now).Ok?
    ensures SingleRoots(StageRemoval(rows, tree, r, event, now).value) <==> OneRootAtMost(rows, tree, r)
  {
    var after := StageRemoval(rows, tree, r, event, now).value;
    assert ActiveUsersDistinct(rows, tree);
    var start := StagedRowwise(rows, tree, r, event, now);
    hide StageRemoval, MoveFor, Sane, SlotsDistinct;
    forall i | 0 <= i < |rows| ensures after[i].tree == rows[i].tree && (rows[i].tree != tree ==> after[i] == rows[i]) { }
    if SingleRoots(after) { OneRootFromAfter(rows, start, after, tree, r); }
    if OneRootAtMost(rows, tree, r) { OneRootToAfter(rows, start, after, tree, r); }
  }

  lemma OneRootFromAfter(rows: seq<Row>, start: seq<Row>, after: seq<Row>, tree: Id, r: Removal)
    requires |rows| == |start| == |after| && forall i :: 0 <= i < |rows| ==> Thinned(rows[i], start[i], tree, r.users)
    requires forall i :: 0 <= i < |rows| ==> after[i] == AfterMoves(start[i], tree, r.relocated)
    requires DistinctMoves(r.relocated) && forall m :: m in r.relocated ==> FirstActive(start, tree, m.user) >= 0
    requires SingleRoots(after)
    ensures OneRootAtMost(rows, tree, r)
  {
    hide MoveFor, Thinned, FirstActive;
    forall m | m in r.relocated
      ensures var k := FirstActive(start, tree, m.user);
              start[k].user == m.user && (m.depth == 0 ==> after[k].ActiveIn(tree) && after[k].depth == 0)
    {
      MoveForIs(r.relocated, m.user, m);
    }
    forall i, j | 0 <= i < j < |r.relocated| ensures r.relocated[i].depth != 0 || r.relocated[j].depth != 0 {
      var a, b := FirstActive(start, tree, r.relocated[i].user), FirstActive(start, tree, r.relocated[j].user);
      assert r.relocated[i] in r.relocated && r.relocated[j] in r.relocated && a != b;
    }
    forall m, n | m in r.relocated && n in rows ensures m.depth != 0 || !StaysRoot(n, tree, r) {
      var a := FirstActive(start, tree, m.user);
      var b :| 0 <= b < |rows| && rows[b] == n;
      RootAfter(n, start[b], tree, r);
      MoveForIs(r.relocated, m.user, m);
      SameUser(n, start[b], tree, r.users);
    }
  }

  lemma SameUser(n: Row, after: Row, tree: Id, users: seq<Id>)
    requires Thinned(n, after, tree, users)
    ensures after.user == n.user
  {
  }

  lemma OneRootToAfter(rows: seq<Row>, start: seq<Row>, after: seq<Row>, tree: Id, r: Removal)
    requires |rows| == |start| == |after| && forall i :: 0 <= i < |rows| ==> Thinned(rows[i], start[i], tree, r.users)
    requires forall i :: 0 <= i < |rows| ==> after[i] == AfterMoves(start[i], tree, r.relocated)
    requires forall i :: 0 <= i < |rows| ==> after[i].tree == rows[i].tree && (rows[i].tree != tree ==> after[i] == rows[i])
    requires ActiveUsersDistinct(start, tree) && DistinctMoves(r.relocated)
    requires SingleRoots(rows) && OneRootAtMost(rows, tree, r)
    ensures SingleRoots(after)
  {
    hide MoveFor, Thinned;
    forall t, i, j | 0 <= i < j < |after| && after[i].ActiveIn(t) && after[j].ActiveIn(t)
      ensures !(after[i].depth == 0 && after[j].depth == 0)
    {
      if t != tree {
        assert rows[i].ActiveIn(t) && rows[j].ActiveIn(t);
      } else {
        RootAfter(rows[i], start[i], tree, r);
        RootAfter(rows[j], start[j], tree, r);
        SameUser(rows[i], start[i], tree, r.users);
        SameUser(rows[j], start[j], tree, r.users);
        TwoRoots(rows, start, tree, r, i, j);
      }
    }
  }

  lemma TwoRoots(rows: seq<Row>, start: seq<Row>, tree: Id, r: Removal, i: int, j: int)
    requires 0 <= i < j < |rows| == |start| && start[i].user == rows[i].user && start[j].user == rows[j].user
    requires ActiveUsersDistinct(start, tree) && DistinctMoves(r.relocated)
    requires SingleRoots(rows) && OneRootAtMost(rows, tree, r)
    ensures !(EndsAsRoot(rows[i], start[i], tree, r) && EndsAsRoot(rows[j], start[j], tree, r))
  {
    hide MoveFor;
    var a, b := MoveFor(r.relocated, rows[i].user), MoveFor(r.relocated, rows[j].user);
    if a.Some? { MoveForIs(r.relocated, rows[i].user, a.value); }
    if b.Some? { MoveForIs(r.relocated, rows[j].user, b.value); }
    assert rows[i] in rows && rows[j] in rows;
  }
}
