/**
 * An accepted removal, row by row and field by field: who is tombstoned and
 * stamped, who gets which sponsor, and who moves where.
 */
module RemovalRows {
  import opened TreeTypes
  import opened TreeStore
  import opened Agreement
  import opened StoreLaws
  import opened RelocationLaws

  // ----- Tombstones -----

  predicate Buried(n: Row, after: Row, tree: Id, users: seq<Id>, event: Id, now: Time) {
    after ==
      if n.ActiveIn(tree) && n.user in users
      then Row(n.id, n.tree, n.user, n.parent, n.sponsor, n.position, n.depth, n.enrolled, Some(now), Some(event))
      else n
  }

  /** Exactly the named users' rows are tombstoned, each user named once and with an active row. */
  lemma {:induction false} TombstoneRows(rows: seq<Row>, tree: Id, users: seq<Id>, event: Id, now: Time)
    requires ActiveUsersDistinct(rows, tree) && TombstoneAll(rows, tree, users, event, now).Some?
    ensures var r := TombstoneAll(rows, tree, users, event, now).value;
            forall i :: 0 <= i < |rows| ==> Buried(rows[i], r[i], tree, users, event, now)
    ensures NoDuplicates(users) && forall u :: u in users ==> FirstActive(rows, tree, u) >= 0
  {
    if users != [] {
      var prev, u := Init(users), Last(users);
      assert users == prev + [u];
      TombstoneRows(rows, tree, prev, event, now);
      var r := TombstoneAll(rows, tree, prev, event, now).value;
      var k := FirstActive(r, tree, u);
      assert Buried(rows[k], r[k], tree, prev, event, now) && rows[k].ActiveIn(tree) && rows[k].user == u && u !in prev;
    }
  }

  // ----- New sponsors -----

  predicate DistinctPoints(ms: seq<Responsored>) {
    forall i, j :: 0 <= i < j < |ms| ==> ms[i].user != ms[j].user
  }

  predicate Names(ms: seq<Responsored>, u: Id) {
    exists m :: m in ms && m.user == u
  }

  /** The rows the re-sponsorings hit are the active rows of the users they name. */
  lemma {:induction false} PointHits(rows: seq<Row>, tree: Id, ms: seq<Responsored>)
    requires ActiveUsersDistinct(rows, tree)
    ensures var e := Repoint(rows, tree, ms);
            && |e.hits| <= |ms|
            && (forall i :: i in e.hits <==> 0 <= i < |rows| && rows[i].ActiveIn(tree) && Names(ms, rows[i].user))
            && forall i :: 0 <= i < |rows| ==> e.rows[i].user == rows[i].user && e.rows[i].ActiveIn(tree) == rows[i].ActiveIn(tree)
  {
    if ms != [] {
      PointHits(rows, tree, Init(ms));
      var e, k := Repoint(rows, tree, Init(ms)), FirstActive(Repoint(rows, tree, Init(ms)).rows, tree, Last(ms).user);
      assert ms == Init(ms) + [Last(ms)];
      forall i ensures i in Repoint(rows, tree, ms).hits <==> 0 <= i < |rows| && rows[i].ActiveIn(tree) && Names(ms, rows[i].user) {
        if 0 <= i < |rows| && rows[i].ActiveIn(tree) {
          assert Names(ms, rows[i].user) <==> Names(Init(ms), rows[i].user) || rows[i].user == Last(ms).user;
          if rows[i].user == Last(ms).user {
            assert e.rows[i].ActiveIn(tree) && e.rows[i].user == Last(ms).user;
            assert k >= 0 && rows[k].ActiveIn(tree) && rows[k].user == Last(ms).user;
          }
        }
      }
    }
  }

  /** As many rows hit as re-sponsorings: each names one user, with an active row, and no two the same. */
  lemma {:induction false} PointsAreDistinct(rows: seq<Row>, tree: Id, ms: seq<Responsored>)
    requires ActiveUsersDistinct(rows, tree) && |Repoint(rows, tree, ms).hits| == |ms|
    ensures DistinctPoints(ms) && forall m :: m in ms ==> FirstActive(rows, tree, m.user) >= 0
  {
    if ms != [] {
      var init := Init(ms);
      assert ms == init + [Last(ms)];
      PointHits(rows, tree, init);
      var e := Repoint(rows, tree, init);
      var k := FirstActive(e.rows, tree, Last(ms).user);
      assert k >= 0 && k !in e.hits;
      assert rows[k].ActiveIn(tree) && rows[k].user == Last(ms).user && !Names(init, Last(ms).user);
      PointsAreDistinct(rows, tree, init);
      assert forall i :: 0 <= i < |init| ==> ms[i] == init[i] && init[i] in init;
    }
  }

  /** A row keeps everything but its sponsor, and its sponsor too unless one is given for it. */
  predicate Pointed(n: Row, after: Row, tree: Id, ms: seq<Responsored>) {
    && after == Row(n.id, n.tree, n.user, n.parent, after.sponsor, n.position, n.depth, n.enrolled, n.removedAt, n.removedBy)
    && (forall m :: m in ms && m.user == n.user && n.ActiveIn(tree) ==> after.sponsor == Some(m.newSponsor))
    && (!(n.ActiveIn(tree) && Names(ms, n.user)) ==> after.sponsor == n.sponsor)
  }

  lemma {:induction false} RepointRows(rows: seq<Row>, tree: Id, ms: seq<Responsored>)
    requires ActiveUsersDistinct(rows, tree) && DistinctPoints(ms)
    ensures forall i :: 0 <= i < |rows| ==> Pointed(rows[i], Repoint(rows, tree, ms).rows[i], tree, ms)
  {
    if ms != [] {
      RepointRows(rows, tree, Init(ms));
      forall i | 0 <= i < |rows| ensures Pointed(rows[i], Repoint(rows, tree, ms).rows[i], tree, ms) {
        RepointRow(rows, tree, ms, i);
      }
    }
  }

  lemma RepointRow(rows: seq<Row>, tree: Id, ms: seq<Responsored>, i: int)
    requires ActiveUsersDistinct(rows, tree) && DistinctPoints(ms) && ms != [] && 0 <= i < |rows|
    requires forall j :: 0 <= j < |rows| ==> Pointed(rows[j], Repoint(rows, tree, Init(ms)).rows[j], tree, Init(ms))
    ensures Pointed(rows[i], Repoint(rows, tree, ms).rows[i], tree, ms)
  {
    var e, last := Repoint(rows, tree, Init(ms)), Last(ms);
    var k := FirstActive(e.rows, tree, last.user);
    assert ms == Init(ms) + [last];
    assert Pointed(rows[i], e.rows[i], tree, Init(ms));
    if rows[i].ActiveIn(tree) && rows[i].user == last.user {
      assert e.rows[i].ActiveIn(tree) && k >= 0;
      assert Pointed(rows[k], e.rows[k], tree, Init(ms));
      assert rows[k].ActiveIn(tree) && k == i;
      forall m | m in ms && m.user == last.user ensures m == last {
        var j :| 0 <= j < |ms| && ms[j] == m;
      }
    } else if k >= 0 {
      assert Pointed(rows[k], e.rows[k], tree, Init(ms));
      assert k != i;
    }
  }

  // ----- The whole removal -----

  /** What a removal leaves of a row it neither names as gone nor finds gone already. */
  predicate Survives(n: Row, after: Row, r: Removal) {
    && after.id == n.id && after.tree == n.tree && after.user == n.user && after.enrolled == n.enrolled
    && after.removedAt == None && after.removedBy == n.removedBy
    && (forall m :: m in r.relocated && m.user == n.user ==>
          after.parent == Some(m.parent) && after.position == Some(m.position) && after.depth == m.depth)
    && ((forall m :: m in r.relocated ==> m.user != n.user) ==>
          after.parent == n.parent && after.position == n.position && after.depth == n.depth)
    && (forall m :: m in r.responsored && m.user == n.user ==> after.sponsor == Some(m.newSponsor))
    && ((forall m :: m in r.responsored ==> m.user != n.user) ==> after.sponsor == n.sponsor)
  }

  predicate RowAfter(n: Row, after: Row, tree: Id, r: Removal, event: Id, now: Time) {
    if !n.ActiveIn(tree) then after == n
    else if n.user in r.users
    then after == Row(n.id, n.tree, n.user, n.parent, n.sponsor, n.position, n.depth, n.enrolled, Some(now), Some(event))
    else Survives(n, after, r)
  }

  /** An active row of the user that the removal leaves active. */
  predicate SurvivorOf(rows: seq<Row>, tree: Id, r: Removal, u: Id) {
    u !in r.users && exists n :: n in rows && n.ActiveIn(tree) && n.user == u
  }

  lemma MovedRow(mid: Row, tree: Id, ms: seq<Relocation>)
    requires DistinctMoves(ms) && mid.ActiveIn(tree)
    ensures var after := AfterMoves(mid, tree, ms);
            && after == Row(mid.id, mid.tree, mid.user, after.parent, mid.sponsor, after.position, after.depth, mid.enrolled, mid.removedAt, mid.removedBy)
            && (forall m :: m in ms && m.user == mid.user ==>
                  after.parent == Some(m.parent) && after.position == Some(m.position) && after.depth == m.depth)
            && ((forall m :: m in ms ==> m.user != mid.user) ==> after == mid)
  {
    hide MoveFor;
    var move := MoveFor(ms, mid.user);
    forall m | m in ms && m.user == mid.user ensures move == Some(m) { MoveForIs(ms, mid.user, m); }
    if move.Some? { MoveForIs(ms, mid.user, move.value); }
  }

  /**
   * The rows an accepted removal leaves. Each user it names is named once in
   * its list: the removed have an active row, and the re-sponsored and the
   * relocated one that survives.
   */
  lemma RemovalRowByRow(rows: seq<Row>, tree: Id, r: Removal, event: Id, now: Time)
    requires Sane(rows) && StageRemoval(rows, tree, r, event, now).Ok?
    ensures var after := StageRemoval(rows, tree, r, event, now).value;
            |after| == |rows| && forall i :: 0 <= i < |rows| ==> RowAfter(rows[i], after[i], tree, r, event, now)
    ensures NoDuplicates(r.users) && DistinctPoints(r.responsored) && DistinctMoves(r.relocated)
    ensures forall u :: u in r.users ==> exists n :: n in rows && n.ActiveIn(tree) && n.user == u
    ensures forall m :: m in r.responsored ==> SurvivorOf(rows, tree, r, m.user)
    ensures forall m :: m in r.relocated ==> SurvivorOf(rows, tree, r, m.user)
  {
    assert ActiveUsersDistinct(rows, tree);
    var gone := TombstoneAll(rows, tree, r.users, event, now).value;
    var mid := Repoint(gone, tree, r.responsored).rows;
    var after := StageRemoval(rows, tree, r, event, now).value;
    TombstoneRows(rows, tree, r.users, event, now);
    hide Sane, TombstoneAll, Repoint, Relocate, TargetFree, SlotsDistinct, MoveFor;
    StillDistinct(rows, gone, tree, r.users, event, now);
    PointsAreDistinct(gone, tree, r.responsored);
    RepointRows(gone, tree, r.responsored);
    PointedDistinct(gone, mid, tree, r.responsored);
    HitsMeanDistinct(mid, tree, r.relocated);
    HitsMeanAll(mid, tree, r.relocated);
    RelocateRowwise(mid, tree, r.relocated);
    forall i | 0 <= i < |rows| ensures RowAfter(rows[i], after[i], tree, r, event, now) {
      RowThrough(rows[i], gone[i], mid[i], after[i], tree, r, event, now);
    }
    NamedSurvive(rows, gone, mid, tree, r, event, now);
  }

  lemma StillDistinct(rows: seq<Row>, gone: seq<Row>, tree: Id, users: seq<Id>, event: Id, now: Time)
    requires ActiveUsersDistinct(rows, tree) && |gone| == |rows|
    requires forall i :: 0 <= i < |rows| ==> Buried(rows[i], gone[i], tree, users, event, now)
    ensures ActiveUsersDistinct(gone, tree)
  {
  }

  lemma PointedDistinct(gone: seq<Row>, mid: seq<Row>, tree: Id, ms: seq<Responsored>)
    requires ActiveUsersDistinct(gone, tree) && |mid| == |gone|
    requires forall i :: 0 <= i < |gone| ==> Pointed(gone[i], mid[i], tree, ms)
    ensures ActiveUsersDistinct(mid, tree)
  {
  }

  lemma RowThrough(n: Row, gone: Row, mid: Row, after: Row, tree: Id, r: Removal, event: Id, now: Time)
    requires Buried(n, gone, tree, r.users, event, now) && Pointed(gone, mid, tree, r.responsored)
    requires DistinctMoves(r.relocated) && after == AfterMoves(mid, tree, r.relocated)
    ensures RowAfter(n, after, tree, r, event, now)
  {
    hide MoveFor, DistinctMoves;
    if mid.ActiveIn(tree) {
      MovedRow(mid, tree, r.relocated);
      hide AfterMoves;
    }
  }

  lemma NamedSurvive(rows: seq<Row>, gone: seq<Row>, mid: seq<Row>, tree: Id, r: Removal, event: Id, now: Time)
    requires |rows| == |gone| == |mid| && forall i :: 0 <= i < |rows| ==> Buried(rows[i], gone[i], tree, r.users, event, now)
    requires forall i :: 0 <= i < |rows| ==> Pointed(gone[i], mid[i], tree, r.responsored)
    requires forall u :: u in r.users ==> FirstActive(rows, tree, u) >= 0
    requires forall m :: m in r.responsored ==> FirstActive(gone, tree, m.user) >= 0
    requires forall m :: m in r.relocated ==> FirstActive(mid, tree, m.user) >= 0
    ensures forall u :: u in r.users ==> exists n :: n in rows && n.ActiveIn(tree) && n.user == u
    ensures forall m :: m in r.responsored ==> SurvivorOf(rows, tree, r, m.user)
    ensures forall m :: m in r.relocated ==> SurvivorOf(rows, tree, r, m.user)
  {
    forall u | u in r.users ensures exists n :: n in rows && n.ActiveIn(tree) && n.user == u {
      assert rows[FirstActive(rows, tree, u)] in rows;
    }
    forall m | m in r.responsored ensures SurvivorOf(rows, tree, r, m.user) {
      var k := FirstActive(gone, tree, m.user);
      assert Buried(rows[k], gone[k], tree, r.users, event, now) && rows[k] in rows;
    }
    forall m | m in r.relocated ensures SurvivorOf(rows, tree, r, m.user) {
      var k := FirstActive(mid, tree, m.user);
      assert Pointed(gone[k], mid[k], tree, r.responsored);
      assert Buried(rows[k], gone[k], tree, r.users, event, now) && rows[k] in rows;
    }
  }

  // ----- When a removal is accepted -----

  /** The row outlives the removal. */
  predicate Outlives(n: Row, tree: Id, r: Removal) {
    n.tree == tree && n.removedAt.None? && n.user !in r.users
  }

  /** The row stands in the slot. */
  predicate StandsIn(n: Row, at: Slot) {
    n.parent == Some(at.parent) && n.position == Some(at.position)
  }

  /** The slot the row ends in: the one it is relocated to, or its own. */
  predicate EndsIn(n: Row, r: Removal, at: Slot) {
    if exists m :: m in r.relocated && m.user == n.user
    then exists m :: m in r.relocated && m.user == n.user && at == Slot(m.parent, m.position)
    else StandsIn(n, at)
  }

  /** Each user is named once in its list, and its row is there: to go, or to outlive the removal. */
  ghost predicate WellNamed(rows: seq<Row>, tree: Id, r: Removal) {
    && NoDuplicates(r.users) && DistinctPoints(r.responsored) && DistinctMoves(r.relocated)
    && (forall u :: u in r.users ==> exists n :: n in rows && n.ActiveIn(tree) && n.user == u)
    && (forall m :: m in r.responsored ==> SurvivorOf(rows, tree, r, m.user))
    && (forall m :: m in r.relocated ==> SurvivorOf(rows, tree, r, m.user))
  }

  /** Every relocation goes to a slot no other surviving row stands in, and no two surviving rows end in one slot. */
  ghost predicate WellPlaced(rows: seq<Row>, tree: Id, r: Removal) {
    && (forall m, n :: m in r.relocated && n in rows && Outlives(n, tree, r) && StandsIn(n, Slot(m.parent, m.position)) ==> n.user == m.user)
    && (forall i, j, at :: 0 <= i < j < |rows| && Outlives(rows[i], tree, r) && Outlives(rows[j], tree, r) ==>
          !(EndsIn(rows[i], r, at) && EndsIn(rows[j], r, at)))
  }

  lemma {:induction false} TombstonesFound(rows: seq<Row>, tree: Id, users: seq<Id>, event: Id, now: Time)
    requires ActiveUsersDistinct(rows, tree) && NoDuplicates(users) && forall u :: u in users ==> FirstActive(rows, tree, u) >= 0
    ensures TombstoneAll(rows, tree, users, event, now).Some?
  {
    if users != [] {
      var prev, u := Init(users), Last(users);
      assert users == prev + [u] && u !in prev;
      TombstonesFound(rows, tree, prev, event, now);
      TombstoneRows(rows, tree, prev, event, now);
      var r := TombstoneAll(rows, tree, prev, event, now).value;
      var k := FirstActive(rows, tree, u);
      assert Buried(rows[k], r[k], tree, prev, event, now);
    }
  }

  lemma {:induction false} PointsHit(rows: seq<Row>, tree: Id, ms: seq<Responsored>)
    requires ActiveUsersDistinct(rows, tree) && DistinctPoints(ms) && forall m :: m in ms ==> FirstActive(rows, tree, m.user) >= 0
    ensures |Repoint(rows, tree, ms).hits| == |ms|
  {
    if ms != [] {
      var init := Init(ms);
      assert ms == init + [Last(ms)];
      PointsHit(rows, tree, init);
      PointHits(rows, tree, init);
      var e := Repoint(rows, tree, init);
      var k := FirstActive(rows, tree, Last(ms).user);
      assert e.rows[k].ActiveIn(tree) && e.rows[k].user == Last(ms).user;
      NotNamedBefore(ms);
      hide Names;
      var j := FirstActive(e.rows, tree, Last(ms).user);
      assert rows[j].ActiveIn(tree) && rows[j].user == Last(ms).user && j !in e.hits;
    }
  }

  lemma NotNamedBefore(ms: seq<Responsored>)
    requires DistinctPoints(ms) && ms != []
    ensures !Names(Init(ms), Last(ms).user)
  {
    forall m | m in Init(ms) ensures m.user != Last(ms).user {
      var i :| 0 <= i < |Init(ms)| && Init(ms)[i] == m;
      assert ms[i] == m;
    }
  }

  lemma {:induction false} MovesHit(rows: seq<Row>, tree: Id, ms: seq<Relocation>)
    requires ActiveUsersDistinct(rows, tree) && DistinctMoves(ms) && forall m :: m in ms ==> FirstActive(rows, tree, m.user) >= 0
    ensures |Relocate(rows, tree, ms).hits| == |ms|
  {
    if ms != [] {
      var init := Init(ms);
      assert ms == init + [Last(ms)];
      MovesHit(rows, tree, init);
      HitsAre(rows, tree, init);
      var e := Relocate(rows, tree, init);
      var k := FirstActive(rows, tree, Last(ms).user);
      assert e.rows[k].ActiveIn(tree) && e.rows[k].user == Last(ms).user;
      assert forall i :: 0 <= i < |init| ==> ms[i] == init[i];
      var j := FirstActive(e.rows, tree, Last(ms).user);
      assert rows[j].ActiveIn(tree) && rows[j].user == Last(ms).user;
      assert !IsHit(rows, tree, init, j);
    }
  }

  /** The rows between the tombstones and the relocations: who is there, and where. */
  predicate Midway(rows: seq<Row>, mid: seq<Row>, tree: Id, r: Removal) {
    |mid| == |rows| && forall i :: 0 <= i < |rows| ==>
      && mid[i].user == rows[i].user && mid[i].parent == rows[i].parent && mid[i].position == rows[i].position
      && (mid[i].ActiveIn(tree) <==> Outlives(rows[i], tree, r))
  }

  /** A relocation's target is free exactly when no other surviving row stands in it. */
  lemma FreeIs(rows: seq<Row>, mid: seq<Row>, tree: Id, r: Removal, m: Relocation)
    requires |mid| == |rows| && Midway(rows, mid, tree, r) && SlotsDistinct(mid, tree) && FirstActive(mid, tree, m.user) >= 0
    ensures TargetFree(mid, tree, m) <==>
              forall n :: n in rows && Outlives(n, tree, r) && StandsIn(n, Slot(m.parent, m.position)) ==> n.user == m.user
  {
    hide SlotHolder, SlotsDistinct, Midway, FirstActive;
    var at := Slot(m.parent, m.position);
    forall n | n in rows && Outlives(n, tree, r) && StandsIn(n, at) ensures SlotHolder(mid, tree, at) == Some(n.user) {
      var i :| 0 <= i < |rows| && rows[i] == n;
      StandsMidway(rows, mid, tree, r, i, at);
      HolderIs(mid, tree, i, at);
    }
    if SlotHolder(mid, tree, at).Some? {
      var q :| q in mid && HoldsSlot(q, tree, at) && q.user == SlotHolder(mid, tree, at).value;
      var i :| 0 <= i < |mid| && mid[i] == q;
      StandsMidway(rows, mid, tree, r, i, at);
      assert rows[i] in rows;
    }
  }

  lemma StandsMidway(rows: seq<Row>, mid: seq<Row>, tree: Id, r: Removal, i: int, at: Slot)
    requires Midway(rows, mid, tree, r) && 0 <= i < |mid|
    ensures |mid| == |rows| && mid[i].user == rows[i].user
    ensures HoldsSlot(mid[i], tree, at) <==> Outlives(rows[i], tree, r) && StandsIn(rows[i], at)
  {
  }

  /** Where a surviving row ends, after the relocations. */
  lemma EndIs(n: Row, mid: Row, tree: Id, r: Removal, at: Slot)
    requires mid.user == n.user && mid.parent == n.parent && mid.position == n.position && mid.ActiveIn(tree) && DistinctMoves(r.relocated)
    ensures StandsIn(AfterMoves(mid, tree, r.relocated), at) <==> EndsIn(n, r, at)
  {
    hide MoveFor, DistinctMoves;
    MovedRow(mid, tree, r.relocated);
    hide AfterMoves;
  }

  lemma EndsApart(rows: seq<Row>, mid: seq<Row>, tree: Id, r: Removal)
    requires Midway(rows, mid, tree, r) && ActiveUsersDistinct(mid, tree) && DistinctMoves(r.relocated)
    ensures SlotsDistinct(Relocate(mid, tree, r.relocated).rows, tree) <==>
              forall i, j, at :: 0 <= i < j < |rows| && Outlives(rows[i], tree, r) && Outlives(rows[j], tree, r) ==>
                !(EndsIn(rows[i], r, at) && EndsIn(rows[j], r, at))
  {
    hide MoveFor, EndsIn, Relocate;
    RelocateRowwise(mid, tree, r.relocated);
    var after := Relocate(mid, tree, r.relocated).rows;
    forall i, at | 0 <= i < |rows| && Outlives(rows[i], tree, r) ensures after[i].ActiveIn(tree) && (StandsIn(after[i], at) <==> EndsIn(rows[i], r, at)) {
      EndIs(rows[i], mid[i], tree, r, at);
    }
    forall i | 0 <= i < |rows| && after[i].ActiveIn(tree) ensures Outlives(rows[i], tree, r) { }
    hide AfterMoves, Midway, ActiveUsersDistinct, DistinctMoves, Outlives;
    forall i, j | 0 <= i < j < |rows| && after[i].ActiveIn(tree) && after[j].ActiveIn(tree)
      ensures SameSlot(after[i], after[j]) <==> exists at :: StandsIn(after[i], at) && StandsIn(after[j], at)
    {
      if SameSlot(after[i], after[j]) {
        var at := Slot(after[i].parent.value, after[i].position.value);
        assert StandsIn(after[i], at) && StandsIn(after[j], at);
      }
    }
  }

  /** A removal of rows that keep the store's rules is accepted exactly when it is well named and well placed. */
  lemma RemovalAccepted(rows: seq<Row>, tree: Id, r: Removal, event: Id, now: Time)
    requires Sane(rows)
    ensures StageRemoval(rows, tree, r, event, now).Ok? <==> WellNamed(rows, tree, r) && WellPlaced(rows, tree, r)
  {
    assert ActiveUsersDistinct(rows, tree) && SlotsDistinct(rows, tree);
    if StageRemoval(rows, tree, r, event, now).Ok? { RemovalRowByRow(rows, tree, r, event, now); }
    if WellNamed(rows, tree, r) {
      NamedIsFound(rows, tree, r, event, now);
      PlacedIsFree(rows, tree, r, event, now);
    }
  }

  /** The rows after the tombstones and re-sponsorings of a well-named removal. */
  lemma NamedIsFound(rows: seq<Row>, tree: Id, r: Removal, event: Id, now: Time)
    requires ActiveUsersDistinct(rows, tree) && SlotsDistinct(rows, tree) && WellNamed(rows, tree, r)
    ensures TombstoneAll(rows, tree, r.users, event, now).Some?
    ensures var pointed := Repoint(TombstoneAll(rows, tree, r.users, event, now).value, tree, r.responsored);
            && |pointed.hits| == |r.responsored| && |Relocate(pointed.rows, tree, r.relocated).hits| == |r.relocated|
            && Midway(rows, pointed.rows, tree, r) && ActiveUsersDistinct(pointed.rows, tree) && SlotsDistinct(pointed.rows, tree)
            && forall m :: m in r.relocated ==> FirstActive(pointed.rows, tree, m.user) >= 0
  {
    forall u | u in r.users ensures FirstActive(rows, tree, u) >= 0 {
      var n :| n in rows && n.ActiveIn(tree) && n.user == u;
      var i :| 0 <= i < |rows| && rows[i] == n;
    }
    TombstonesFound(rows, tree, r.users, event, now);
    TombstoneRows(rows, tree, r.users, event, now);
    TombstonesKeepSlots(rows, tree, r.users, event, now);
    var gone := TombstoneAll(rows, tree, r.users, event, now).value;
    hide TombstoneAll, Repoint, Relocate, SlotsDistinct;
    StillDistinct(rows, gone, tree, r.users, event, now);
    forall m | m in r.responsored ensures FirstActive(gone, tree, m.user) >= 0 { SurvivorFound(rows, gone, tree, r, event, now, m.user); }
    PointsHit(gone, tree, r.responsored);
    RepointRows(gone, tree, r.responsored);
    RepointKeeps(gone, tree, r.responsored);
    var mid := Repoint(gone, tree, r.responsored).rows;
    PointedDistinct(gone, mid, tree, r.responsored);
    MidwayIs(rows, gone, mid, tree, r, event, now);
    forall m | m in r.relocated ensures FirstActive(mid, tree, m.user) >= 0 {
      SurvivorFound(rows, gone, tree, r, event, now, m.user);
      var k := FirstActive(gone, tree, m.user);
      assert Pointed(gone[k], mid[k], tree, r.responsored);
    }
    MovesHit(mid, tree, r.relocated);
  }

  lemma SurvivorFound(rows: seq<Row>, gone: seq<Row>, tree: Id, r: Removal, event: Id, now: Time, u: Id)
    requires |gone| == |rows| && forall i :: 0 <= i < |rows| ==> Buried(rows[i], gone[i], tree, r.users, event, now)
    requires SurvivorOf(rows, tree, r, u)
    ensures FirstActive(gone, tree, u) >= 0
  {
    var n :| n in rows && n.ActiveIn(tree) && n.user == u;
    var i :| 0 <= i < |rows| && rows[i] == n;
    assert Buried(rows[i], gone[i], tree, r.users, event, now);
  }

  lemma MidwayIs(rows: seq<Row>, gone: seq<Row>, mid: seq<Row>, tree: Id, r: Removal, event: Id, now: Time)
    requires |rows| == |gone| == |mid| && forall i :: 0 <= i < |rows| ==> Buried(rows[i], gone[i], tree, r.users, event, now)
    requires forall i :: 0 <= i < |rows| ==> Pointed(gone[i], mid[i], tree, r.responsored)
    ensures Midway(rows, mid, tree, r)
  {
    forall i | 0 <= i < |rows|
      ensures mid[i].user == rows[i].user && mid[i].parent == rows[i].parent && mid[i].position == rows[i].position
      ensures mid[i].ActiveIn(tree) <==> Outlives(rows[i], tree, r)
    {
      assert Buried(rows[i], gone[i], tree, r.users, event, now) && Pointed(gone[i], mid[i], tree, r.responsored);
    }
  }

  /** A well-named removal is staged exactly when it is well placed. */
  lemma PlacedIsFree(rows: seq<Row>, tree: Id, r: Removal, event: Id, now: Time)
    requires ActiveUsersDistinct(rows, tree) && SlotsDistinct(rows, tree) && WellNamed(rows, tree, r)
    ensures StageRemoval(rows, tree, r, event, now).Ok? <==> WellPlaced(rows, tree, r)
  {
    hide TombstoneAll, Repoint, Relocate, SlotsDistinct, TargetFree, ActiveUsersDistinct, Midway, EndsIn, Outlives, StandsIn;
    NamedIsFound(rows, tree, r, event, now);
    var mid := Repoint(TombstoneAll(rows, tree, r.users, event, now).value, tree, r.responsored).rows;
    forall m | m in r.relocated
      ensures TargetFree(mid, tree, m) <==>
                forall n :: n in rows && Outlives(n, tree, r) && StandsIn(n, Slot(m.parent, m.position)) ==> n.user == m.user
    {
      FreeIs(rows, mid, tree, r, m);
    }
    EndsApart(rows, mid, tree, r);
  }
}
