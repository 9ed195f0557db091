/**
 * Ordering rows for replay by Kahn's algorithm over a queue that pops the least
 * row, and walking to a concrete cycle when some rows never become ready.
 *
 * The queue is the library heap, held here to what its contract gives: a pop
 * returns the least row of the queue.
 */
module ReplayOrder {
  import opened TreeTypes
  import opened LoaderRules
  import TreeLoader

  // ----- Edges -----

  ghost predicate NoRepeats(us: seq<Id>) {
    forall i, j :: 0 <= i < j < |us| ==> us[i] != us[j]
  }

  function IdSet(us: seq<Id>): set<Id> {
    set u | u in us
  }

  /** n's references in order, without itself and without a repeat. */
  method Edges(n: Row) returns (es: seq<Id>)
    ensures NoRepeats(es) && IdSet(es) == Deps(n)
    ensures forall e :: e in es <==> n.parent.Some? && e != n.user && (n.parent == Some(e) || n.sponsor == Some(e))
  {
    var refs := [n.parent];
    if n.parent.Some? {
      refs := refs + [n.sponsor];
    }
    es := [];
    for i := 0 to |refs|
      invariant NoRepeats(es) && |es| <= i
      invariant forall e :: e in es <==> e != n.user && exists j :: 0 <= j < i && refs[j] == Some(e)
    {
      if refs[i].None? || refs[i].value == n.user {
        continue;
      }
      if es != [] && es[|es| - 1] == refs[i].value {
        continue;
      }
      es := es + [refs[i].value];
    }
    forall e ensures e in es <==> e in Deps(n) {
      if n.parent.Some? { assert refs[0] == n.parent && refs[1] == n.sponsor; }
    }
  }

  datatype Graph = Graph(remaining: map<Id, int>, dependents: map<Id, seq<Id>>)

  function Waiting(g: Graph, u: Id): seq<Id> {
    if u in g.dependents then g.dependents[u] else []
  }

  /** The graph records, for rows, how many dependencies each has and who waits on whom. */
  ghost predicate Records(g: Graph, rows: seq<Row>) {
    && (forall n :: n in rows ==> n.user in g.remaining && g.remaining[n.user] == |Deps(n)|)
    && (forall u :: NoRepeats(Waiting(g, u)))
    && (forall u, d :: d in Waiting(g, u) <==> exists n :: n in rows && n.user == d && u in Deps(n))
  }

  ghost predicate RecordsPart(g: Graph, rows: seq<Row>, n: Row, part: seq<Id>) {
    && (forall m :: m in rows ==> m.user in g.remaining && g.remaining[m.user] == |Deps(m)|)
    && n.user in g.remaining && g.remaining[n.user] == |part|
    && (forall u :: NoRepeats(Waiting(g, u)))
    && (forall u, d :: d in Waiting(g, u) <==> (d == n.user && u in part) || exists m :: m in rows && m.user == d && u in Deps(m))
  }

  method BuildGraph(nodes: seq<Row>) returns (g: Graph)
    requires Resolved(nodes)
    ensures Records(g, nodes)
  {
    g := Graph(map[], map[]);
    for i := 0 to |nodes|
      invariant Records(g, nodes[..i])
    {
      var n := nodes[i];
      assert nodes[..i + 1] == nodes[..i] + [n];
      assert forall m :: m in nodes[..i] ==> m.user != n.user;
      g := AddEdges(g, nodes[..i], n);
    }
    assert nodes[..|nodes|] == nodes;
  }

  method AddEdges(g0: Graph, rows: seq<Row>, n: Row) returns (g: Graph)
    requires Records(g0, rows) && forall m :: m in rows ==> m.user != n.user
    ensures Records(g, rows + [n])
  {
    var es := Edges(n);
    g := g0.(remaining := g0.remaining[n.user := 0]);
    assert forall u :: Waiting(g, u) == Waiting(g0, u);
    for j := 0 to |es|
      invariant RecordsPart(g, rows, n, es[..j])
    {
      var e := es[j];
      assert es[..j + 1] == es[..j] + [e];
      EdgeAdded(g, rows, n, es[..j], e);
      g := Graph(g.remaining[n.user := g.remaining[n.user] + 1], g.dependents[e := Waiting(g, e) + [n.user]]);
    }
    assert es[..|es|] == es;
    RepeatFreeSize(es);
    PartIsWhole(g, rows, n, es);
  }

  lemma EdgeAdded(g: Graph, rows: seq<Row>, n: Row, part: seq<Id>, e: Id)
    requires RecordsPart(g, rows, n, part) && e !in part && forall m :: m in rows ==> m.user != n.user
    ensures RecordsPart(Graph(g.remaining[n.user := g.remaining[n.user] + 1], g.dependents[e := Waiting(g, e) + [n.user]]),
                        rows, n, part + [e])
  {
    var g' := Graph(g.remaining[n.user := g.remaining[n.user] + 1], g.dependents[e := Waiting(g, e) + [n.user]]);
    assert n.user !in Waiting(g, e);
    forall u ensures NoRepeats(Waiting(g', u)) {
      assert u != e ==> Waiting(g', u) == Waiting(g, u);
    }
    forall u, d
      ensures d in Waiting(g', u) <==> (d == n.user && u in part + [e]) || exists m :: m in rows && m.user == d && u in Deps(m)
    {
      assert d in Waiting(g', u) <==> d in Waiting(g, u) || (u == e && d == n.user);
    }
  }

  lemma PartIsWhole(g: Graph, rows: seq<Row>, n: Row, es: seq<Id>)
    requires RecordsPart(g, rows, n, es) && IdSet(es) == Deps(n) && |es| == |Deps(n)|
    ensures Records(g, rows + [n])
  {
    forall u, d ensures d in Waiting(g, u) <==> exists m :: m in rows + [n] && m.user == d && u in Deps(m) {
      assert u in es <==> u in Deps(n);
      if d == n.user && u in es { assert n in rows + [n]; }
      if exists m :: m in rows && m.user == d && u in Deps(m) {
        var m :| m in rows && m.user == d && u in Deps(m);
        assert m in rows + [n];
      }
    }
  }

  lemma {:induction false} RepeatFreeSize(us: seq<Id>)
    requires NoRepeats(us)
    ensures |IdSet(us)| == |us|
  {
    if us == [] {
      assert IdSet(us) == {};
    } else {
      RepeatFreeSize(Init(us));
      assert us == Init(us) + [Last(us)];
      assert Last(us) !in IdSet(Init(us));
      assert IdSet(us) == IdSet(Init(us)) + {Last(us)};
    }
  }

  // ----- Kahn's loop -----

  lemma RowSetDistinct(nodes: seq<Row>)
    requires DistinctUsers(nodes)
    ensures SetDistinct(RowSet(nodes))
  {
  }

  /** The state between pops. */
  ghost predicate Between(nodes: seq<Row>, remaining: map<Id, int>, ready: set<Row>, ordered: seq<Row>) {
    && (forall n :: n in nodes ==> n.user in remaining && remaining[n.user] == Missing(n, Users(ordered)))
    && ready == ReadyRows(RowSet(nodes), Users(ordered))
    && DistinctUsers(ordered) && DepsFirst(ordered)
    && (forall n :: n in ordered ==> n in nodes)
  }

  /** How many of m's dependencies are not in done. */
  function Missing(m: Row, done: set<Id>): nat {
    |Deps(m) - done|
  }

  lemma MissingStep(m: Row, done: set<Id>, u: Id)
    ensures u in Deps(m) && u !in done ==> Missing(m, done + {u}) == Missing(m, done) - 1
    ensures u !in Deps(m) ==> Missing(m, done + {u}) == Missing(m, done)
    ensures Missing(m, done) == 0 <==> Deps(m) <= done
  {
    if u in Deps(m) && u !in done {
      assert Deps(m) - done == (Deps(m) - (done + {u})) + {u};
    } else if u !in Deps(m) {
      assert Deps(m) - done == Deps(m) - (done + {u});
    }
    if Missing(m, done) == 0 { assert Deps(m) - done == {}; }
    if Deps(m) <= done { assert Deps(m) - done == {}; }
  }

  /** Row m while the rows in left have not yet been told that n is done. */
  ghost predicate Counted(m: Row, remaining: map<Id, int>, ready: set<Row>, done: set<Id>, n: Row, left: set<Id>) {
    && m.user in remaining
    && remaining[m.user] == (if m.user in left then Missing(m, done) else Missing(m, done + {n.user}))
    && (m in ready <==> Ready(m, done + {n.user}) && m.user !in left)
  }

  ghost predicate Counting(nodes: seq<Row>, remaining: map<Id, int>, ready: set<Row>, done: set<Id>, n: Row, left: set<Id>) {
    && (forall m :: m in ready ==> m in nodes)
    && (forall m :: m in nodes ==> Counted(m, remaining, ready, done, n, left))
  }

  /** What is done is closed: nothing was replayed before what it depends on. */
  ghost predicate Closed(nodes: seq<Row>, done: set<Id>) {
    forall m :: m in nodes && m.user in done ==> Deps(m) <= done
  }

  method OrderForReplay(nodes: seq<Row>) returns (r: Result<seq<Row>, LoadFault>)
    requires Resolved(nodes)
    ensures r.Ok? <==> Acyclic(nodes)
    ensures r.Ok? ==> multiset(r.value) == multiset(nodes) && DepsFirst(r.value)
    ensures r.Ok? ==> ParentAndSponsorFirst(r.value) && ShallowestFirst(nodes, r.value)
    ensures r.Ok? ==> LeastFirst(RowSet(nodes), r.value)
    ensures r.Err? ==> Explains(NoSlots, nodes, r.error) && r.error.Cycle? && |r.error.path| <= r.error.stuck + 1
    ensures r.Err? ==> r.error.stuck == |NeverReplayed(nodes)| && forall u :: u in r.error.path ==> u in NeverReplayed(nodes)
  {
    hide DepsFirst, LeastFirst, Missing, Deps, Records, IsCycle, Unplayed, IsLeast, Ready, ParentAndSponsorFirst, ShallowestFirst;
    RowSetDistinct(nodes);
    var g := BuildGraph(nodes);
    var remaining: map<Id, int> := g.remaining;
    var ready := set n | n in nodes && remaining[n.user] == 0;
    var ordered: seq<Row> := [];
    StartsBetween(nodes, g, ready);
    while ready != {}
      invariant Between(nodes, remaining, ready, ordered)
      invariant LeastFirst(RowSet(nodes), ordered)
      decreases |Unplayed(RowSet(nodes), Users(ordered))|
    {
      var n := PopLeast(ready);
      PopKeepsOrder(nodes, ordered, n);
      OrderedIsClosed(nodes, ordered);
      remaining, ready := CountDown(nodes, g, remaining, ready, Users(ordered), n);
      ordered := ordered + [n];
    }
    if |ordered| != |nodes| {
      ghost var path;
      var cycle, stuck;
      cycle, stuck, path := FindCycle(nodes, ordered);
      StuckNeverReplays(nodes, ordered);
      return Err(Cycle(cycle, stuck));
    }
    AllReplayed(nodes, ordered);
    DepsFirstMeans(ordered);
    LeastFirstMeans(nodes, ordered);
    OrderedIsAcyclic(nodes, ordered);
    return Ok(ordered);
  }

  /** heap.Pop: the least row of the queue. */
  method PopLeast(ready: set<Row>) returns (n: Row)
    requires ready != {} && SetDistinct(ready)
    ensures IsLeast(n, ready)
  {
    LeastExists(ready);
    n :| n in ready && IsLeast(n, ready);
  }

  lemma OrderedIsClosed(nodes: seq<Row>, ordered: seq<Row>)
    requires DistinctUsers(nodes) && DepsFirst(ordered) && forall n :: n in ordered ==> n in nodes
    ensures Closed(nodes, Users(ordered))
  {
    forall m | m in nodes && m.user in Users(ordered) ensures Deps(m) <= Users(ordered) {
      var k :| k in ordered && k.user == m.user;
      SameUserSameRow(nodes, m, k);
      var i :| 0 <= i < |ordered| && ordered[i] == m;
      assert Users(ordered[..i]) <= Users(ordered);
    }
  }

  lemma StartsBetween(nodes: seq<Row>, g: Graph, ready: set<Row>)
    requires DistinctUsers(nodes) && Records(g, nodes)
    requires ready == set n | n in nodes && g.remaining[n.user] == 0
    ensures Between(nodes, g.remaining, ready, []) && LeastFirst(RowSet(nodes), [])
  {
    assert Users([]) == {};
    forall n | n in nodes ensures g.remaining[n.user] == Missing(n, {}) && (n in ready <==> Ready(n, {})) {
      assert Deps(n) - {} == Deps(n);
      MissingStep(n, {}, n.user);
    }
    assert ready == ReadyRows(RowSet(nodes), {});
  }

  lemma UsersAppend(rows: seq<Row>, n: Row)
    ensures Users(rows + [n]) == Users(rows) + {n.user}
  {
    forall u | u in Users(rows) + {n.user} ensures u in Users(rows + [n]) {
      if u == n.user {
        assert n in rows + [n];
      } else {
        var m :| m in rows && m.user == u;
        assert m in rows + [n];
      }
    }
  }

  lemma PopKeepsOrder(nodes: seq<Row>, ordered: seq<Row>, n: Row)
    requires DistinctUsers(ordered) && DepsFirst(ordered) && LeastFirst(RowSet(nodes), ordered)
    requires IsLeast(n, ReadyRows(RowSet(nodes), Users(ordered)))
    ensures DistinctUsers(ordered + [n]) && DepsFirst(ordered + [n]) && LeastFirst(RowSet(nodes), ordered + [n])
    ensures Users(ordered + [n]) == Users(ordered) + {n.user}
    ensures |Unplayed(RowSet(nodes), Users(ordered + [n]))| < |Unplayed(RowSet(nodes), Users(ordered))|
  {
    UsersAppend(ordered, n);
    var after := ordered + [n];
    forall i | 0 <= i < |after|
      ensures Deps(after[i]) <= Users(after[..i])
      ensures IsLeast(after[i], ReadyRows(RowSet(nodes), Users(after[..i])))
    {
      assert after[..i] == ordered[..i];
      if i == |ordered| { assert ordered[..i] == ordered; }
    }
    forall i | 0 <= i < |ordered| ensures ordered[i].user != n.user {
      assert ordered[i] in ordered;
    }
    assert n in Unplayed(RowSet(nodes), Users(ordered)) && n !in Unplayed(RowSet(nodes), Users(after));
    SmallerSet(Unplayed(RowSet(nodes), Users(after)), Unplayed(RowSet(nodes), Users(ordered)));
  }

  method CountDown(nodes: seq<Row>, g: Graph, remaining0: map<Id, int>, ready0: set<Row>, ghost done: set<Id>, n: Row)
    returns (remaining: map<Id, int>, ready: set<Row>)
    requires Resolved(nodes) && Records(g, nodes) && Closed(nodes, done)
    requires n in nodes && Ready(n, done) && ready0 == ReadyRows(RowSet(nodes), done)
    requires forall m :: m in nodes ==> m.user in remaining0 && remaining0[m.user] == Missing(m, done)
    ensures forall m :: m in nodes ==> m.user in remaining && remaining[m.user] == Missing(m, done + {n.user})
    ensures ready == ReadyRows(RowSet(nodes), done + {n.user})
  {
    remaining, ready := remaining0, ready0 - {n};
    var ds := Waiting(g, n.user);
    ghost var left := IdSet(ds);
    WaitingMeans(nodes, g, n);
    forall m | m in nodes ensures Counted(m, remaining, ready, done, n, left) {
      StartsCounted(nodes, m, remaining, ready, done, n, left);
    }
    for j := 0 to |ds|
      invariant left == IdSet(ds[j..]) && left <= IdSet(ds)
      invariant Counting(nodes, remaining, ready, done, n, left)
    {
      var d := ds[j];
      DropHead(ds, j);
      var row := RowFor(nodes, d);
      assert n.user in Deps(row);
      ghost var was, ready1 := remaining, ready;
      assert Counted(row, remaining, ready, done, n, left);
      remaining := remaining[d := remaining[d] - 1];
      if remaining[d] == 0 {
        ready := ready + {row};
      }
      forall m | m in nodes ensures Counted(m, remaining, ready, done, n, left - {d}) {
        StepCounted(nodes, m, was, ready1, done, n, left, row);
      }
      left := left - {d};
    }
    assert left == {};
    CountedOut(nodes, remaining, ready, done, n);
  }

  lemma CountedOut(nodes: seq<Row>, remaining: map<Id, int>, ready: set<Row>, done: set<Id>, n: Row)
    requires Counting(nodes, remaining, ready, done, n, {})
    ensures forall m :: m in nodes ==> m.user in remaining && remaining[m.user] == Missing(m, done + {n.user})
    ensures ready == ReadyRows(RowSet(nodes), done + {n.user})
  {
    forall m | m in nodes
      ensures m.user in remaining && remaining[m.user] == Missing(m, done + {n.user})
      ensures m in ready <==> Ready(m, done + {n.user})
    {
      assert Counted(m, remaining, ready, done, n, {});
    }
  }

  lemma DropHead(ds: seq<Id>, j: nat)
    requires j < |ds| && NoRepeats(ds)
    ensures ds[j] in IdSet(ds[j..]) && ds[j] in IdSet(ds)
    ensures IdSet(ds[j + 1..]) == IdSet(ds[j..]) - {ds[j]}
  {
    assert ds[j..] == [ds[j]] + ds[j + 1..];
    assert forall k :: j + 1 <= k < |ds| ==> ds[k] != ds[j];
    assert ds[j] !in ds[j + 1..];
  }

  method RowFor(nodes: seq<Row>, d: Id) returns (row: Row)
    requires HasUser(nodes, d)
    ensures row in nodes && row.user == d
  {
    row := RowOf(nodes, d).value;
  }

  lemma WaitingMeans(nodes: seq<Row>, g: Graph, n: Row)
    requires DistinctUsers(nodes) && Records(g, nodes)
    ensures NoRepeats(Waiting(g, n.user))
    ensures forall m :: m in nodes ==> (m.user in IdSet(Waiting(g, n.user)) <==> n.user in Deps(m))
    ensures forall d :: d in IdSet(Waiting(g, n.user)) ==> HasUser(nodes, d)
  {
    forall m | m in nodes ensures m.user in Waiting(g, n.user) <==> n.user in Deps(m) {
      if m.user in Waiting(g, n.user) {
        var m' :| m' in nodes && m'.user == m.user && n.user in Deps(m');
        RowOfIs(nodes, m);
        RowOfIs(nodes, m');
      }
    }
  }

  lemma SameUserSameRow(nodes: seq<Row>, a: Row, b: Row)
    requires DistinctUsers(nodes) && a in nodes && b in nodes && a.user == b.user
    ensures a == b
  {
    RowOfIs(nodes, a);
    RowOfIs(nodes, b);
  }

  lemma StartsCounted(nodes: seq<Row>, m: Row, remaining: map<Id, int>, ready: set<Row>, done: set<Id>, n: Row, left: set<Id>)
    requires DistinctUsers(nodes) && m in nodes && n in nodes && Ready(n, done)
    requires ready == ReadyRows(RowSet(nodes), done) - {n}
    requires m.user in left <==> n.user in Deps(m)
    requires m.user in remaining && remaining[m.user] == Missing(m, done)
    ensures Counted(m, remaining, ready, done, n, left)
  {
    MissingStep(m, done, n.user);
    assert m in RowSet(nodes);
    if m.user == n.user { SameUserSameRow(nodes, m, n); }
  }

  lemma StepCounted(nodes: seq<Row>, m: Row, remaining: map<Id, int>, ready: set<Row>, done: set<Id>, n: Row, left: set<Id>, row: Row)
    requires DistinctUsers(nodes) && Closed(nodes, done) && m in nodes
    requires row in nodes && row.user in left && n.user in Deps(row) && n.user !in done
    requires Counted(row, remaining, ready, done, n, left) && Counted(m, remaining, ready, done, n, left)
    ensures var next := remaining[row.user := remaining[row.user] - 1];
            Counted(m, next, if next[row.user] == 0 then ready + {row} else ready, done, n, left - {row.user})
  {
    if m.user == row.user {
      SameUserSameRow(nodes, m, row);
      MissingStep(row, done, n.user);
      MissingStep(row, done + {n.user}, n.user);
      assert row.user !in done + {n.user};
    }
  }

  lemma {:induction false} DistinctRowsSize(rows: seq<Row>)
    requires DistinctUsers(rows)
    ensures |RowSet(rows)| == |rows|
    ensures multiset(rows) == multiset(RowSet(rows))
  {
    if rows == [] {
      assert RowSet(rows) == {};
    } else {
      DistinctRowsSize(Init(rows));
      assert rows == Init(rows) + [Last(rows)];
      assert RowSet(rows) == RowSet(Init(rows)) + {Last(rows)};
    }
  }

  lemma AllReplayed(nodes: seq<Row>, ordered: seq<Row>)
    requires DistinctUsers(nodes) && DistinctUsers(ordered) && |nodes| == |ordered|
    requires forall n :: n in ordered ==> n in nodes
    ensures multiset(ordered) == multiset(nodes)
    ensures forall n :: n in nodes ==> n in ordered
  {
    DistinctRowsSize(nodes);
    DistinctRowsSize(ordered);
    if RowSet(ordered) != RowSet(nodes) { SmallerSet(RowSet(ordered), RowSet(nodes)); }
    forall n | n in nodes ensures n in ordered { assert n in RowSet(nodes); }
  }

  // ----- The cycle -----

  function Stuck(nodes: seq<Row>, emitted: set<Id>): set<Id> {
    set n | n in nodes && n.user !in emitted :: n.user
  }

  /** No dependency order of some of the rows reaches the user. */
  ghost predicate NeverReplays(nodes: seq<Row>, u: Id) {
    forall order :: DepsFirst(order) && (forall n :: n in order ==> n in nodes) ==> u !in Users(order)
  }

  ghost function NeverReplayed(nodes: seq<Row>): set<Id> {
    set n | n in nodes && NeverReplays(nodes, n.user) :: n.user
  }

  /** An order that can go no further has reached every user that any order reaches. */
  lemma {:induction false} ReachesMost(nodes: seq<Row>, ordered: seq<Row>, order: seq<Row>, k: nat)
    requires ReadyRows(RowSet(nodes), Users(ordered)) == {}
    requires DepsFirst(order) && (forall n :: n in order ==> n in nodes) && k <= |order|
    ensures Users(order[..k]) <= Users(ordered)
  {
    if k > 0 {
      ReachesMost(nodes, ordered, order, k - 1);
      var n := order[k - 1];
      assert order[..k] == order[..k - 1] + [n];
      UsersAppend(order[..k - 1], n);
      assert n in RowSet(nodes) && n !in ReadyRows(RowSet(nodes), Users(ordered));
    }
  }

  lemma StuckNeverReplays(nodes: seq<Row>, ordered: seq<Row>)
    requires ReadyRows(RowSet(nodes), Users(ordered)) == {} && DepsFirst(ordered) && forall n :: n in ordered ==> n in nodes
    ensures Stuck(nodes, Users(ordered)) == NeverReplayed(nodes)
  {
    hide DepsFirst;
    forall n | n in nodes ensures n.user !in Users(ordered) <==> NeverReplays(nodes, n.user) {
      if n.user !in Users(ordered) {
        forall order | DepsFirst(order) && (forall m :: m in order ==> m in nodes) ensures n.user !in Users(order) {
          ReachesMost(nodes, ordered, order, |order|);
          assert order[..|order|] == order;
        }
      }
    }
  }

  /** The dependency the walk goes to next: the parent unless it was emitted, and then the sponsor. */
  function UnmetOf(n: Row, emitted: set<Id>): Option<Id> {
    if n.parent.Some? && n.parent.value != n.user && n.parent.value !in emitted then n.parent
    else n.sponsor
  }

  /** A dependency of a stuck row that was never emitted, the parent before the sponsor. */
  method Unmet(nodes: seq<Row>, emitted: set<Id>, id: Id) returns (next: Id)
    requires Resolved(nodes) && ReadyRows(RowSet(nodes), emitted) == {} && id in Stuck(nodes, emitted)
    ensures DependsOn(nodes, id, next) && next in Stuck(nodes, emitted)
    ensures RowOf(nodes, id).Some? && UnmetOf(RowOf(nodes, id).value, emitted) == Some(next)
  {
    var n := RowFor(nodes, id);
    ghost var m :| m in nodes && m.user !in emitted && m.user == id;
    RowOfIs(nodes, m);
    RowOfIs(nodes, n);
    assert n in RowSet(nodes) && n !in ReadyRows(RowSet(nodes), emitted);
    assert n.parent.Some?;
    if n.parent.value != id && n.parent.value !in emitted {
      next := n.parent.value;
    } else {
      next := n.sponsor.value;
    }
    assert next in Deps(n) && HasUser(nodes, next);
    ghost var q :| q in nodes && q.user == next;
  }

  lemma LeastId(ids: set<Id>) returns (u: Id)
    requires ids != {}
    ensures u in ids && forall v :: v in ids ==> u <= v
  {
    u :| u in ids;
    var rest := ids - {u};
    assert ids == rest + {u};
    if rest != {} {
      var w := LeastId(rest);
      if w < u { u := w; }
    }
  }

  lemma StuckSize(nodes: seq<Row>, ordered: seq<Row>)
    requires DistinctUsers(nodes) && DistinctUsers(ordered) && forall n :: n in ordered ==> n in nodes
    ensures |Stuck(nodes, Users(ordered))| == |nodes| - |ordered|
  {
    DistinctRowsSize(nodes);
    DistinctRowsSize(ordered);
    UserCount(RowSet(nodes));
    UserCount(RowSet(ordered));
    var all, out := set n | n in RowSet(nodes) :: n.user, set n | n in RowSet(ordered) :: n.user;
    assert out == Users(ordered);
    assert Stuck(nodes, Users(ordered)) == all - out;
    forall u | u in out ensures u in all {
      var n :| n in ordered && n.user == u;
      assert n in RowSet(nodes);
    }
    assert all == (all - out) + out;
  }

  lemma {:induction false} UserCount(rows: set<Row>)
    requires SetDistinct(rows)
    ensures |set n | n in rows :: n.user| == |rows|
  {
    if rows == {} {
      assert (set n | n in rows :: n.user) == {};
    } else {
      var x :| x in rows;
      UserCount(rows - {x});
      assert x.user !in (set n | n in rows - {x} :: n.user);
      assert rows == (rows - {x}) + {x};
      assert (set n | n in rows :: n.user) == (set n | n in rows - {x} :: n.user) + {x.user};
    }
  }

  /** The path so far: distinct stuck users, each depending on the next. */
  ghost predicate Walk(nodes: seq<Row>, stuck: set<Id>, path: seq<Id>, cur: Id) {
    && NoRepeats(path)
    && (forall u :: u in path ==> u in stuck)
    && (forall i :: 0 <= i < |path| - 1 ==> DependsOn(nodes, path[i], path[i + 1]))
    && (path != [] ==> DependsOn(nodes, path[|path| - 1], cur))
  }

  /** The walk starts at the least stuck user and goes on to each one's unmet dependency. */
  ghost predicate LeastWalk(nodes: seq<Row>, emitted: set<Id>, path: seq<Id>, cur: Id) {
    var whole := path + [cur];
    && (whole[0] in Stuck(nodes, emitted) && forall u :: u in Stuck(nodes, emitted) ==> whole[0] <= u)
    && forall i :: 0 <= i < |path| ==> RowOf(nodes, whole[i]).Some? && UnmetOf(RowOf(nodes, whole[i]).value, emitted) == Some(whole[i + 1])
  }

  lemma ExtendLeastWalk(nodes: seq<Row>, emitted: set<Id>, path: seq<Id>, cur: Id, next: Id)
    requires LeastWalk(nodes, emitted, path, cur)
    requires RowOf(nodes, cur).Some? && UnmetOf(RowOf(nodes, cur).value, emitted) == Some(next)
    ensures LeastWalk(nodes, emitted, path + [cur], next)
  {
    hide Stuck, UnmetOf;
    var was, whole := path + [cur], path + [cur] + [next];
    assert forall i :: 0 <= i < |was| ==> whole[i] == was[i];
  }

  lemma {:induction false} WalkIsShort(path: seq<Id>, stuck: set<Id>)
    requires NoRepeats(path) && forall u :: u in path ==> u in stuck
    ensures |path| <= |stuck|
  {
    RepeatFreeSize(path);
    var s := IdSet(path);
    assert s <= stuck;
    assert stuck == s + (stuck - s);
  }

  method LeastStuck(stuck: set<Id>) returns (u: Id)
    requires stuck != {}
    ensures u in stuck && forall v :: v in stuck ==> u <= v
  {
    ghost var least := LeastId(stuck);
    u :| u in stuck && forall v :: v in stuck ==> u <= v;
  }

  ghost predicate Indexes(seenAt: map<Id, nat>, path: seq<Id>) {
    && (forall u :: u in path ==> u in seenAt)
    && (forall u :: u in seenAt ==> seenAt[u] < |path| && path[seenAt[u]] == u)
  }

  /**
   * Follows unmet dependencies from the least stuck user until one comes round
   * again. The walk stays among stuck users, so it closes within one step more
   * than there are of them.
   */
  method FindCycle(nodes: seq<Row>, ordered: seq<Row>) returns (cycle: seq<Id>, stuckCount: nat, ghost path: seq<Id>)
    requires Resolved(nodes) && DistinctUsers(ordered) && forall n :: n in ordered ==> n in nodes
    requires ReadyRows(RowSet(nodes), Users(ordered)) == {} && |ordered| != |nodes|
    ensures IsCycle(nodes, cycle) && |cycle| <= stuckCount + 1
    ensures stuckCount == |Stuck(nodes, Users(ordered))| == |nodes| - |ordered|
    ensures forall u :: u in cycle ==> u in Stuck(nodes, Users(ordered))
    ensures LeastWalk(nodes, Users(ordered), path, Last(cycle)) && NoRepeats(path)
    ensures exists k :: 0 <= k < |path| && path[k] == Last(cycle) && cycle == path[k..] + [path[k]]
  {
    hide Stuck, UnmetOf;
    var emitted := Users(ordered);
    var stuck := Stuck(nodes, emitted);
    StuckSize(nodes, ordered);
    stuckCount := |stuck|;
    var cur := LeastStuck(stuck);
    var seenAt: map<Id, nat> := map[];
    var taken: seq<Id> := [];
    while cur !in seenAt
      invariant cur in stuck && Walk(nodes, stuck, taken, cur) && Indexes(seenAt, taken)
      invariant LeastWalk(nodes, emitted, taken, cur)
      decreases |stuck| - |taken|
    {
      assert cur !in taken;
      var next := Unmet(nodes, emitted, cur);
      ExtendLeastWalk(nodes, emitted, taken, cur, next);
      ExtendWalk(nodes, stuck, taken, cur, next);
      WalkIsShort(taken + [cur], stuck);
      seenAt := seenAt[cur := |taken|];
      taken := taken + [cur];
      cur := next;
    }
    path := taken;
    WalkIsShort(taken, stuck);
    cycle := taken[seenAt[cur]..] + [cur];
    CloseWalk(nodes, stuck, taken, cur, seenAt[cur]);
  }

  lemma ExtendWalk(nodes: seq<Row>, stuck: set<Id>, path: seq<Id>, cur: Id, next: Id)
    requires Walk(nodes, stuck, path, cur) && cur in stuck && cur !in path && DependsOn(nodes, cur, next)
    ensures Walk(nodes, stuck, path + [cur], next)
  {
    var after := path + [cur];
    forall i | 0 <= i < |after| - 1 ensures DependsOn(nodes, after[i], after[i + 1]) {
      if i == |path| - 1 { assert after[i + 1] == cur; } else { assert after[i + 1] == path[i + 1]; }
    }
  }

  lemma CloseWalk(nodes: seq<Row>, stuck: set<Id>, path: seq<Id>, cur: Id, start: nat)
    requires Walk(nodes, stuck, path, cur) && start < |path| && path[start] == cur
    ensures IsCycle(nodes, path[start..] + [cur])
  {
    var cycle := path[start..] + [cur];
    forall i | 0 <= i < |cycle| - 1 ensures DependsOn(nodes, cycle[i], cycle[i + 1]) {
      assert cycle[i] == path[start + i];
      if i < |cycle| - 2 { assert cycle[i + 1] == path[start + i + 1]; }
    }
  }

  // ----- Preflight -----

  /** Accepts exactly the rows a replay can rebuild; an empty set passes. A refusal names a real fault. */
  method Preflight(rule: SlotRule, nodes: seq<Row>) returns (fault: Option<LoadFault>)
    ensures fault.None? <==> Loadable(rule, nodes)
    ensures fault.Some? ==> Explains(rule, nodes, fault.value)
  {
    if nodes == [] {
      return None;
    }
    fault := TreeLoader.ValidateNodes(rule, nodes);
    if fault.Some? {
      return;
    }
    ValidIsResolved(rule, nodes);
    var r := OrderForReplay(nodes);
    if r.Err? {
      return Some(r.error);
    }
  }
}
