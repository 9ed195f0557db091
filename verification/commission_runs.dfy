/**
 * The in-memory commission run store: one live run per period, results that
 * freeze when their run leaves the running state, and replacement chains.
 */
module CommissionRuns {
  import opened TreeTypes

  datatype Status = Running | Complete | Voided

  /** A JSON document: none, an object, or something else. */
  datatype Json = NoJson | Object(text: string) | OtherJson

  datatype Run = Run(
    id: Id,
    period: string,
    planHash: string,
    status: Status,
    carryForward: Json,
    completedAt: Option<Time>,
    voidedAt: Option<Time>,
    supersededBy: Option<Id>)

  /** An amount, and whether its decimal text reads back. */
  datatype Amount = Amount(value: real, readsBack: bool)

  datatype ResultInput = ResultInput(earner: Id, amount: Amount, detail: Json)

  datatype ResultRow = ResultRow(id: int, run: Id, structure: string, earner: Id, amount: Amount, detail: Json)

  datatype RunFault =
    | BadInput
    | LiveRunExists(existing: Id)
    | RunNotFound
    | RunNotRunning(status: Status)

  // ----- Input checks -----

  predicate TextOk(s: string) {
    s != "" && '\0' !in s
  }

  const HASH_PREFIX: string := "sha256:"

  predicate PlanHashOk(h: string) {
    && |h| == |HASH_PREFIX| + 64 && HASH_PREFIX <= h
    && forall i :: |HASH_PREFIX| <= i < |h| ==> ('0' <= h[i] <= '9' || 'a' <= h[i] <= 'f')
  }

  predicate InputsOk(structure: string, inputs: seq<ResultInput>) {
    TextOk(structure) && forall r :: r in inputs ==> r.earner != NIL_ID && r.amount.readsBack && r.detail.Object?
  }

  // ----- What the store always satisfies -----

  predicate Live(r: Run) {
    !r.status.Voided?
  }

  ghost predicate OnePerPeriod(runs: map<Id, Run>) {
    forall a, b :: a in runs && b in runs && Live(runs[a]) && Live(runs[b]) && runs[a].period == runs[b].period ==> a == b
  }

  ghost predicate PeriodFree(runs: map<Id, Run>, period: string) {
    forall id :: id in runs && runs[id].period == period ==> !Live(runs[id])
  }

  function Opened(id: Id, period: string, planHash: string): Run {
    Run(id, period, planHash, Running, NoJson, None, None, None)
  }

  ghost predicate NoLinkTo(runs: map<Id, Run>, id: Id) {
    forall a :: a in runs ==> runs[a].supersededBy != Some(id)
  }

  /** The runs once one is voided, linked to its replacement, and the replacement opened. */
  function Replaced(runs: map<Id, Run>, oldId: Id, id: Id, planHash: string, at: Time): map<Id, Run>
    requires oldId in runs
  {
    runs[oldId := runs[oldId].(status := Voided, voidedAt := Some(at), supersededBy := Some(id))][id := Opened(id, runs[oldId].period, planHash)]
  }

  /** A run's times, carry-forward and link fit its status. */
  predicate FieldsFit(r: Run) {
    && (r.status.Running? ==> r.carryForward.NoJson? && r.completedAt.None?)
    && (r.status.Complete? ==> r.completedAt.Some?)
    && (r.status.Voided? <==> r.voidedAt.Some?)
    && (r.supersededBy.Some? ==> r.status.Voided?)
    && !r.carryForward.OtherJson?
  }

  /** The runs in the order they were created. */
  ghost predicate CreatedInOrder(runs: map<Id, Run>, created: seq<Id>) {
    && (forall i, j :: 0 <= i < j < |created| ==> created[i] != created[j])
    && (forall id :: id in runs <==> id in created)
    && (forall id :: id in runs ==> runs[id].id == id && FieldsFit(runs[id]))
  }

  /** b was created after a. */
  ghost predicate CreatedAfter(created: seq<Id>, a: Id, b: Id) {
    exists i, j :: 0 <= i < j < |created| && created[i] == a && created[j] == b
  }

  /** A replaced run points to a later run of its own period, and no two point to the same one. */
  ghost predicate LinksOk(runs: map<Id, Run>, created: seq<Id>) {
    && (forall a :: a in runs && runs[a].supersededBy.Some? ==>
          && runs[a].supersededBy.value in runs
          && runs[runs[a].supersededBy.value].period == runs[a].period
          && CreatedAfter(created, a, runs[a].supersededBy.value))
    && (forall a, b :: a in runs && b in runs && runs[a].supersededBy.Some? && runs[a].supersededBy == runs[b].supersededBy ==> a == b)
  }

  ghost predicate Consistent(runs: map<Id, Run>, created: seq<Id>) {
    OnePerPeriod(runs) && CreatedInOrder(runs, created) && LinksOk(runs, created)
  }

  predicate Ascending(rows: seq<ResultRow>) {
    forall i, j :: 0 <= i < j < |rows| ==> rows[i].id < rows[j].id
  }

  predicate RowsOk(rows: seq<ResultRow>, run: Id, nextId: int) {
    Ascending(rows) && forall r :: r in rows ==> r.run == run && r.id < nextId && r.structure != "" && r.amount.readsBack && r.detail.Object?
  }

  ghost predicate ResultsOk(runs: map<Id, Run>, results: map<Id, seq<ResultRow>>, nextId: int) {
    forall id :: id in results ==> id in runs && RowsOk(results[id], id, nextId)
  }

  // ----- What never goes back -----

  function Rank(s: Status): int {
    match s
    case Running => 0
    case Complete => 1
    case Voided => 2
  }

  /** One run's later state: same period and plan, status no lower, and what was final stays. */
  predicate RunEvolves(a: Run, b: Run) {
    && b.id == a.id && b.period == a.period && b.planHash == a.planHash
    && Rank(a.status) <= Rank(b.status)
    && (!a.status.Running? ==> b.carryForward == a.carryForward && b.completedAt == a.completedAt)
    && (a.status.Voided? ==> b.voidedAt == a.voidedAt)
    && (a.supersededBy.Some? ==> b.supersededBy == a.supersededBy)
  }

  function RowsOf(results: map<Id, seq<ResultRow>>, id: Id): seq<ResultRow> {
    if id in results then results[id] else []
  }

  datatype Db = Db(runs: map<Id, Run>, results: map<Id, seq<ResultRow>>)

  /** Runs are never lost, and the rows of one that has left the running state never change. */
  ghost predicate Evolves(a: Db, b: Db) {
    forall id :: id in a.runs ==>
      && id in b.runs && RunEvolves(a.runs[id], b.runs[id])
      && (!a.runs[id].status.Running? ==> RowsOf(b.results, id) == RowsOf(a.results, id))
  }

  lemma EvolvesTrans(a: Db, b: Db, c: Db)
    requires Evolves(a, b) && Evolves(b, c)
    ensures Evolves(a, c)
  {
    forall id | id in a.runs
      ensures id in c.runs && RunEvolves(a.runs[id], c.runs[id])
      ensures !a.runs[id].status.Running? ==> RowsOf(c.results, id) == RowsOf(a.results, id)
    {
      assert id in b.runs && RunEvolves(a.runs[id], b.runs[id]) && RunEvolves(b.runs[id], c.runs[id]);
    }
  }

  // ----- Calls -----

  /** The store as a value, with the order its runs were created in. */
  datatype State = State(runs: map<Id, Run>, results: map<Id, seq<ResultRow>>, nextId: int, created: seq<Id>)
  {
    function Value(): Db {
      Db(runs, results)
    }
  }

  const EMPTY_STATE: State := State(map[], map[], 1, [])

  ghost predicate Good(s: State) {
    Consistent(s.runs, s.created) && ResultsOk(s.runs, s.results, s.nextId)
  }

  /** One call on the store. A run's id is drawn for it, and the clock is read. */
  datatype Call =
    | Create(period: string, planHash: string, id: Id)
    | CompleteCall(run: Id, carryForward: Json, at: Time)
    | Void(run: Id, at: Time)
    | Replace(run: Id, planHash: string, id: Id, at: Time)
    | Save(run: Id, structure: string, inputs: seq<ResultInput>)

  /** The call's checks pass. */
  ghost predicate Accepts(s: State, c: Call) {
    match c
    case Create(period, planHash, _) => TextOk(period) && PlanHashOk(planHash) && PeriodFree(s.runs, period)
    case CompleteCall(run, carryForward, _) => !carryForward.OtherJson? && run in s.runs && s.runs[run].status.Running?
    case Void(run, _) => run in s.runs && Live(s.runs[run])
    case Replace(run, planHash, _, _) => PlanHashOk(planHash) && run in s.runs && Live(s.runs[run])
    case Save(run, structure, inputs) => InputsOk(structure, inputs) && run in s.runs && s.runs[run].status.Running?
  }

  /** The store after a call. One that is refused changes nothing. */
  ghost function After(s: State, c: Call): State {
    if !Accepts(s, c) then s
    else
      match c
      case Create(period, planHash, id) => s.(runs := s.runs[id := Opened(id, period, planHash)], created := s.created + [id])
      case CompleteCall(run, carryForward, at) =>
        s.(runs := s.runs[run := s.runs[run].(status := Complete, completedAt := Some(at), carryForward := carryForward)])
      case Void(run, at) => s.(runs := s.runs[run := s.runs[run].(status := Voided, voidedAt := Some(at))])
      case Replace(run, planHash, id, at) => s.(runs := Replaced(s.runs, run, id, planHash, at), created := s.created + [id])
      case Save(run, structure, inputs) =>
        s.(results := s.results[run := OtherStructures(RowsOf(s.results, run), structure) + Numbered(inputs, run, structure, s.nextId)],
           nextId := s.nextId + |inputs|)
  }

  // ----- Replacement chains -----

  /** The run k replacements after a. */
  function Follow(runs: map<Id, Run>, a: Id, k: nat): Option<Id> {
    if k == 0 then Some(a)
    else
      var prev := Follow(runs, a, k - 1);
      if prev.None? || prev.value !in runs then None else runs[prev.value].supersededBy
  }

  lemma AfterTrans(created: seq<Id>, a: Id, b: Id, c: Id)
    requires forall i, j :: 0 <= i < j < |created| ==> created[i] != created[j]
    requires CreatedAfter(created, a, b) && CreatedAfter(created, b, c)
    ensures CreatedAfter(created, a, c)
  {
    var i, j :| 0 <= i < j < |created| && created[i] == a && created[j] == b;
    var k, l :| 0 <= k < l < |created| && created[k] == b && created[l] == c;
    assert j == k;
    assert 0 <= i < l < |created| && created[i] == a && created[l] == c;
  }

  /** A chain of replacements stays in one period and only moves to later runs, so it never comes back. */
  lemma {:induction false} ChainsMoveForward(runs: map<Id, Run>, created: seq<Id>, a: Id, k: nat)
    requires CreatedInOrder(runs, created) && LinksOk(runs, created) && a in runs && k > 0
    ensures var b := Follow(runs, a, k);
            b.Some? ==> b.value in runs && runs[b.value].period == runs[a].period && CreatedAfter(created, a, b.value) && b.value != a
  {
    hide CreatedAfter, FieldsFit;
    var b := Follow(runs, a, k);
    if b.Some? {
      if k > 1 {
        ChainsMoveForward(runs, created, a, k - 1);
        var prev := Follow(runs, a, k - 1).value;
        assert runs[prev].supersededBy == b;
        AfterTrans(created, a, prev, b.value);
      }
      AfterDiffers(created, a, b.value);
    }
  }

  lemma AfterDiffers(created: seq<Id>, a: Id, b: Id)
    requires forall i, j :: 0 <= i < j < |created| ==> created[i] != created[j]
    requires CreatedAfter(created, a, b)
    ensures a != b
  {
    var i, j :| 0 <= i < j < |created| && created[i] == a && created[j] == b;
  }

  // ----- Rows -----

  function OtherStructures(rows: seq<ResultRow>, structure: string): seq<ResultRow> {
    if rows == [] then []
    else if Last(rows).structure != structure then OtherStructures(Init(rows), structure) + [Last(rows)]
    else OtherStructures(Init(rows), structure)
  }

  function Numbered(inputs: seq<ResultInput>, run: Id, structure: string, nextId: int): (r: seq<ResultRow>)
    ensures |r| == |inputs|
    ensures forall i :: 0 <= i < |r| ==> r[i] == ResultRow(nextId + i, run, structure, inputs[i].earner, inputs[i].amount, inputs[i].detail)
  {
    seq(|inputs|, i requires 0 <= i < |inputs| => ResultRow(nextId + i, run, structure, inputs[i].earner, inputs[i].amount, inputs[i].detail))
  }

  lemma {:induction false} OthersKeepOrder(rows: seq<ResultRow>, structure: string)
    requires Ascending(rows)
    ensures Ascending(OtherStructures(rows, structure))
    ensures forall r :: r in OtherStructures(rows, structure) <==> r in rows && r.structure != structure
  {
    if rows != [] {
      OthersKeepOrder(Init(rows), structure);
      assert rows == Init(rows) + [Last(rows)];
      forall r | r in OtherStructures(Init(rows), structure) ensures r.id < Last(rows).id {
        var i :| 0 <= i < |rows| - 1 && rows[i] == r;
      }
    }
  }

  /** Replacing one structure's rows keeps the others, and the new ids come after them all. */
  lemma ReplacedRowsOk(rows: seq<ResultRow>, inputs: seq<ResultInput>, run: Id, structure: string, nextId: int)
    requires RowsOk(rows, run, nextId) && InputsOk(structure, inputs)
    ensures RowsOk(OtherStructures(rows, structure) + Numbered(inputs, run, structure, nextId), run, nextId + |inputs|)
  {
    OthersKeepOrder(rows, structure);
    var kept, added := OtherStructures(rows, structure), Numbered(inputs, run, structure, nextId);
    forall r: ResultRow | r in kept + added ensures r.run == run && r.id < nextId + |inputs| && r.structure != "" && r.amount.readsBack && r.detail.Object? {
      if r in kept { assert r in rows; } else {
        var i :| 0 <= i < |added| && added[i] == r;
        assert inputs[i] in inputs;
      }
    }
    forall i, j | 0 <= i < j < |kept + added| ensures (kept + added)[i].id < (kept + added)[j].id {
      if i < |kept| <= j { assert kept[i] in kept; }
    }
  }

  // ----- The store -----

  class MemoryCommissionRunStore {
    var runs: map<Id, Run>
    var results: map<Id, seq<ResultRow>>
    var nextId: int
    ghost var created: seq<Id>

    constructor ()
      ensures Valid() && Contents() == EMPTY_STATE
    {
      runs, results, nextId, created := map[], map[], 1, [];
    }

    ghost predicate Valid()
      reads this
    {
      Consistent(runs, created) && ResultsOk(runs, results, nextId)
    }

    ghost function Value(): Db
      reads this
    {
      Db(runs, results)
    }

    ghost function Contents(): State
      reads this
    {
      State(runs, results, nextId, created)
    }

    /** The period's live run, looked for in no particular order: there is at most one to find. */
    method ActiveRun(period: string) returns (r: Option<Run>)
      requires Valid()
      ensures r.Some? ==> r.value.id in runs && runs[r.value.id] == r.value && Live(r.value) && r.value.period == period
      ensures r.None? ==> PeriodFree(runs, period)
    {
      var rest := runs.Keys;
      while rest != {}
        invariant rest <= runs.Keys
        invariant forall id :: id in runs && id !in rest && runs[id].period == period ==> !Live(runs[id])
        decreases |rest|
      {
        var id :| id in rest;
        rest := rest - {id};
        if runs[id].period == period && !runs[id].status.Voided? {
          return Some(runs[id]);
        }
      }
      return None;
    }

    /** Opens a run under an id not used before, unless the period has a live one. */
    method OpenRun(period: string, planHash: string, id: Id) returns (fault: Option<RunFault>)
      requires Valid() && id !in runs
      modifies this
      ensures Valid() && Evolves(old(Value()), Value()) && results == old(results) && nextId == old(nextId)
      ensures fault.None? <==> PeriodFree(old(runs), period)
      ensures fault.None? ==> runs == old(runs)[id := Opened(id, period, planHash)] && created == old(created) + [id]
      ensures fault.Some? ==> unchanged(this) && fault.value.LiveRunExists? && fault.value.existing in runs
                              && Live(runs[fault.value.existing]) && runs[fault.value.existing].period == period
    {
      SameEvolves(Value());
      var existing := ActiveRun(period);
      hide Consistent, ResultsOk, Evolves;
      if existing.Some? {
        return Some(LiveRunExists(existing.value.id));
      }
      ghost var before := Value();
      runs := runs[id := Opened(id, period, planHash)];
      created := created + [id];
      OpenedOk(before.runs, runs, old(created), id);
      OpenEvolves(before, Value(), id);
      RunsOnly(before, Value(), nextId);
      return None;
    }

    method CreateRun(period: string, planHash: string, id: Id) returns (fault: Option<RunFault>)
      requires Valid() && id !in runs
      modifies this
      ensures Valid() && Evolves(old(Value()), Value()) && results == old(results) && nextId == old(nextId)
      ensures fault.None? <==> TextOk(period) && PlanHashOk(planHash) && PeriodFree(old(runs), period)
      ensures Contents() == After(old(Contents()), Create(period, planHash, id))
      ensures fault.None? ==>
                && runs == old(runs)[id := Run(id, period, planHash, Running, NoJson, None, None, None)]
                && created == old(created) + [id]
      ensures fault.Some? ==> unchanged(this)
    {
      if !TextOk(period) || !PlanHashOk(planHash) {
        return Some(BadInput);
      }
      fault := OpenRun(period, planHash, id);
    }

    /** Completes a running run with its carry-forward. */
    method CompleteRun(id: Id, carryForward: Json) returns (fault: Option<RunFault>, ghost at: Time)
      requires Valid()
      modifies this`runs
      ensures Valid() && Evolves(old(Value()), Value())
      ensures fault.None? <==> !carryForward.OtherJson? && id in old(runs) && old(runs)[id].status.Running?
      ensures Contents() == After(old(Contents()), CompleteCall(id, carryForward, at))
      ensures fault.None? ==>
                var r := old(runs)[id];
                runs == old(runs)[id := Run(id, r.period, r.planHash, Complete, carryForward, Some(at), None, None)]
      ensures fault.Some? ==> runs == old(runs)
    {
      SameEvolves(Value());
      FieldsFitAt(runs, created, id);
      hide ResultsOk, Evolves, Consistent;
      var now: Time := *;
      at := now;
      if carryForward.OtherJson? {
        return Some(BadInput), at;
      }
      if id !in runs {
        return Some(RunNotFound), at;
      }
      if !runs[id].status.Running? {
        return Some(RunNotRunning(runs[id].status)), at;
      }
      ghost var before := Value();
      runs := runs[id := runs[id].(status := Complete, completedAt := Some(now), carryForward := carryForward)];
      StatusMoved(before, Value(), created, id);
      RunsOnly(before, Value(), nextId);
      return None, at;
    }

    /** Voids a run. Voiding one again changes nothing, so a retry is safe. */
    method VoidRun(id: Id) returns (fault: Option<RunFault>, ghost at: Time)
      requires Valid()
      modifies this`runs
      ensures Valid() && Evolves(old(Value()), Value())
      ensures fault.None? <==> id in old(runs)
      ensures id in old(runs) && old(runs)[id].status.Voided? ==> runs == old(runs)
      ensures Contents() == After(old(Contents()), Void(id, at))
      ensures id in old(runs) && Live(old(runs)[id]) ==>
                var r := old(runs)[id];
                runs == old(runs)[id := Run(id, r.period, r.planHash, Voided, r.carryForward, r.completedAt, Some(at), None)]
      ensures fault.Some? ==> runs == old(runs)
    {
      SameEvolves(Value());
      FieldsFitAt(runs, created, id);
      hide ResultsOk, Evolves, Consistent;
      var now: Time := *;
      at := now;
      if id !in runs {
        return Some(RunNotFound), at;
      }
      if runs[id].status.Voided? {
        return None, at;
      }
      ghost var before := Value();
      runs := runs[id := runs[id].(status := Voided, voidedAt := Some(now))];
      StatusMoved(before, Value(), created, id);
      RunsOnly(before, Value(), nextId);
      return None, at;
    }

    /** Voids a run and opens its replacement in the same period, linked from the old one. Refused, it changes nothing. */
    method ReplaceRun(oldId: Id, planHash: string, id: Id) returns (fault: Option<RunFault>, ghost at: Time)
      requires Valid() && id !in runs
      modifies this
      ensures Valid() && Evolves(old(Value()), Value()) && results == old(results) && nextId == old(nextId)
      ensures fault.None? <==> PlanHashOk(planHash) && oldId in old(runs) && Live(old(runs)[oldId])
      ensures fault.Some? ==> runs == old(runs)
      ensures Contents() == After(old(Contents()), Replace(oldId, planHash, id, at))
      ensures fault.None? ==>
                var r := old(runs)[oldId];
                && runs == old(runs)[oldId := Run(oldId, r.period, r.planHash, Voided, r.carryForward, r.completedAt, Some(at), Some(id))]
                                    [id := Run(id, r.period, planHash, Running, NoJson, None, None, None)]
                && created == old(created) + [id]
    {
      at := 0;
      SameEvolves(Value());
      hide ResultsOk, Evolves, Consistent, PlanHashOk, Replaced;
      if !PlanHashOk(planHash) {
        return Some(BadInput), at;
      }
      if oldId !in runs {
        return Some(RunNotFound), at;
      }
      if !runs[oldId].status.Running? && !runs[oldId].status.Complete? {
        return Some(RunNotRunning(runs[oldId].status)), at;
      }
      at := Swap(oldId, planHash, id);
      ReplacedIs(old(runs), old(created), oldId, id, planHash, at);
      return None, at;
    }

    /** Voids, opens and links, in that order: the period must be free before the replacement is opened. */
    method Swap(oldId: Id, planHash: string, id: Id) returns (ghost at: Time)
      requires Valid() && id !in runs && oldId in runs && Live(runs[oldId])
      modifies this
      ensures Valid() && Evolves(old(Value()), Value()) && results == old(results) && nextId == old(nextId)
      ensures runs == Replaced(old(runs), oldId, id, planHash, at) && created == old(created) + [id]
    {
      hide Consistent, ResultsOk, Evolves, PeriodFree, NoLinkTo, OnePerPeriod, FieldsFit, Replaced, After, Opened;
      SwapStarts(runs, created, oldId);
      ghost var a := Value();
      var period := runs[oldId].period;
      var fault;
      fault, at := VoidRun(oldId);
      ghost var b := Value();
      VoidedIs(old(Contents()), Contents(), oldId, at);
      SwapFacts(a.runs, b.runs, created, oldId, id);
      fault := OpenRun(period, planHash, id);
      ghost var c := Value();
      EvolvesTrans(a, b, c);
      SwapLinks(b.runs, c.runs, oldId, id, planHash);
      Link(oldId, id);
      EvolvesTrans(a, c, Value());
      SwapIsReplaced(a.runs, runs, oldId, id, planHash, at);
    }

    /** Points a voided run to the run opened last, its replacement. */
    method Link(oldId: Id, id: Id)
      requires Valid() && created != [] && Last(created) == id && oldId in runs && id in runs && oldId != id
      requires runs[oldId].status.Voided? && runs[oldId].supersededBy.None? && runs[oldId].period == runs[id].period
      requires NoLinkTo(runs, id)
      modifies this`runs
      ensures Valid() && Evolves(old(Value()), Value())
      ensures runs == old(runs)[oldId := old(runs)[oldId].(supersededBy := Some(id))]
    {
      hide ResultsOk, Evolves, Consistent;
      ghost var c := Value();
      runs := runs[oldId := runs[oldId].(supersededBy := Some(id))];
      LinkedOk(c.runs, runs, created, oldId, id);
      RunsOnly(c, Value(), nextId);
      StatusEvolves(c, Value(), oldId);
    }

    /** Replaces one structure's rows of a running run. Rows of other structures, and of other runs, stay. */
    method SaveResults(id: Id, structure: string, inputs: seq<ResultInput>) returns (fault: Option<RunFault>)
      requires Valid()
      modifies this`results, this`nextId
      ensures Valid() && Evolves(old(Value()), Value())
      ensures fault.None? <==> InputsOk(structure, inputs) && id in runs && runs[id].status.Running?
      ensures Contents() == After(old(Contents()), Save(id, structure, inputs))
      ensures fault.None? ==>
                && id in results && results == old(results)[id := results[id]] && nextId == old(nextId) + |inputs|
                && Saved(RowsOf(old(results), id), results[id], inputs, id, structure, old(nextId))
      ensures fault.Some? ==> results == old(results) && nextId == old(nextId)
    {
      hide ResultsOk, Evolves, Consistent, InputsOk, OtherStructures, Numbered, RowsOk, Saved, Ascending;
      SameEvolves(Value());
      RowsOkAt(runs, results, nextId, id);
      if !InputsOk(structure, inputs) {
        return Some(BadInput);
      }
      if id !in runs {
        return Some(RunNotFound);
      }
      if !runs[id].status.Running? {
        return Some(RunNotRunning(runs[id].status));
      }
      var rows := RowsOf(results, id);
      var kept := KeepOthers(rows, structure);
      var added := NumberRows(inputs, id, structure);
      ReplacedRowsOk(rows, inputs, id, structure, nextId);
      SavedRows(rows, inputs, id, structure, nextId);
      ghost var before := Value();
      results := results[id := kept + added];
      ResultsReplaced(before, Value(), nextId, nextId + |inputs|, id);
      nextId := nextId + |inputs|;
      return None;
    }

    /** The rows of every other structure, in order. */
    method KeepOthers(rows: seq<ResultRow>, structure: string) returns (kept: seq<ResultRow>)
      ensures kept == OtherStructures(rows, structure)
    {
      kept := [];
      for i := 0 to |rows|
        invariant kept == OtherStructures(rows[..i], structure)
      {
        assert Init(rows[..i + 1]) == rows[..i];
        if rows[i].structure != structure {
          kept := kept + [rows[i]];
        }
      }
      assert rows[..|rows|] == rows;
    }

    /** The new rows, numbered on from the store's counter. */
    method NumberRows(inputs: seq<ResultInput>, id: Id, structure: string) returns (added: seq<ResultRow>)
      ensures added == Numbered(inputs, id, structure, nextId)
    {
      added := [];
      for i := 0 to |inputs|
        invariant added == Numbered(inputs, id, structure, nextId)[..i]
      {
        added := added + [ResultRow(nextId + i, id, structure, inputs[i].earner, inputs[i].amount, inputs[i].detail)];
      }
    }

    /** A run's rows by ascending id, whatever the run's status. */
    method GetResults(id: Id) returns (r: Result<seq<ResultRow>, RunFault>)
      requires Valid()
      ensures r.Ok? <==> id in runs
      ensures r.Ok? ==> r.value == RowsOf(results, id) && Ascending(r.value)
    {
      return if id in runs then Ok(RowsOf(results, id)) else Err(RunNotFound);
    }

    /** The period's current results: those of its one live run, once it is complete. */
    method GetLiveResults(period: string) returns (rows: seq<ResultRow>, ghost source: Option<Id>)
      requires Valid()
      ensures Ascending(rows)
      ensures source.Some? ==> source.value in runs && runs[source.value].status.Complete? && runs[source.value].period == period && rows == RowsOf(results, source.value)
      ensures source.None? ==> rows == [] && forall id :: id in runs && runs[id].period == period ==> !runs[id].status.Complete?
      ensures forall id :: id in runs && runs[id].period == period && runs[id].status.Complete? ==> source == Some(id)
    {
      var run := ActiveRun(period);
      if run.None? || !run.value.status.Complete? {
        return [], None;
      }
      return RowsOf(results, run.value.id), Some(run.value.id);
    }
  }

  lemma OpenedOk(before: map<Id, Run>, after: map<Id, Run>, created: seq<Id>, id: Id)
    requires Consistent(before, created) && id !in before
    requires id in after && after == before[id := after[id]] && after[id].id == id && FieldsFit(after[id]) && after[id].supersededBy.None?
    requires PeriodFree(before, after[id].period)
    ensures Consistent(after, created + [id])
  {
    OpenedLinks(before, after, created, id);
    hide LinksOk;
  }

  lemma OpenEvolves(before: Db, after: Db, id: Id)
    requires id !in before.runs && id in after.runs && after.runs == before.runs[id := after.runs[id]] && after.results == before.results
    ensures Evolves(before, after)
  {
  }

  lemma OpenedLinks(before: map<Id, Run>, after: map<Id, Run>, created: seq<Id>, id: Id)
    requires LinksOk(before, created) && id !in before
    requires id in after && after == before[id := after[id]] && after[id].supersededBy.None?
    ensures LinksOk(after, created + [id])
  {
    forall a | a in after && after[a].supersededBy.Some? ensures CreatedAfter(created + [id], a, after[a].supersededBy.value) {
      AfterExtends(created, id, a, after[a].supersededBy.value);
    }
  }

  lemma AfterExtends(created: seq<Id>, id: Id, a: Id, b: Id)
    requires CreatedAfter(created, a, b)
    ensures CreatedAfter(created + [id], a, b)
  {
    var i, j :| 0 <= i < j < |created| && created[i] == a && created[j] == b;
    assert (created + [id])[i] == a && (created + [id])[j] == b;
  }

  lemma LinkedOk(before: map<Id, Run>, after: map<Id, Run>, created: seq<Id>, oldId: Id, id: Id)
    requires Consistent(before, created) && created != [] && Last(created) == id
    requires oldId in before && id in before && oldId != id && before[oldId].status.Voided? && before[oldId].period == before[id].period
    requires NoLinkTo(before, id)
    requires after == before[oldId := before[oldId].(supersededBy := Some(id))]
    ensures Consistent(after, created)
  {
    hide LinksOk;
    var i :| 0 <= i < |created| && created[i] == oldId;
    assert 0 <= i < |created| - 1 && created[|created| - 1] == id;
    assert CreatedAfter(created, oldId, id);
    NewLinkOk(before, after, created, oldId, id);
  }

  lemma NewLinkOk(before: map<Id, Run>, after: map<Id, Run>, created: seq<Id>, oldId: Id, id: Id)
    requires LinksOk(before, created) && CreatedAfter(created, oldId, id)
    requires oldId in before && id in before && oldId != id && before[oldId].period == before[id].period
    requires NoLinkTo(before, id)
    requires after == before[oldId := before[oldId].(supersededBy := Some(id))]
    ensures LinksOk(after, created)
  {
    hide CreatedAfter;
    forall a | a in after && after[a].supersededBy.Some?
      ensures after[a].supersededBy.value in after && after[after[a].supersededBy.value].period == after[a].period
      ensures CreatedAfter(created, a, after[a].supersededBy.value)
    {
      if a != oldId { assert before[a].supersededBy.value in before; }
    }
    forall a, b | a in after && b in after && after[a].supersededBy.Some? && after[a].supersededBy == after[b].supersededBy ensures a == b {
      if a != oldId && b != oldId { assert before[a].supersededBy == before[b].supersededBy; }
    }
  }

  lemma SameEvolves(a: Db)
    ensures Evolves(a, a)
  {
  }

  lemma FieldsFitAt(runs: map<Id, Run>, created: seq<Id>, id: Id)
    requires Consistent(runs, created)
    ensures id in runs ==> FieldsFit(runs[id])
  {
  }

  lemma RowsOkAt(runs: map<Id, Run>, results: map<Id, seq<ResultRow>>, nextId: int, id: Id)
    requires ResultsOk(runs, results, nextId)
    ensures RowsOk(RowsOf(results, id), id, nextId) && Ascending(RowsOf(results, id))
  {
  }

  /** A run's status moved on, and nothing about its period or link changed. */
  lemma StatusMoved(before: Db, after: Db, created: seq<Id>, id: Id)
    requires Consistent(before.runs, created) && id in before.runs && id in after.runs
    requires after.runs == before.runs[id := after.runs[id]] && after.results == before.results
    requires RunEvolves(before.runs[id], after.runs[id]) && FieldsFit(after.runs[id])
    requires after.runs[id].supersededBy == before.runs[id].supersededBy && Live(before.runs[id])
    ensures Consistent(after.runs, created) && Evolves(before, after)
  {
    LinksSurvive(before.runs, after.runs, created, id);
    StillOnePerPeriod(before.runs, after.runs, id);
    StatusEvolves(before, after, id);
    hide LinksOk, OnePerPeriod, Evolves;
  }

  lemma StatusEvolves(before: Db, after: Db, id: Id)
    requires id in before.runs && id in after.runs && after.runs == before.runs[id := after.runs[id]] && after.results == before.results
    requires RunEvolves(before.runs[id], after.runs[id])
    ensures Evolves(before, after)
  {
  }

  lemma StillOnePerPeriod(before: map<Id, Run>, after: map<Id, Run>, id: Id)
    requires OnePerPeriod(before) && id in before && id in after && after == before[id := after[id]]
    requires after[id].period == before[id].period && Live(before[id])
    ensures OnePerPeriod(after)
  {
    forall a, b | a in after && b in after && Live(after[a]) && Live(after[b]) && after[a].period == after[b].period ensures a == b {
      assert Live(before[a]) && Live(before[b]) && before[a].period == before[b].period;
    }
  }

  lemma LinksSurvive(before: map<Id, Run>, after: map<Id, Run>, created: seq<Id>, id: Id)
    requires LinksOk(before, created) && id in before && id in after && after == before[id := after[id]]
    requires after[id].period == before[id].period && after[id].supersededBy == before[id].supersededBy
    ensures LinksOk(after, created)
  {
    forall a | a in after && after[a].supersededBy.Some?
      ensures after[a].supersededBy.value in after && after[after[a].supersededBy.value].period == after[a].period
      ensures CreatedAfter(created, a, after[a].supersededBy.value)
    {
      assert a in before && before[a].supersededBy == after[a].supersededBy;
    }
    forall a, b | a in after && b in after && after[a].supersededBy.Some? && after[a].supersededBy == after[b].supersededBy ensures a == b {
      assert before[a].supersededBy == before[b].supersededBy;
    }
  }

  /** A change to the runs alone leaves every row where it was. */
  lemma RunsOnly(before: Db, after: Db, nextId: int)
    requires ResultsOk(before.runs, before.results, nextId) && after.results == before.results && before.runs.Keys <= after.runs.Keys
    ensures ResultsOk(after.runs, after.results, nextId)
  {
    hide RowsOk;
  }

  lemma SwapFacts(a: map<Id, Run>, b: map<Id, Run>, created: seq<Id>, oldId: Id, id: Id)
    requires oldId in a && Live(a[oldId]) && OnePerPeriod(a) && id !in a
    requires Consistent(b, created) && oldId in b && b == a[oldId := b[oldId]] && !Live(b[oldId])
    ensures PeriodFree(b, a[oldId].period) && id !in b && NoLinkTo(b, id)
  {
    VoidFrees(a, b, created, oldId);
    NobodyLinks(b, created, id);
  }

  lemma SwapLinks(b: map<Id, Run>, c: map<Id, Run>, oldId: Id, id: Id, planHash: string)
    requires oldId in b && id !in b && NoLinkTo(b, id)
    requires c == b[id := Opened(id, b[oldId].period, planHash)]
    ensures oldId in c && id in c && c[oldId] == b[oldId] && c[id].period == b[oldId].period && NoLinkTo(c, id)
  {
  }

  lemma SwapIsReplaced(a: map<Id, Run>, d: map<Id, Run>, oldId: Id, id: Id, planHash: string, at: Time)
    requires oldId in a && id !in a
    requires var v := a[oldId].(status := Voided, voidedAt := Some(at));
             d == a[oldId := v][id := Opened(id, a[oldId].period, planHash)][oldId := v.(supersededBy := Some(id))]
    ensures d == Replaced(a, oldId, id, planHash, at)
  {
  }

  /** Voiding a period's live run frees the period. */
  lemma VoidFrees(before: map<Id, Run>, after: map<Id, Run>, created: seq<Id>, id: Id)
    requires Consistent(after, created) && id in before && Live(before[id]) && OnePerPeriod(before)
    requires id in after && after == before[id := after[id]] && !Live(after[id])
    ensures PeriodFree(after, before[id].period)
  {
  }

  /** No run points to an id that is not there yet. */
  lemma NobodyLinks(runs: map<Id, Run>, created: seq<Id>, id: Id)
    requires Consistent(runs, created) && id !in runs
    ensures NoLinkTo(runs, id)
  {
  }

  /** One running run's rows replaced. */
  lemma ResultsReplaced(before: Db, after: Db, nextId: int, newNext: int, id: Id)
    requires ResultsOk(before.runs, before.results, nextId) && nextId <= newNext && after.runs == before.runs
    requires id in before.runs && before.runs[id].status.Running? && id in after.results
    requires after.results == before.results[id := after.results[id]] && RowsOk(after.results[id], id, newNext)
    ensures ResultsOk(after.runs, after.results, newNext) && Evolves(before, after)
  {
    forall x | x in after.results ensures x in after.runs && RowsOk(after.results[x], x, newNext) {
      if x != id { assert RowsOk(before.results[x], x, nextId); }
    }
  }

  lemma ReplacedIs(runs: map<Id, Run>, created: seq<Id>, oldId: Id, id: Id, planHash: string, at: Time)
    requires Consistent(runs, created) && oldId in runs && Live(runs[oldId])
    ensures var r := runs[oldId];
            Replaced(runs, oldId, id, planHash, at) ==
            runs[oldId := Run(oldId, r.period, r.planHash, Voided, r.carryForward, r.completedAt, Some(at), Some(id))]
                [id := Run(id, r.period, planHash, Running, NoJson, None, None, None)]
  {
  }

  /** The rows saved: those of other structures as they were, then the new ones, each as given. */
  ghost predicate Saved(rows: seq<ResultRow>, after: seq<ResultRow>, inputs: seq<ResultInput>, run: Id, structure: string, nextId: int) {
    && |after| >= |inputs|
    && (forall r :: r in after[..|after| - |inputs|] <==> r in rows && r.structure != structure)
    && forall i :: 0 <= i < |inputs| ==>
         after[|after| - |inputs| + i] == ResultRow(nextId + i, run, structure, inputs[i].earner, inputs[i].amount, inputs[i].detail)
  }

  lemma SavedRows(rows: seq<ResultRow>, inputs: seq<ResultInput>, run: Id, structure: string, nextId: int)
    requires Ascending(rows)
    ensures Saved(rows, OtherStructures(rows, structure) + Numbered(inputs, run, structure, nextId), inputs, run, structure, nextId)
  {
    OthersKeepOrder(rows, structure);
    var kept, added := OtherStructures(rows, structure), Numbered(inputs, run, structure, nextId);
    assert (kept + added)[..|kept + added| - |inputs|] == kept;
  }

  lemma SwapStarts(runs: map<Id, Run>, created: seq<Id>, id: Id)
    requires Consistent(runs, created) && id in runs && Live(runs[id])
    ensures OnePerPeriod(runs) && runs[id].supersededBy.None?
  {
  }

  lemma VoidedIs(s: State, t: State, id: Id, at: Time)
    requires id in s.runs && Live(s.runs[id]) && t == After(s, Void(id, at))
    ensures t == s.(runs := s.runs[id := s.runs[id].(status := Voided, voidedAt := Some(at))]) && id in t.runs && !Live(t.runs[id])
  {
  }
}
