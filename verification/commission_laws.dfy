/**
 * What the commission run store keeps over every sequence of its calls.
 */
module CommissionLaws {
  import opened TreeTypes
  import opened CommissionRuns

  /** The id a call opens a run under is not in use. */
  predicate FreshIn(s: State, c: Call) {
    c.Create? || c.Replace? ==> c.id !in s.runs
  }

  /** The store after the calls in turn, from nothing. */
  ghost function AfterCalls(calls: seq<Call>): State {
    if calls == [] then EMPTY_STATE else After(AfterCalls(Init(calls)), Last(calls))
  }

  ghost predicate Drawn(calls: seq<Call>) {
    calls == [] || (Drawn(Init(calls)) && FreshIn(AfterCalls(Init(calls)), Last(calls)))
  }

  /** One call keeps the store's rules, and takes back nothing that was final. */
  lemma CallKeepsRules(s: State, c: Call)
    requires Good(s) && FreshIn(s, c)
    ensures Good(After(s, c)) && Evolves(s.Value(), After(s, c).Value())
  {
    hide Consistent, ResultsOk, Evolves, Replaced, OtherStructures, Numbered, InputsOk, PlanHashOk, TextOk, PeriodFree, RowsOk;
    SameEvolves(s.Value());
    var t := After(s, c);
    if Accepts(s, c) {
      match c
      case Create(period, planHash, id) =>
        OpenedOk(s.runs, t.runs, s.created, id);
        OpenEvolves(s.Value(), t.Value(), id);
        RunsOnly(s.Value(), t.Value(), s.nextId);
      case CompleteCall(run, _, _) =>
        FieldsFitAt(s.runs, s.created, run);
        StatusMoved(s.Value(), t.Value(), s.created, run);
        RunsOnly(s.Value(), t.Value(), s.nextId);
      case Void(run, _) =>
        VoidKeepsRules(s, c, t);
      case Replace(run, planHash, id, at) =>
        ReplaceKeepsRules(s, run, planHash, id, at);
      case Save(run, structure, inputs) =>
        RowsOkAt(s.runs, s.results, s.nextId, run);
        ReplacedRowsOk(RowsOf(s.results, run), inputs, run, structure, s.nextId);
        ResultsReplaced(s.Value(), t.Value(), s.nextId, t.nextId, run);
    }
  }

  lemma VoidKeepsRules(s: State, c: Call, t: State)
    requires Good(s) && c.Void? && Accepts(s, c) && t == After(s, c)
    ensures Good(t) && Evolves(s.Value(), t.Value()) && OnePerPeriod(s.runs) && FieldsFit(t.runs[c.run])
  {
    FieldsFitAt(s.runs, s.created, c.run);
    assert OnePerPeriod(s.runs);
    hide Consistent, ResultsOk, Evolves;
    StatusMoved(s.Value(), t.Value(), s.created, c.run);
    RunsOnly(s.Value(), t.Value(), s.nextId);
  }

  lemma OpenedFits(id: Id, period: string, planHash: string)
    ensures FieldsFit(Opened(id, period, planHash))
  {
  }

  /** Replacing is voiding, opening and linking, and each keeps the rules. */
  lemma ReplaceKeepsRules(s: State, run: Id, planHash: string, id: Id, at: Time)
    requires Good(s) && id !in s.runs && run in s.runs && Live(s.runs[run])
    ensures var t := s.(runs := Replaced(s.runs, run, id, planHash, at), created := s.created + [id]);
            Good(t) && Evolves(s.Value(), t.Value())
  {
    var voided := s.(runs := s.runs[run := s.runs[run].(status := Voided, voidedAt := Some(at))]);
    var renewed := voided.(runs := voided.runs[id := Opened(id, s.runs[run].period, planHash)], created := s.created + [id]);
    var linked := renewed.(runs := renewed.runs[run := renewed.runs[run].(supersededBy := Some(id))]);
    hide Consistent, ResultsOk, Evolves, OnePerPeriod, PeriodFree, NoLinkTo, FieldsFit, Replaced;
    SwapStarts(s.runs, s.created, run);
    VoidKeepsRules(s, Void(run, at), voided);
    OpenedFits(id, s.runs[run].period, planHash);
    SwapFacts(s.runs, voided.runs, s.created, run, id);
    OpenedOk(voided.runs, renewed.runs, s.created, id);
    OpenEvolves(voided.Value(), renewed.Value(), id);
    SwapLinks(voided.runs, renewed.runs, run, id, planHash);
    InitOfAppend(s.created, id);
    LinkedOk(renewed.runs, linked.runs, renewed.created, run, id);
    StatusEvolves(renewed.Value(), linked.Value(), run);
    RunsOnly(s.Value(), linked.Value(), s.nextId);
    EvolvesTrans(s.Value(), voided.Value(), renewed.Value());
    EvolvesTrans(s.Value(), renewed.Value(), linked.Value());
    SwapIsReplaced(s.runs, linked.runs, run, id, planHash, at);
  }

  lemma {:induction false} StoreStaysGood(calls: seq<Call>)
    requires Drawn(calls)
    ensures Good(AfterCalls(calls))
  {
    hide Good, After;
    if calls == [] {
      EmptyIsGood();
    } else {
      StoreStaysGood(Init(calls));
      CallKeepsRules(AfterCalls(Init(calls)), Last(calls));
    }
  }

  lemma EmptyIsGood()
    ensures Good(EMPTY_STATE)
  {
  }

  /**
   * The lifecycle of every run, over any calls: whatever held after the first k
   * of them and was final still holds after all of them.
   */
  lemma {:induction false} FinalStaysFinal(calls: seq<Call>, k: nat)
    requires Drawn(calls) && k <= |calls|
    ensures Evolves(AfterCalls(calls[..k]).Value(), AfterCalls(calls).Value())
    decreases |calls|
  {
    hide Good, After, Evolves;
    if k == |calls| {
      assert calls[..k] == calls;
      SameEvolves(AfterCalls(calls).Value());
    } else {
      FinalStaysFinal(Init(calls), k);
      assert Init(calls)[..k] == calls[..k];
      StoreStaysGood(Init(calls));
      CallKeepsRules(AfterCalls(Init(calls)), Last(calls));
      EvolvesTrans(AfterCalls(calls[..k]).Value(), AfterCalls(Init(calls)).Value(), AfterCalls(calls).Value());
    }
  }

  /** At the end of any calls: one live run per period, and replacement chains that only move forward. */
  lemma ChainsEnd(calls: seq<Call>, a: Id, k: nat)
    requires Drawn(calls) && a in AfterCalls(calls).runs && k > 0
    ensures OnePerPeriod(AfterCalls(calls).runs)
    ensures var s := AfterCalls(calls);
            var b := Follow(s.runs, a, k);
            b.Some? ==> b.value in s.runs && s.runs[b.value].period == s.runs[a].period && CreatedAfter(s.created, a, b.value) && b.value != a
  {
    hide AfterCalls;
    StoreStaysGood(calls);
    ChainsMoveForward(AfterCalls(calls).runs, AfterCalls(calls).created, a, k);
  }
}
