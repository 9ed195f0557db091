/**
 * The YAML converter: it walks the document graph once per alias followed,
 * against a step budget, a depth limit and a cap on errors.
 */
module YamlConversion {
  import opened TreeTypes
  import opened YamlMeaning

  const MAX_NODES: int := 1_000_000
  const MAX_DEPTH: nat := 64
  const MAX_ERRORS: int := 100

  datatype ErrorCode = TooManyErrors | DocumentTooLarge | DocumentTooDeep | AliasCycle | DuplicateKey | InvalidMerge | InvalidKey | InvalidScalar

  class YamlConverter {
    const g: Graph
    var errs: seq<ErrorCode>
    var active: set<Ref>
    var reported: set<Ref>
    var keys: map<Ref, Option<string>>
    var scalars: map<Ref, Json>
    var visited: int
    var depth: int
    var tooDeep: bool
    var stopped: bool

    constructor (g: Graph)
      requires Closed(g)
      ensures Valid() && errs == [] && depth == 0 && visited == 0 && active == {} && this.g == g
    {
      this.g := g;
      errs, active, reported, keys, scalars := [], {}, {}, map[], map[];
      visited, depth, tooDeep, stopped := 0, 0, false, false;
    }

    /** The budgets hold, the caches say what the nodes say, and a run without errors has marked nothing. */
    ghost predicate Valid()
      reads this`errs, this`reported, this`keys, this`scalars, this`visited, this`tooDeep, this`stopped
    {
      && Closed(g)
      && 0 <= visited <= MAX_NODES + 1 && (visited > MAX_NODES ==> stopped)
      && ErrorsCapped() && (errs == [] ==> reported == {} && !tooDeep)
      && (stopped ==> visited > MAX_NODES || |errs| > MAX_ERRORS)
      && (errs == [] ==> (forall k :: k in keys ==> keys[k].Some?) && forall n :: n in scalars ==> n < |g| && g[n].Scalar? && g[n].value.Some?)
      && (forall k :: k in keys ==> k < |g| && keys[k] == KeyAt(g, k))
      && (forall n :: n in scalars ==> n < |g| && g[n].Scalar? && scalars[n] == if g[n].value.Some? then g[n].value.value else Null)
    }

    lemma GraphClosed()
      requires Valid()
      ensures Closed(g) && (stopped ==> errs != [])
    {
    }

    /** Errors stop at one past the cap, and the walk has stopped by then. */
    predicate ErrorsCapped()
      reads this`errs, this`stopped
    {
      |errs| <= MAX_ERRORS + 1 && (|errs| > MAX_ERRORS ==> stopped) && (errs == [] ==> !stopped)
    }

    /** Appends an error until the cap, then the cap's own error once. */
    method Record(code: ErrorCode)
      requires ErrorsCapped()
      modifies this`errs, this`stopped
      ensures ErrorsCapped() && errs != [] && old(errs) <= errs
      ensures old(stopped) ==> stopped && errs == old(errs)
      ensures !old(stopped) ==> |errs| == |old(errs)| + 1
      ensures !old(stopped) && stopped ==> |errs| > MAX_ERRORS
      ensures old(errs) == [] ==> errs == [code] && !stopped
    {
      if stopped {
        return;
      }
      if |errs| == MAX_ERRORS {
        errs := errs + [TooManyErrors];
        stopped := true;
        return;
      }
      errs := errs + [code];
    }

    /** Nothing has gone wrong, except that the document may have run out of steps. */
    ghost predicate Quiet()
      reads this`errs, this`stopped
    {
      errs == [] || (errs == [DocumentTooLarge] && stopped)
    }

    /** The walk has taken the count of steps, or fewer with something wrong. */
    ghost predicate Took(before: int, count: nat)
      reads this`errs, this`visited
    {
      visited <= before + count && (errs == [] ==> visited == before + count)
    }

    /** No node the walk is inside an alias of has a value within depth f. */
    ghost predicate Guarded(f: nat)
      reads this`active
    {
      Guards(g, active, f)
    }

    /** Records one error per node, so that following aliases does not repeat it. */
    method Fail(n: Ref, code: ErrorCode)
      requires Valid()
      modifies this`errs, this`stopped, this`reported
      ensures Valid() && errs != [] && old(errs) <= errs && reported == old(reported) + {n}
      ensures |errs| == |old(errs)| + if n in old(reported) || old(stopped) then 0 else 1
    {
      if n in reported {
        return;
      }
      Record(code);
      reported := reported + {n};
    }

    /** Counts one step and says whether the walk may go on. */
    method Spend() returns (ok: bool)
      requires Valid()
      modifies this`errs, this`stopped, this`visited
      ensures Valid() && old(errs) <= errs
      ensures !ok ==> errs != [] && stopped
      ensures ok ==> !stopped && errs == old(errs)
      ensures old(stopped) ==> !ok && errs == old(errs)
      ensures old(Quiet()) ==> Quiet()
      ensures visited == old(visited) + if old(stopped) then 0 else 1
      ensures ok <==> !old(stopped) && old(visited) < MAX_NODES
    {
      if stopped {
        return false;
      }
      visited := visited + 1;
      if visited > MAX_NODES {
        Record(DocumentTooLarge);
        stopped := true;
        return false;
      }
      return true;
    }

    /** Enters one level of nesting and says whether the limit allows it. */
    method Descend() returns (ok: bool)
      requires Valid()
      modifies this`errs, this`stopped, this`depth, this`tooDeep
      ensures Valid() && old(errs) <= errs && depth == old(depth) + 1
      ensures ok <==> depth <= MAX_DEPTH
      ensures !ok ==> errs != []
      ensures ok ==> errs == old(errs) && stopped == old(stopped)
    {
      depth := depth + 1;
      if depth <= MAX_DEPTH {
        return true;
      }
      if !tooDeep {
        Record(DocumentTooDeep);
        tooDeep := true;
      }
      return false;
    }

    /** A key's text, converted once per node. */
    method Key(k: Ref) returns (key: Option<string>)
      requires Valid() && k < |g|
      modifies this`errs, this`stopped, this`reported, this`keys
      ensures Valid() && old(errs) <= errs
      ensures key == KeyOf(g, k)
      ensures var at := if g[k].Alias? then g[k].target else k;
              key == if at < |g| && g[at].Scalar? then g[at].key else None
      ensures key.Some? ==> errs == old(errs) && stopped == old(stopped)
      ensures errs == [] ==> key.Some?
    {
      var at := if g[k].Alias? then g[k].target else k;
      if at in keys {
        return keys[at];
      }
      key := KeyAt(g, at);
      if key.None? {
        Fail(at, InvalidKey);
      }
      keys := keys[at := key];
    }

    /** A scalar's value, converted once per node. */
    method ReadScalar(n: Ref) returns (v: Json)
      requires Valid() && n < |g| && g[n].Scalar?
      modifies this`errs, this`stopped, this`reported, this`scalars
      ensures Valid() && old(errs) <= errs
      ensures errs == [] ==> g[n].value == Some(v)
      ensures g[n].value.Some? ==> errs == old(errs) && stopped == old(stopped)
    {
      if n in scalars {
        return scalars[n];
      }
      if g[n].value.None? {
        Fail(n, InvalidScalar);
        v := Null;
      } else {
        v := g[n].value.value;
      }
      scalars := scalars[n := v];
    }

    /** How many levels are left. */
    function Room(): nat
      reads this`depth
    {
      if depth <= MAX_DEPTH then MAX_DEPTH - depth else 0
    }

    // ----- The walk -----
    //
    // Each step takes a ghost depth f. When what it converts has a meaning within
    // f, and no alias the walk is inside of has one, the step reports nothing.

    /** Converts a node. Without errors, the result is what the node means within the depth left. */
    method Node(n: Ref, ghost f: nat) returns (v: Json)
      requires Valid() && n < |g| && 0 <= depth <= MAX_DEPTH
      modifies this
      ensures Valid() && old(errs) <= errs && depth == old(depth) && active == old(active)
      ensures errs == [] ==> Value(g, n, old(Room())) == Some(v)
      ensures old(stopped) ==> stopped && errs == old(errs)
      ensures old(Quiet()) && old(Guarded(f)) && f < old(Room()) && Value(g, n, f + 1).Some? ==> Quiet()
      ensures Took(old(visited), Steps(g, n, old(Room())))
      decreases MAX_DEPTH - depth, 0
    {
      hide Valid, Value, Steps;
      v := Null;
      var ok := Spend();
      if !ok {
        return;
      }
      ok := Descend();
      if ok {
        v := Enter(n, f);
      }
      depth := depth - 1;
    }

    /** Converts the node the walk has just gone down to. */
    method Enter(n: Ref, ghost f: nat) returns (v: Json)
      requires Valid() && n < |g| && 1 <= depth <= MAX_DEPTH && !stopped
      modifies this
      ensures Valid() && old(errs) <= errs && depth == old(depth) && active == old(active)
      ensures errs == [] ==> Value(g, n, old(Room()) + 1) == Some(v)
      ensures old(Quiet()) && old(Guarded(f)) && f <= old(Room()) && Value(g, n, f + 1).Some? ==> Quiet()
      ensures Took(old(visited), Steps(g, n, old(Room()) + 1) - 1)
      decreases MAX_DEPTH - depth, 4
    {
      hide Valid, Fields, Values, Guards, FieldSteps, ItemSteps;
      GraphClosed();
      GuardsLess(g, active, f);
      v := Null;
      match g[n] {
        case Document(content) =>
          if content != [] {
            v := Node(content[0], Less(f));
          }
        case Alias(target) =>
          v := Follow(n, f);
        case Sequence(items) =>
          var out := Items(items, f);
          v := List(out);
        case Mapping(pairs) =>
          var out := Fill(pairs, map[], f);
          if errs == [] { OverNothing(Fields(g, pairs, Room()).value); }
          v := Object(out);
        case Scalar(_, _, _) =>
          v := ReadScalar(n);
        case Other =>
      }
    }

    /** Follows an alias, refusing one that refers to a node it is inside of. */
    method Follow(n: Ref, ghost f: nat) returns (v: Json)
      requires Valid() && n < |g| && g[n].Alias? && 1 <= depth <= MAX_DEPTH && !stopped
      modifies this
      ensures Valid() && old(errs) <= errs && depth == old(depth) && active == old(active)
      ensures errs == [] ==> Value(g, g[n].target, old(Room())) == Some(v)
      ensures old(Quiet()) && old(Guarded(f)) && f <= old(Room()) && Value(g, g[n].target, f).Some? ==> Quiet()
      ensures Took(old(visited), Steps(g, g[n].target, old(Room())))
      decreases MAX_DEPTH - depth, 3
    {
      hide Valid, Value, Steps;
      GraphClosed();
      var target := g[n].target;
      if target in active {
        Fail(n, AliasCycle);
        return Null;
      }
      ghost var h := Inside(g, target, f);
      GuardsInside(g, active, target, f);
      active := active + {target};
      v := Node(target, h);
      active := active - {target};
    }

    /** Converts a sequence's items in order, leaving the rest empty once the walk has stopped. */
    method Items(items: seq<Ref>, ghost f: nat) returns (out: seq<Json>)
      requires Valid() && AllIn(items, g) && 0 <= depth <= MAX_DEPTH
      modifies this
      ensures Valid() && old(errs) <= errs && depth == old(depth) && active == old(active)
      ensures errs == [] ==> Values(g, items, old(Room())) == Some(out)
      ensures old(Quiet()) && old(Guarded(f)) && f <= old(Room()) && Values(g, items, f).Some? ==> Quiet()
      ensures Took(old(visited), ItemSteps(g, items, old(Room())))
      decreases MAX_DEPTH - depth, 1
    {
      hide Valid, Value, Guards, Steps, Closed;
      GraphClosed();
      GuardsLess(g, active, f);
      out := seq(|items|, _ => Null);
      for i := 0 to |items|
        invariant Valid() && old(errs) <= errs && depth == old(depth) && active == old(active) && |out| == |items|
        invariant errs == [] ==> Values(g, items[..i], old(Room())) == Some(out[..i])
        invariant Took(old(visited), ItemSteps(g, items[..i], old(Room())))
        invariant old(Quiet()) && old(Guarded(f)) && f <= old(Room()) && Values(g, items, f).Some? ==> Quiet()
      {
        if stopped {
          GraphClosed();
          ItemStepsPrefix(g, items, i, old(Room()));
          break;
        }
        assert Init(items[..i + 1]) == items[..i];
        if Values(g, items, f).Some? { ValuesPart(g, items, i, f); }
        var v := Node(items[i], Less(f));
        ghost var before := out[..i];
        out := out[i := v];
        assert out[..i + 1] == before + [v];
      }
      assert items[..|items|] == items && out[..|items|] == out;
    }

    /**
     * Applies the merge rule onto out: each key of the mapping that out does not
     * hold yet, then the keys of its merges, the first merged mapping winning.
     */
    method Fill(pairs: seq<(Ref, Ref)>, above: map<string, Json>, ghost f: nat) returns (out: map<string, Json>)
      requires Valid() && PairsIn(pairs, g) && 0 <= depth <= MAX_DEPTH
      modifies this
      ensures Valid() && old(errs) <= errs && depth == old(depth) && active == old(active)
      ensures errs == [] ==> var fields := Fields(g, pairs, old(Room())); fields.Some? && out == fields.value + above
      ensures old(stopped) ==> stopped && errs == old(errs)
      ensures old(Quiet()) && old(Guarded(f)) && f <= old(Room()) && Fields(g, pairs, f).Some? ==> Quiet()
      ensures Took(old(visited), FieldSteps(g, pairs, old(Room())))
      decreases MAX_DEPTH - depth, 3
    {
      hide Valid, Own, Merges, MergedUnder, Closed, Guards, OwnSteps, MergedUnderSteps;
      GraphClosed();
      var merge: Option<Ref>;
      out, merge := FillOwn(pairs, above, f);
      if merge.Some? {
        out := Merge(merge.value, out, f);
        if errs == [] { OverAssociates(MergedUnder(g, merge.value, Room()).value, Own(g, pairs, Room()).value, above); }
      }
    }

    /** The mapping's own keys, and the node its "<<" key names. */
    method FillOwn(pairs: seq<(Ref, Ref)>, above: map<string, Json>, ghost f: nat) returns (out: map<string, Json>, merge: Option<Ref>)
      requires Valid() && PairsIn(pairs, g) && 0 <= depth <= MAX_DEPTH
      modifies this
      ensures Valid() && old(errs) <= errs && depth == old(depth) && active == old(active)
      ensures merge.Some? ==> Merges(g, pairs) != [] && merge.value == Merges(g, pairs)[0]
      ensures errs == [] ==>
                && Merges(g, pairs) == (if merge.Some? then [merge.value] else [])
                && var own := Own(g, pairs, old(Room())); own.Some? && out == own.value + above
      ensures old(stopped) ==> stopped && errs == old(errs)
      ensures old(Quiet()) && old(Guarded(f)) && f <= old(Room()) && OwnReads(g, pairs, f) ==> Quiet()
      ensures Took(old(visited), OwnSteps(g, pairs, old(Room())))
      decreases MAX_DEPTH - depth, 1, 2
    {
      hide Valid, Own, Merges, Closed, Guards, OwnReads, OwnSteps, PairSteps;
      GraphClosed();
      NoPairs(g, Room());
      assert pairs[..0] == [];
      out, merge := above, None;
      var seen: set<string> := {};
      OwnNone(g, old(Room()), above);
      hide OwnSoFar;
      for i := 0 to |pairs|
        invariant Valid() && old(errs) <= errs && depth == old(depth) && active == old(active)
        invariant merge == FirstMerge(g, pairs[..i])
        invariant Took(old(visited), OwnSteps(g, pairs[..i], old(Room())))
        invariant errs == [] ==> OwnSoFar(g, pairs[..i], old(Room()), above, out, seen, merge)
        invariant old(stopped) ==> stopped && errs == old(errs)
        invariant old(Quiet()) && old(Guarded(f)) && f <= old(Room()) && OwnReads(g, pairs, f) ==> Quiet()
      {
        PrefixSteps(g, pairs, i, old(Room()));
        var go;
        out, seen, merge, go := FillPair(pairs, i, above, out, seen, merge, f);
        if !go {
          return;
        }
      }
      assert pairs[..|pairs|] == pairs;
      if errs == [] { OwnDone(g, pairs, Room(), above, out, seen, merge); }
    }

    /** One pair of a mapping: a merge set aside, or a key put under what is there. go says whether the walk may go on. */
    method FillPair(pairs: seq<(Ref, Ref)>, i: nat, ghost above: map<string, Json>, put: map<string, Json>, met: set<string>, aside: Option<Ref>, ghost f: nat)
      returns (out: map<string, Json>, seen: set<string>, merge: Option<Ref>, go: bool)
      requires Valid() && PairsIn(pairs, g) && 0 <= depth <= MAX_DEPTH && i < |pairs|
      requires errs == [] ==> OwnSoFar(g, pairs[..i], Room(), above, put, met, aside)
      requires aside == FirstMerge(g, pairs[..i])
      modifies this
      ensures Valid() && old(errs) <= errs && depth == old(depth) && active == old(active)
      ensures merge == if go then FirstMerge(g, pairs[..i + 1]) else aside
      ensures errs == [] ==> go && OwnSoFar(g, pairs[..i + 1], old(Room()), above, out, seen, merge)
      ensures old(stopped) ==> stopped && errs == old(errs)
      ensures old(Quiet()) && old(Guarded(f)) && f <= old(Room()) && OwnReads(g, pairs, f) ==> Quiet()
      ensures Took(old(visited), PairSteps(g, pairs[i].0, pairs[i].1, old(Room())))
      decreases MAX_DEPTH - depth, 1, 1
    {
      hide Valid, Own, Merges, Closed, Guards, OwnReads, OwnSoFar, KeyOf, Value, FirstMerge, Steps;
      GraphClosed();
      FirstMergeNext(g, pairs, i);
      out, seen, merge, go := put, met, aside, true;
      var (k, v) := pairs[i];
      assert pairs[..i + 1] == pairs[..i] + [(k, v)];
      var ok := Spend();
      if !ok {
        return out, seen, merge, false;
      }
      if OwnReads(g, pairs, f) && f <= Room() && errs == [] { PairReads(g, pairs, i, f, Room(), above, out, seen, merge); }
      if IsMergeKey(g, k) {
        if merge.Some? {
          Fail(k, DuplicateKey);
        } else {
          OwnMerge(g, pairs[..i], k, v, old(Room()), above, out, seen);
          merge := Some(v);
        }
        return;
      }
      out, seen := PutKey(pairs, i, above, put, met, aside, f);
    }

    /** Puts a pair's value under its key, unless the key is there. A key met before in the mapping is refused. */
    method PutKey(pairs: seq<(Ref, Ref)>, i: nat, ghost above: map<string, Json>, put: map<string, Json>, met: set<string>, ghost aside: Option<Ref>, ghost f: nat)
      returns (out: map<string, Json>, seen: set<string>)
      requires Valid() && PairsIn(pairs, g) && 0 <= depth <= MAX_DEPTH && i < |pairs| && !IsMergeKey(g, pairs[i].0) && !stopped
      requires errs == [] ==> OwnSoFar(g, pairs[..i], Room(), above, put, met, aside)
      modifies this
      ensures Valid() && old(errs) <= errs && depth == old(depth) && active == old(active)
      ensures errs == [] ==> OwnSoFar(g, pairs[..i + 1], old(Room()), above, out, seen, aside)
      ensures old(errs) == [] && old(Guarded(f)) && f <= old(Room()) && OwnReads(g, pairs, f) ==> Quiet()
      ensures Took(old(visited), Steps(g, pairs[i].1, old(Room())))
      decreases MAX_DEPTH - depth, 1, 0
    {
      hide Valid, Own, Merges, Closed, Guards, OwnReads, OwnSoFar, KeyOf, Value, Steps;
      GraphClosed();
      GuardsLess(g, active, f);
      out, seen := put, met;
      var (k, v) := pairs[i];
      assert pairs[..i + 1] == pairs[..i] + [(k, v)];
      if OwnReads(g, pairs, f) && f <= Room() && errs == [] { PairReads(g, pairs, i, f, Room(), above, out, seen, aside); }
      var key := Key(k);
      if key.None? {
        return;
      }
      if key.value in seen {
        Fail(k, DuplicateKey);
        return;
      }
      var value := Node(v, Less(f));
      if errs == [] { OwnStep(g, pairs[..i], k, v, old(Room()), above, out, seen, aside, key.value, value); }
      if key.value !in out {
        out := out[key.value := value];
      }
      seen := seen + {key.value};
    }

    /** Merges one mapping, or a list of them in order, under out. */
    method Merge(m: Ref, above: map<string, Json>, ghost f: nat) returns (out: map<string, Json>)
      requires Valid() && m < |g| && 0 <= depth <= MAX_DEPTH
      modifies this
      ensures Valid() && old(errs) <= errs && depth == old(depth) && active == old(active)
      ensures errs == [] ==> var under := MergedUnder(g, m, old(Room())); under.Some? && out == under.value + above
      ensures old(stopped) ==> stopped && errs == old(errs)
      ensures old(Quiet()) && old(Guarded(f)) && f <= old(Room()) && MergedUnder(g, m, f).Some? ==> Quiet()
      ensures Took(old(visited), MergedUnderSteps(g, m, old(Room())))
      decreases MAX_DEPTH - depth, 2
    {
      hide Valid, Merged, Guards, MergedSteps;
      GraphClosed();
      if !g[m].Sequence? {
        out := MergeOne(m, above, f);
        return;
      }
      out := above;
      var items := g[m].items;
      for i := 0 to |items|
        invariant Valid() && old(errs) <= errs && depth == old(depth) && active == old(active)
        invariant errs == [] ==> var under := MergedList(g, items[..i], old(Room())); under.Some? && out == under.value + above
        invariant Took(old(visited), MergedListSteps(g, items[..i], old(Room())))
        invariant old(stopped) ==> stopped && errs == old(errs)
        invariant old(Quiet()) && old(Guarded(f)) && f <= old(Room()) && MergedList(g, items, f).Some? ==> Quiet()
      {
        assert Init(items[..i + 1]) == items[..i];
        if MergedList(g, items, f).Some? { MergedPart(g, items, i, f); }
        out := MergeOne(items[i], out, f);
        if errs == [] { OverAssociates(Merged(g, items[i], Room()).value, MergedList(g, items[..i], Room()).value, above); }
      }
      assert items[..|items|] == items;
    }

    /** Merges one mapping, named or aliased, and refuses any other node. */
    method MergeOne(m: Ref, above: map<string, Json>, ghost f: nat) returns (out: map<string, Json>)
      requires Valid() && m < |g| && 0 <= depth <= MAX_DEPTH
      modifies this
      ensures Valid() && old(errs) <= errs && depth == old(depth) && active == old(active)
      ensures errs == [] ==> var one := Merged(g, m, old(Room())); one.Some? && out == one.value + above
      ensures old(stopped) ==> stopped && errs == old(errs)
      ensures old(Quiet()) && old(Guarded(f)) && f <= old(Room()) && Merged(g, m, f).Some? ==> Quiet()
      ensures Took(old(visited), MergedSteps(g, m, old(Room())))
      decreases MAX_DEPTH - depth, 0
    {
      hide Valid, Fields, Guards, FieldSteps;
      GraphClosed();
      out := above;
      var ok := Spend();
      if !ok {
        return;
      }
      ok := Descend();
      if ok {
        var target := if g[m].Alias? then g[m].target else m;
        if !g[target].Mapping? {
          Fail(m, InvalidMerge);
        } else if !g[m].Alias? {
          GuardsLess(g, active, f);
          out := Fill(g[m].pairs, above, Less(f));
        } else {
          out := FollowMerge(m, above, f);
        }
      }
      depth := depth - 1;
    }

    /** Fills in an aliased mapping, refusing one the walk is inside of. */
    method FollowMerge(m: Ref, above: map<string, Json>, ghost f: nat) returns (out: map<string, Json>)
      requires Valid() && m < |g| && g[m].Alias? && Closed(g) && g[g[m].target].Mapping? && 1 <= depth <= MAX_DEPTH && !stopped
      modifies this
      ensures Valid() && old(errs) <= errs && depth == old(depth) && active == old(active)
      ensures errs == [] ==> var fields := Fields(g, g[g[m].target].pairs, old(Room())); fields.Some? && out == fields.value + above
      ensures old(Quiet()) && old(Guarded(f)) && f <= old(Room()) + 1 && Value(g, g[m].target, f).Some? ==> Quiet()
      ensures Took(old(visited), FieldSteps(g, g[g[m].target].pairs, old(Room())))
      decreases MAX_DEPTH - depth, 4
    {
      hide Valid, Fields, FieldSteps;
      var target := g[m].target;
      if target in active {
        Fail(m, AliasCycle);
        return above;
      }
      ghost var h := Inside(g, target, f);
      GuardsInside(g, active, target, f);
      active := active + {target};
      out := Fill(g[target].pairs, above, h);
      active := active - {target};
    }
  }

  // ----- Depths at which nothing the walk is inside of has a value -----

  ghost function Less(f: nat): nat {
    if f == 0 then 0 else f - 1
  }

  /** One less than the least depth the target's value needs. */
  ghost function Inside(g: Graph, target: Ref, f: nat): nat
    requires Closed(g) && target < |g|
  {
    if Value(g, target, f).Some? then Height(g, target, f) - 1 else 0
  }

  ghost predicate Guards(g: Graph, active: set<Ref>, f: nat) {
    Closed(g) && forall t :: t in active ==> t < |g| && Value(g, t, f).None?
  }

  lemma GuardsDown(g: Graph, active: set<Ref>, f: nat, less: nat)
    requires Guards(g, active, f) && less <= f
    ensures Guards(g, active, less)
  {
    hide Value, Closed;
    forall t | t in active ensures Value(g, t, less).None? {
      if Value(g, t, less).Some? { ValueStays(g, t, less, f); }
    }
  }

  lemma GuardsLess(g: Graph, active: set<Ref>, f: nat)
    ensures Guards(g, active, f) ==> Guards(g, active, Less(f))
  {
    if Guards(g, active, f) { GuardsDown(g, active, f, Less(f)); }
  }

  /** A target with a value is not one the walk is inside of, and may be entered. */
  lemma GuardsInside(g: Graph, active: set<Ref>, target: Ref, f: nat)
    requires Closed(g) && target < |g|
    ensures Guards(g, active, f) && Value(g, target, f).Some? ==>
              target !in active && Guards(g, active + {target}, Inside(g, target, f)) && Inside(g, target, f) < f
              && Value(g, target, Inside(g, target, f) + 1).Some?
  {
    hide Value;
    if Guards(g, active, f) && Value(g, target, f).Some? {
      GuardsDown(g, active, f, Inside(g, target, f));
    }
  }

  /** The mapping's own keys read within the depth, and it has at most one "<<" key. */
  ghost predicate OwnReads(g: Graph, pairs: seq<(Ref, Ref)>, f: nat) {
    PairsWithin(g, pairs) && Own(g, pairs, f).Some? && |Merges(g, pairs)| <= 1
  }

  /** The next pair of such a mapping: its key is new, and its value reads. */
  lemma PairReads(g: Graph, pairs: seq<(Ref, Ref)>, i: nat, f: nat, depth: nat, above: map<string, Json>, out: map<string, Json>,
                  seen: set<string>, merge: Option<Ref>)
    requires OwnReads(g, pairs, f) && i < |pairs| && f <= depth
    requires OwnSoFar(g, pairs[..i], depth, above, out, seen, merge)
    ensures if IsMergeKey(g, pairs[i].0) then merge.None?
            else KeyOf(g, pairs[i].0).Some? && KeyOf(g, pairs[i].0).value !in seen && Value(g, pairs[i].1, f).Some? && f > 0
  {
    hide KeyOf, Closed;
    OwnPrefix(g, pairs, i, f);
    OwnPrefix(g, pairs, i + 1, f);
    OwnStays(g, pairs[..i], f, depth);
    MergesPrefix(g, pairs, i + 1);
    assert Init(pairs[..i + 1]) == pairs[..i];
  }

  /** The node the first "<<" key names. */
  function FirstMerge(g: Graph, pairs: seq<(Ref, Ref)>): Option<Ref>
    requires PairsWithin(g, pairs)
  {
    var merges := Merges(g, pairs);
    if merges == [] then None else Some(merges[0])
  }

  lemma NoPairs(g: Graph, depth: nat)
    requires Closed(g)
    ensures FirstMerge(g, []) == None && OwnSteps(g, [], depth) == 0
  {
  }

  lemma FirstMergeNext(g: Graph, pairs: seq<(Ref, Ref)>, i: nat)
    requires PairsWithin(g, pairs) && i < |pairs|
    ensures FirstMerge(g, pairs[..i + 1]) ==
            var before := FirstMerge(g, pairs[..i]);
            if before.None? && IsMergeKey(g, pairs[i].0) then Some(pairs[i].1) else before
  {
    hide Closed;
    assert Init(pairs[..i + 1]) == pairs[..i];
  }

  /** Steps and merges of a mapping's first pairs, against those of one pair more and of all. */
  lemma PrefixSteps(g: Graph, pairs: seq<(Ref, Ref)>, i: nat, depth: nat)
    requires PairsWithin(g, pairs) && i < |pairs|
    ensures OwnSteps(g, pairs[..i + 1], depth) == OwnSteps(g, pairs[..i], depth) + PairSteps(g, pairs[i].0, pairs[i].1, depth)
    ensures OwnSteps(g, pairs[..i + 1], depth) <= OwnSteps(g, pairs, depth)
    ensures FirstMerge(g, pairs[..i]).Some? ==> FirstMerge(g, pairs) == FirstMerge(g, pairs[..i])
  {
    hide Closed, PairSteps;
    assert Init(pairs[..i + 1]) == pairs[..i];
    OwnStepsPrefix(g, pairs, i + 1, depth);
    MergesPrefix(g, pairs, i);
  }

  lemma OverNothing(m: map<string, Json>)
    ensures m + map[] == m
  {
  }

  lemma OverAssociates(a: map<string, Json>, b: map<string, Json>, c: map<string, Json>)
    ensures a + (b + c) == (a + b) + c
  {
  }

  /** Where the pass over a mapping's own pairs stands: what it has put over, seen, and set aside. */
  ghost predicate OwnSoFar(g: Graph, pairs: seq<(Ref, Ref)>, depth: nat, above: map<string, Json>, out: map<string, Json>, seen: set<string>, merge: Option<Ref>)
  {
    && PairsWithin(g, pairs)
    && Merges(g, pairs) == (if merge.Some? then [merge.value] else [])
    && var own := Own(g, pairs, depth); own.Some? && seen == own.value.Keys && out == own.value + above
  }

  lemma OwnNone(g: Graph, depth: nat, above: map<string, Json>)
    requires Closed(g)
    ensures OwnSoFar(g, [], depth, above, above, {}, None)
  {
  }

  lemma OwnDone(g: Graph, pairs: seq<(Ref, Ref)>, depth: nat, above: map<string, Json>, out: map<string, Json>, seen: set<string>, merge: Option<Ref>)
    requires OwnSoFar(g, pairs, depth, above, out, seen, merge)
    ensures Closed(g) && PairsIn(pairs, g) && Merges(g, pairs) == if merge.Some? then [merge.value] else []
    ensures Own(g, pairs, depth).Some? && out == Own(g, pairs, depth).value + above
  {
  }

  lemma OwnMerge(g: Graph, pairs: seq<(Ref, Ref)>, k: Ref, v: Ref, depth: nat, above: map<string, Json>, out: map<string, Json>, seen: set<string>)
    requires Closed(g) && k < |g| && v < |g| && IsMergeKey(g, k)
    ensures OwnSoFar(g, pairs, depth, above, out, seen, None) ==> OwnSoFar(g, pairs + [(k, v)], depth, above, out, seen, Some(v))
  {
    hide Closed;
    InitOfAppend(pairs, (k, v));
  }

  lemma OwnStep(g: Graph, pairs: seq<(Ref, Ref)>, k: Ref, v: Ref, depth: nat, above: map<string, Json>, out: map<string, Json>, seen: set<string>,
                merge: Option<Ref>, key: string, value: Json)
    requires Closed(g) && k < |g| && v < |g| && !IsMergeKey(g, k) && KeyOf(g, k) == Some(key) && key !in seen
    requires OwnSoFar(g, pairs, depth, above, out, seen, merge) && Value(g, v, depth) == Some(value)
    ensures OwnSoFar(g, pairs + [(k, v)], depth, above, if key in out then out else out[key := value], seen + {key}, merge)
  {
    hide Closed, Value, KeyOf;
    InitOfAppend(pairs, (k, v));
    var own := Own(g, pairs, depth).value;
    assert Own(g, pairs + [(k, v)], depth) == Some(own[key := value]);
    assert (if key in out then out else out[key := value]) == own[key := value] + above;
  }

  /**
   * Converts a document, alias cycles and all. It ends within the budgets. It
   * reports nothing exactly when the document has a meaning within the depth
   * limit and takes no more steps than the budget, and then the value is that
   * meaning.
   */
  method Convert(g: Graph, root: Ref) returns (v: Json, errs: seq<ErrorCode>, steps: int)
    requires Closed(g) && root < |g|
    ensures |errs| <= MAX_ERRORS + 1 && steps <= MAX_NODES + 1
    ensures errs == [] ==> Value(g, root, MAX_DEPTH) == Some(v) && ReadsAs(g, root, MAX_DEPTH, v)
    ensures errs == [] ==> steps == Steps(g, root, MAX_DEPTH)
    ensures errs == [] <==> Readable(g, root, MAX_DEPTH) && Steps(g, root, MAX_DEPTH) <= MAX_NODES
  {
    hide Value, Steps, Readable, ReadsAs;
    ValueReads(g, root, MAX_DEPTH);
    var c := new YamlConverter(g);
    v := c.Node(root, MAX_DEPTH - 1);
    return v, c.errs, c.visited;
  }
}
