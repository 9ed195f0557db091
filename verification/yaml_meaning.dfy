/**
 * What a YAML document graph means as JSON: aliases stand for their targets,
 * and a mapping is its own keys over the mappings it merges, in order.
 */
module YamlMeaning {
  import opened TreeTypes

  type Ref = nat

  datatype Json = Null | Leaf(text: string) | List(items: seq<Json>) | Object(fields: map<string, Json>)

  /**
   * A decoded node. A scalar carries what it reads as, as a key and as a value,
   * None where it does not read; merge marks the plain key "<<".
   */
  datatype Node =
    | Document(content: seq<Ref>)
    | Sequence(items: seq<Ref>)
    | Mapping(pairs: seq<(Ref, Ref)>)
    | Scalar(merge: bool, key: Option<string>, value: Option<Json>)
    | Alias(target: Ref)
    | Other

  type Graph = seq<Node>

  predicate AllIn(refs: seq<Ref>, g: Graph) {
    forall i :: 0 <= i < |refs| ==> refs[i] < |g|
  }

  predicate PairsIn(pairs: seq<(Ref, Ref)>, g: Graph) {
    forall i :: 0 <= i < |pairs| ==> pairs[i].0 < |g| && pairs[i].1 < |g|
  }

  /** Every reference leads to a node. Cycles are allowed. */
  predicate Closed(g: Graph) {
    forall n :: 0 <= n < |g| ==>
      match g[n]
      case Document(content) => AllIn(content, g)
      case Sequence(items) => AllIn(items, g)
      case Mapping(pairs) => PairsIn(pairs, g)
      case Alias(target) => target < |g|
      case _ => true
  }

  function KeyAt(g: Graph, k: Ref): Option<string>
    requires k < |g|
  {
    if g[k].Scalar? then g[k].key else None
  }

  /** What a key node reads as. An alias reads as its target. */
  function KeyOf(g: Graph, k: Ref): Option<string>
    requires Closed(g) && k < |g|
  {
    KeyAt(g, if g[k].Alias? then g[k].target else k)
  }

  predicate IsMergeKey(g: Graph, k: Ref)
    requires k < |g|
  {
    g[k].Scalar? && g[k].merge
  }

  predicate Within(g: Graph, refs: seq<Ref>) {
    Closed(g) && AllIn(refs, g)
  }

  predicate PairsWithin(g: Graph, pairs: seq<(Ref, Ref)>) {
    Closed(g) && PairsIn(pairs, g)
  }

  // ----- Meaning, to a depth -----

  /** The node's value when it and everything in it lies within the depth; None when it does not, or does not read. */
  function Value(g: Graph, n: Ref, depth: nat): Option<Json>
    requires Closed(g) && n < |g|
    decreases depth, 0, 0
  {
    if depth == 0 then None
    else
      match g[n]
      case Document(content) =>
        if content == [] then Some(Null) else Value(g, content[0], depth - 1)
      case Sequence(items) =>
        var values := Values(g, items, depth - 1);
        if values.None? then None else Some(List(values.value))
      case Mapping(pairs) =>
        var fields := Fields(g, pairs, depth - 1);
        if fields.None? then None else Some(Object(fields.value))
      case Scalar(_, _, value) => value
      case Alias(target) => Value(g, target, depth - 1)
      case Other => Some(Null)
  }

  function Values(g: Graph, items: seq<Ref>, depth: nat): Option<seq<Json>>
    requires Within(g, items)
    decreases depth, 1, |items|
  {
    if items == [] then Some([])
    else
      var before, v := Values(g, Init(items), depth), Value(g, Last(items), depth);
      if before.None? || v.None? then None else Some(before.value + [v.value])
  }

  /** The mapping's own keys, each at most once. */
  function Own(g: Graph, pairs: seq<(Ref, Ref)>, depth: nat): Option<map<string, Json>>
    requires PairsWithin(g, pairs)
    decreases depth, 1, |pairs|
  {
    if pairs == [] then Some(map[])
    else
      var before, (k, v) := Own(g, Init(pairs), depth), Last(pairs);
      if before.None? then None
      else if IsMergeKey(g, k) then before
      else
        var key, value := KeyOf(g, k), Value(g, v, depth);
        if key.None? || value.None? || key.value in before.value then None else Some(before.value[key.value := value.value])
  }

  /** What follows each "<<" key. */
  function Merges(g: Graph, pairs: seq<(Ref, Ref)>): (r: seq<Ref>)
    requires PairsWithin(g, pairs)
    ensures AllIn(r, g)
  {
    if pairs == [] then []
    else
      Merges(g, Init(pairs)) + if IsMergeKey(g, Last(pairs).0) then [Last(pairs).1] else []
  }

  /** One merged mapping, named or aliased. */
  function Merged(g: Graph, m: Ref, depth: nat): Option<map<string, Json>>
    requires Closed(g) && m < |g|
    decreases depth, 0, 0
  {
    var target := if g[m].Alias? then g[m].target else m;
    if depth == 0 || !g[target].Mapping? then None else Fields(g, g[target].pairs, depth - 1)
  }

  /** A list of merged mappings, an earlier one over a later one. */
  function MergedList(g: Graph, items: seq<Ref>, depth: nat): Option<map<string, Json>>
    requires Within(g, items)
    decreases depth, 1, |items|
  {
    if items == [] then Some(map[])
    else
      var before, one := MergedList(g, Init(items), depth), Merged(g, Last(items), depth);
      if before.None? || one.None? then None else Some(one.value + before.value)
  }

  function MergedUnder(g: Graph, m: Ref, depth: nat): Option<map<string, Json>>
    requires Closed(g) && m < |g|
    decreases depth, 2, 0
  {
    if g[m].Sequence? then MergedList(g, g[m].items, depth) else Merged(g, m, depth)
  }

  /** The merge rule: the mapping's own keys over what its one "<<" key names. */
  function Fields(g: Graph, pairs: seq<(Ref, Ref)>, depth: nat): Option<map<string, Json>>
    requires PairsWithin(g, pairs)
    decreases depth, 3, |pairs|
  {
    var own, merges := Own(g, pairs, depth), Merges(g, pairs);
    if own.None? || |merges| > 1 then None
    else if merges == [] then own
    else
      var under := MergedUnder(g, merges[0], depth);
      if under.None? then None else Some(under.value + own.value)
  }

  // ----- Steps, to a depth -----

  /** The steps reading the node takes: one for each node, pair and merge gone into, each time an alias leads there. */
  function Steps(g: Graph, n: Ref, depth: nat): (r: nat)
    requires Closed(g) && n < |g|
    ensures r >= 1
    decreases depth, 0, 0
  {
    if depth == 0 then 1
    else
      1 + match g[n]
          case Document(content) => if content == [] then 0 else Steps(g, content[0], depth - 1)
          case Sequence(items) => ItemSteps(g, items, depth - 1)
          case Mapping(pairs) => FieldSteps(g, pairs, depth - 1)
          case Alias(target) => Steps(g, target, depth - 1)
          case _ => 0
  }

  function ItemSteps(g: Graph, items: seq<Ref>, depth: nat): nat
    requires Within(g, items)
    decreases depth, 1, |items|
  {
    if items == [] then 0 else ItemSteps(g, Init(items), depth) + Steps(g, Last(items), depth)
  }

  function PairSteps(g: Graph, k: Ref, v: Ref, depth: nat): nat
    requires Closed(g) && k < |g| && v < |g|
    decreases depth, 1, 0
  {
    1 + if IsMergeKey(g, k) then 0 else Steps(g, v, depth)
  }

  function OwnSteps(g: Graph, pairs: seq<(Ref, Ref)>, depth: nat): nat
    requires PairsWithin(g, pairs)
    decreases depth, 2, |pairs|
  {
    if pairs == [] then 0 else OwnSteps(g, Init(pairs), depth) + PairSteps(g, Last(pairs).0, Last(pairs).1, depth)
  }

  function MergedSteps(g: Graph, m: Ref, depth: nat): nat
    requires Closed(g) && m < |g|
    decreases depth, 0, 0
  {
    var target := if g[m].Alias? then g[m].target else m;
    if depth == 0 || !g[target].Mapping? then 1 else 1 + FieldSteps(g, g[target].pairs, depth - 1)
  }

  function MergedListSteps(g: Graph, items: seq<Ref>, depth: nat): nat
    requires Within(g, items)
    decreases depth, 1, |items|
  {
    if items == [] then 0 else MergedListSteps(g, Init(items), depth) + MergedSteps(g, Last(items), depth)
  }

  function MergedUnderSteps(g: Graph, m: Ref, depth: nat): nat
    requires Closed(g) && m < |g|
    decreases depth, 2, 0
  {
    if g[m].Sequence? then MergedListSteps(g, g[m].items, depth) else MergedSteps(g, m, depth)
  }

  /** A mapping's pairs, then what its first "<<" key names. */
  function FieldSteps(g: Graph, pairs: seq<(Ref, Ref)>, depth: nat): nat
    requires PairsWithin(g, pairs)
    decreases depth, 3, |pairs|
  {
    var merges := Merges(g, pairs);
    OwnSteps(g, pairs, depth) + if merges == [] then 0 else MergedUnderSteps(g, merges[0], depth)
  }

  /** A list of scalars takes a step for itself and one for each. */
  lemma {:induction false} FlatListSteps(g: Graph, items: seq<Ref>, depth: nat)
    requires Within(g, items) && forall i :: 0 <= i < |items| ==> g[items[i]].Scalar?
    ensures ItemSteps(g, items, depth) == |items|
  {
    if items != [] { FlatListSteps(g, Init(items), depth); }
  }

  /** A pair of a key and a scalar takes two steps, and a "<<" pair one before what it names is merged. */
  lemma {:induction false} FlatPairSteps(g: Graph, pairs: seq<(Ref, Ref)>, depth: nat)
    requires PairsWithin(g, pairs) && forall i :: 0 <= i < |pairs| && !IsMergeKey(g, pairs[i].0) ==> g[pairs[i].1].Scalar?
    ensures OwnSteps(g, pairs, depth) == 2 * |pairs| - |Merges(g, pairs)|
  {
    if pairs != [] {
      FlatPairSteps(g, Init(pairs), depth);
      assert !IsMergeKey(g, pairs[|pairs| - 1].0) ==> g[Last(pairs).1].Scalar? && Steps(g, Last(pairs).1, depth) == 1;
    }
  }

  /** What flat documents take, alone, through an alias, and merged. */
  lemma FlatSteps(g: Graph, n: Ref, depth: nat)
    requires Closed(g) && n < |g| && depth > 0
    ensures g[n].Scalar? || g[n].Other? ==> Steps(g, n, depth) == 1
    ensures g[n].Sequence? && (forall i :: 0 <= i < |g[n].items| ==> g[g[n].items[i]].Scalar?) ==> Steps(g, n, depth) == 1 + |g[n].items|
    ensures g[n].Mapping? && (forall i :: 0 <= i < |g[n].pairs| ==> !IsMergeKey(g, g[n].pairs[i].0) && g[g[n].pairs[i].1].Scalar?) ==>
              Steps(g, n, depth) == 1 + 2 * |g[n].pairs| == MergedSteps(g, n, depth)
    ensures g[n].Alias? ==> Steps(g, n, depth) == 1 + Steps(g, g[n].target, depth - 1)
  {
    hide OwnSteps, ItemSteps, Merges;
    if g[n].Sequence? && forall i :: 0 <= i < |g[n].items| ==> g[g[n].items[i]].Scalar? {
      FlatListSteps(g, g[n].items, depth - 1);
    }
    if g[n].Mapping? && forall i :: 0 <= i < |g[n].pairs| ==> !IsMergeKey(g, g[n].pairs[i].0) && g[g[n].pairs[i].1].Scalar? {
      FlatPairSteps(g, g[n].pairs, depth - 1);
      NoMergeKeys(g, g[n].pairs);
    }
  }

  lemma {:induction false} NoMergeKeys(g: Graph, pairs: seq<(Ref, Ref)>)
    requires PairsWithin(g, pairs) && forall i :: 0 <= i < |pairs| ==> !IsMergeKey(g, pairs[i].0)
    ensures Merges(g, pairs) == []
  {
    if pairs != [] { NoMergeKeys(g, Init(pairs)); }
  }

  lemma {:induction false} ItemStepsPrefix(g: Graph, items: seq<Ref>, i: nat, depth: nat)
    requires Within(g, items) && i <= |items|
    ensures ItemSteps(g, items[..i], depth) <= ItemSteps(g, items, depth)
    decreases |items|
  {
    hide Steps;
    if i < |items| {
      ItemStepsPrefix(g, Init(items), i, depth);
      assert Init(items)[..i] == items[..i];
    } else {
      assert items[..i] == items;
    }
  }

  lemma {:induction false} OwnStepsPrefix(g: Graph, pairs: seq<(Ref, Ref)>, i: nat, depth: nat)
    requires PairsWithin(g, pairs) && i <= |pairs|
    ensures OwnSteps(g, pairs[..i], depth) <= OwnSteps(g, pairs, depth)
    decreases |pairs|
  {
    hide PairSteps;
    if i < |pairs| {
      OwnStepsPrefix(g, Init(pairs), i, depth);
      assert Init(pairs)[..i] == pairs[..i];
    } else {
      assert pairs[..i] == pairs;
    }
  }

  // ----- The merge rule, key by key -----

  // Looking one key up, from the mapping down: its own pairs from the top, then
  // what it merges in the order written, each looked up the same way.

  function OwnAt(g: Graph, pairs: seq<(Ref, Ref)>, depth: nat, key: string): Option<Json>
    requires PairsWithin(g, pairs)
  {
    if pairs == [] then None
    else
      var before, (k, v) := OwnAt(g, Init(pairs), depth, key), Last(pairs);
      if before.Some? then before
      else if !IsMergeKey(g, k) && KeyOf(g, k) == Some(key) then Value(g, v, depth)
      else None
  }

  function MergedAt(g: Graph, m: Ref, depth: nat, key: string): Option<Json>
    requires Closed(g) && m < |g|
    decreases depth, 0, 0
  {
    var target := if g[m].Alias? then g[m].target else m;
    if depth == 0 || !g[target].Mapping? then None else FieldAt(g, g[target].pairs, depth - 1, key)
  }

  function FirstAt(g: Graph, items: seq<Ref>, depth: nat, key: string): Option<Json>
    requires Within(g, items)
    decreases depth, 1, |items|
  {
    if items == [] then None
    else
      var before := FirstAt(g, Init(items), depth, key);
      if before.Some? then before else MergedAt(g, Last(items), depth, key)
  }

  /** What the mapping says of one key. */
  function FieldAt(g: Graph, pairs: seq<(Ref, Ref)>, depth: nat, key: string): Option<Json>
    requires PairsWithin(g, pairs)
    decreases depth, 3, |pairs|
  {
    var own, merges := OwnAt(g, pairs, depth, key), Merges(g, pairs);
    if own.Some? || merges == [] then own
    else if g[merges[0]].Sequence? then FirstAt(g, g[merges[0]].items, depth, key)
    else MergedAt(g, merges[0], depth, key)
  }

  function At(fields: map<string, Json>, key: string): Option<Json> {
    if key in fields then Some(fields[key]) else None
  }

  lemma {:induction false} OwnAtIs(g: Graph, pairs: seq<(Ref, Ref)>, depth: nat, key: string)
    requires PairsWithin(g, pairs) && Own(g, pairs, depth).Some?
    ensures OwnAt(g, pairs, depth, key) == At(Own(g, pairs, depth).value, key)
  {
    hide Value, KeyOf, Closed;
    if pairs != [] { OwnAtIs(g, Init(pairs), depth, key); }
  }

  lemma {:induction false} MergedAtIs(g: Graph, m: Ref, depth: nat, key: string)
    requires Closed(g) && m < |g| && Merged(g, m, depth).Some?
    ensures MergedAt(g, m, depth, key) == At(Merged(g, m, depth).value, key)
    decreases depth, 0, 0
  {
    hide Fields, FieldAt;
    KeyWins(g, g[if g[m].Alias? then g[m].target else m].pairs, depth - 1, key);
  }

  lemma {:induction false} FirstAtIs(g: Graph, items: seq<Ref>, depth: nat, key: string)
    requires Within(g, items) && MergedList(g, items, depth).Some?
    ensures FirstAt(g, items, depth, key) == At(MergedList(g, items, depth).value, key)
    decreases depth, 1, |items|
  {
    hide Merged, MergedAt;
    if items != [] {
      FirstAtIs(g, Init(items), depth, key);
      MergedAtIs(g, Last(items), depth, key);
    }
  }

  /** A mapping holds exactly the keys found by looking them up, each with what the lookup finds first. */
  lemma {:induction false} KeyWins(g: Graph, pairs: seq<(Ref, Ref)>, depth: nat, key: string)
    requires PairsWithin(g, pairs) && Fields(g, pairs, depth).Some?
    ensures FieldAt(g, pairs, depth, key) == At(Fields(g, pairs, depth).value, key)
    decreases depth, 3, |pairs|
  {
    hide Own, OwnAt, Merges, Merged, MergedAt, MergedList, FirstAt;
    OwnAtIs(g, pairs, depth, key);
    var merges := Merges(g, pairs);
    if merges != [] {
      if g[merges[0]].Sequence? { FirstAtIs(g, g[merges[0]].items, depth, key); } else { MergedAtIs(g, merges[0], depth, key); }
    }
  }

  // ----- What each kind of node reads as -----

  /** What v says of the node, kind by kind, and of a mapping key by key. */
  ghost predicate ReadsAs(g: Graph, n: Ref, depth: nat, v: Json)
    requires Closed(g) && n < |g| && depth > 0
  {
    match g[n]
    case Document(content) => if content == [] then v == Null else Value(g, content[0], depth - 1) == Some(v)
    case Sequence(items) =>
      v.List? && |v.items| == |items| && forall i :: 0 <= i < |items| ==> Value(g, items[i], depth - 1) == Some(v.items[i])
    case Mapping(pairs) => v.Object? && forall key :: At(v.fields, key) == FieldAt(g, pairs, depth - 1, key)
    case Scalar(_, _, value) => value == Some(v)
    case Alias(target) => Value(g, target, depth - 1) == Some(v)
    case Other => v == Null
  }

  /** The node names a mapping that reads, itself or through an alias. */
  predicate MappingReads(g: Graph, m: Ref, depth: nat)
    requires Closed(g) && m < |g|
  {
    var target := if g[m].Alias? then g[m].target else m;
    g[target].Mapping? && Value(g, target, depth).Some?
  }

  /** A pair of a mapping reads: an own key and its value, or a "<<" key and the mappings it names. */
  predicate PairReadsIn(g: Graph, k: Ref, v: Ref, depth: nat)
    requires Closed(g) && k < |g| && v < |g|
  {
    if IsMergeKey(g, k) then MergeReads(g, v, depth) else KeyOf(g, k).Some? && Value(g, v, depth).Some?
  }

  /** Two pairs of one mapping do not go together: both "<<" keys, or own keys that read the same. */
  predicate Clash(g: Graph, j: Ref, k: Ref)
    requires Closed(g) && j < |g| && k < |g|
  {
    if IsMergeKey(g, j) then IsMergeKey(g, k) else !IsMergeKey(g, k) && KeyOf(g, j) == KeyOf(g, k)
  }

  /** A mapping's pairs all read, and no two clash. */
  predicate PairsRead(g: Graph, pairs: seq<(Ref, Ref)>, depth: nat)
    requires PairsWithin(g, pairs)
  {
    && (forall i :: 0 <= i < |pairs| ==> PairReadsIn(g, pairs[i].0, pairs[i].1, depth))
    && (forall i, j :: 0 <= i < j < |pairs| ==> !Clash(g, pairs[i].0, pairs[j].0))
  }

  predicate MergeReads(g: Graph, m: Ref, depth: nat)
    requires Closed(g) && m < |g|
  {
    if g[m].Sequence? then forall i :: 0 <= i < |g[m].items| ==> MappingReads(g, g[m].items[i], depth) else MappingReads(g, m, depth)
  }

  /** The node has a value within the depth, by what its parts have. */
  predicate Readable(g: Graph, n: Ref, depth: nat)
    requires Closed(g) && n < |g|
  {
    depth > 0 &&
    match g[n]
    case Document(content) => content == [] || Value(g, content[0], depth - 1).Some?
    case Sequence(items) => forall i :: 0 <= i < |items| ==> Value(g, items[i], depth - 1).Some?
    case Mapping(pairs) => PairsRead(g, pairs, depth - 1)
    case Scalar(_, _, value) => value.Some?
    case Alias(target) => Value(g, target, depth - 1).Some?
    case Other => true
  }

  /** A node has a value exactly when it is readable, and the value is what its kind reads as. */
  lemma ValueReads(g: Graph, n: Ref, depth: nat)
    requires Closed(g) && n < |g|
    ensures Value(g, n, depth).Some? <==> Readable(g, n, depth)
    ensures Value(g, n, depth).Some? ==> depth > 0 && ReadsAs(g, n, depth, Value(g, n, depth).value)
  {
    hide Fields, FieldAt, PairsRead;
    if depth > 0 {
      match g[n]
      case Sequence(items) => ItemsRead(g, items, depth - 1);
      case Mapping(pairs) =>
        FieldsRead(g, pairs, depth - 1);
        if Fields(g, pairs, depth - 1).Some? { KeysWin(g, pairs, depth - 1, Fields(g, pairs, depth - 1).value); }
      case _ =>
    }
  }

  lemma {:induction false} ItemsRead(g: Graph, items: seq<Ref>, depth: nat)
    requires Within(g, items)
    ensures Values(g, items, depth).Some? <==> forall i :: 0 <= i < |items| ==> Value(g, items[i], depth).Some?
    ensures Values(g, items, depth).Some? ==>
              && |Values(g, items, depth).value| == |items|
              && forall i :: 0 <= i < |items| ==> Value(g, items[i], depth) == Some(Values(g, items, depth).value[i])
  {
    hide Value, Closed;
    if items != [] { ItemsRead(g, Init(items), depth); }
  }

  lemma KeysWin(g: Graph, pairs: seq<(Ref, Ref)>, depth: nat, fields: map<string, Json>)
    requires PairsWithin(g, pairs) && Fields(g, pairs, depth) == Some(fields)
    ensures forall key :: At(fields, key) == FieldAt(g, pairs, depth, key)
  {
    hide Fields, FieldAt;
    forall key ensures At(fields, key) == FieldAt(g, pairs, depth, key) { KeyWins(g, pairs, depth, key); }
  }

  /** The pairs read one by one: whether those before one that clash with it are among the keys and merges taken in. */
  lemma {:induction false} KeysTaken(g: Graph, pairs: seq<(Ref, Ref)>, depth: nat, k: Ref)
    requires PairsWithin(g, pairs) && k < |g| && Own(g, pairs, depth).Some?
    ensures (exists i :: 0 <= i < |pairs| && Clash(g, pairs[i].0, k)) <==>
              if IsMergeKey(g, k) then Merges(g, pairs) != [] else KeyOf(g, k).Some? && KeyOf(g, k).value in Own(g, pairs, depth).value
  {
    hide Value, Closed, KeyOf;
    if pairs != [] {
      var prev, last := Init(pairs), |pairs| - 1;
      KeysTaken(g, prev, depth, k);
      if exists i :: 0 <= i < |prev| && Clash(g, prev[i].0, k) {
        var i :| 0 <= i < |prev| && Clash(g, prev[i].0, k);
        assert Clash(g, pairs[i].0, k);
      }
      if exists i :: 0 <= i < last && Clash(g, pairs[i].0, k) {
        var i :| 0 <= i < last && Clash(g, pairs[i].0, k);
        assert Clash(g, prev[i].0, k);
      }
      assert Clash(g, pairs[last].0, k) ==> exists i :: 0 <= i < |pairs| && Clash(g, pairs[i].0, k);
    }
  }

  /** The own keys are taken in, there is at most one merge, and it reads. */
  predicate Taken(g: Graph, pairs: seq<(Ref, Ref)>, depth: nat)
    requires PairsWithin(g, pairs)
  {
    && Own(g, pairs, depth).Some? && |Merges(g, pairs)| <= 1
    && (Merges(g, pairs) != [] ==> MergeReads(g, Merges(g, pairs)[0], depth))
  }

  lemma TakenNext(g: Graph, pairs: seq<(Ref, Ref)>, depth: nat)
    requires PairsWithin(g, pairs) && pairs != []
    ensures Taken(g, pairs, depth) <==>
              && Taken(g, Init(pairs), depth) && PairReadsIn(g, Last(pairs).0, Last(pairs).1, depth)
              && (var k := Last(pairs).0;
                  if IsMergeKey(g, k) then Merges(g, Init(pairs)) == [] else KeyOf(g, k).value !in Own(g, Init(pairs), depth).value)
  {
    hide Value, Closed, KeyOf, MergeReads;
  }

  lemma PairsReadNext(g: Graph, pairs: seq<(Ref, Ref)>, depth: nat)
    requires PairsWithin(g, pairs) && pairs != []
    ensures PairsRead(g, pairs, depth) <==>
              && PairsRead(g, Init(pairs), depth) && PairReadsIn(g, Last(pairs).0, Last(pairs).1, depth)
              && !exists i :: 0 <= i < |Init(pairs)| && Clash(g, Init(pairs)[i].0, Last(pairs).0)
  {
    hide PairReadsIn, Clash, Closed;
    assert forall i :: 0 <= i < |pairs| - 1 ==> pairs[i] == Init(pairs)[i];
  }

  lemma {:induction false} PairsTaken(g: Graph, pairs: seq<(Ref, Ref)>, depth: nat)
    requires PairsWithin(g, pairs)
    ensures PairsRead(g, pairs, depth) <==> Taken(g, pairs, depth)
  {
    hide Value, Closed, KeyOf, MergeReads, Clash, Own, Merges, IsMergeKey, PairReadsIn;
    if pairs == [] {
      NothingTaken(g, depth);
    } else {
      PairsTaken(g, Init(pairs), depth);
      PairsReadNext(g, pairs, depth);
      TakenNext(g, pairs, depth);
      if Taken(g, Init(pairs), depth) && PairReadsIn(g, Last(pairs).0, Last(pairs).1, depth) { NextReads(g, pairs, depth); }
    }
  }

  lemma NothingTaken(g: Graph, depth: nat)
    requires Closed(g)
    ensures PairsRead(g, [], depth) && Taken(g, [], depth)
  {
  }

  lemma NextReads(g: Graph, pairs: seq<(Ref, Ref)>, depth: nat)
    requires PairsWithin(g, pairs) && pairs != [] && Own(g, Init(pairs), depth).Some? && PairReadsIn(g, Last(pairs).0, Last(pairs).1, depth)
    ensures IsMergeKey(g, Last(pairs).0) || KeyOf(g, Last(pairs).0).Some?
    ensures (exists i :: 0 <= i < |Init(pairs)| && Clash(g, Init(pairs)[i].0, Last(pairs).0)) <==>
              var k := Last(pairs).0;
              if IsMergeKey(g, k) then Merges(g, Init(pairs)) != [] else KeyOf(g, k).Some? && KeyOf(g, k).value in Own(g, Init(pairs), depth).value
  {
    hide Value, Closed, KeyOf, MergeReads, Clash, Own, Merges, IsMergeKey;
    KeysTaken(g, Init(pairs), depth, Last(pairs).0);
  }

  lemma MergedReads(g: Graph, m: Ref, depth: nat)
    requires Closed(g) && m < |g|
    ensures Merged(g, m, depth).Some? <==> MappingReads(g, m, depth)
  {
    hide Fields;
  }

  lemma {:induction false} MergedListReads(g: Graph, items: seq<Ref>, depth: nat)
    requires Within(g, items)
    ensures MergedList(g, items, depth).Some? <==> forall i :: 0 <= i < |items| ==> MappingReads(g, items[i], depth)
  {
    hide Merged, MappingReads, Closed;
    if items != [] {
      MergedListReads(g, Init(items), depth);
      MergedReads(g, Last(items), depth);
    }
  }

  lemma FieldsRead(g: Graph, pairs: seq<(Ref, Ref)>, depth: nat)
    requires PairsWithin(g, pairs)
    ensures Fields(g, pairs, depth).Some? <==> PairsRead(g, pairs, depth)
  {
    hide Own, Merges, Merged, MergedList, MappingReads, PairsRead, Value, KeyOf;
    PairsTaken(g, pairs, depth);
    var merges := Merges(g, pairs);
    if merges != [] {
      MergedReads(g, merges[0], depth);
      if g[merges[0]].Sequence? { MergedListReads(g, g[merges[0]].items, depth); }
    }
  }

  // ----- More depth never changes a meaning -----

  lemma {:induction false} ValueGrows(g: Graph, n: Ref, depth: nat)
    requires Closed(g) && n < |g| && Value(g, n, depth).Some?
    ensures Value(g, n, depth + 1) == Value(g, n, depth)
    decreases depth, 0, 0
  {
    match g[n]
    case Document(content) => if content != [] { ValueGrows(g, content[0], depth - 1); }
    case Sequence(items) => ValuesGrow(g, items, depth - 1);
    case Mapping(pairs) => FieldsGrow(g, pairs, depth - 1);
    case Alias(target) => ValueGrows(g, target, depth - 1);
    case _ =>
  }

  lemma {:induction false} ValuesGrow(g: Graph, items: seq<Ref>, depth: nat)
    requires Within(g, items) && Values(g, items, depth).Some?
    ensures Values(g, items, depth + 1) == Values(g, items, depth)
    decreases depth, 1, |items|
  {
    if items != [] {
      ValuesGrow(g, Init(items), depth);
      ValueGrows(g, Last(items), depth);
    }
  }

  lemma {:induction false} OwnGrows(g: Graph, pairs: seq<(Ref, Ref)>, depth: nat)
    requires PairsWithin(g, pairs) && Own(g, pairs, depth).Some?
    ensures Own(g, pairs, depth + 1) == Own(g, pairs, depth)
    decreases depth, 1, |pairs|
  {
    if pairs != [] {
      OwnGrows(g, Init(pairs), depth);
      if !IsMergeKey(g, Last(pairs).0) { ValueGrows(g, Last(pairs).1, depth); }
    }
  }

  lemma {:induction false} MergedGrows(g: Graph, m: Ref, depth: nat)
    requires Closed(g) && m < |g| && Merged(g, m, depth).Some?
    ensures Merged(g, m, depth + 1) == Merged(g, m, depth)
    decreases depth, 0, 0
  {
    FieldsGrow(g, g[if g[m].Alias? then g[m].target else m].pairs, depth - 1);
  }

  lemma {:induction false} MergedListGrows(g: Graph, items: seq<Ref>, depth: nat)
    requires Within(g, items) && MergedList(g, items, depth).Some?
    ensures MergedList(g, items, depth + 1) == MergedList(g, items, depth)
    decreases depth, 1, |items|
  {
    if items != [] {
      MergedListGrows(g, Init(items), depth);
      MergedGrows(g, Last(items), depth);
    }
  }

  lemma {:induction false} FieldsGrow(g: Graph, pairs: seq<(Ref, Ref)>, depth: nat)
    requires PairsWithin(g, pairs) && Fields(g, pairs, depth).Some?
    ensures Fields(g, pairs, depth + 1) == Fields(g, pairs, depth)
    decreases depth, 3, |pairs|
  {
    OwnGrows(g, pairs, depth);
    var merges := Merges(g, pairs);
    if merges != [] {
      if g[merges[0]].Sequence? { MergedListGrows(g, g[merges[0]].items, depth); } else { MergedGrows(g, merges[0], depth); }
    }
  }

  /** A node with a value within one depth has the same value within any greater depth. */
  lemma {:induction false} ValueStays(g: Graph, n: Ref, depth: nat, more: nat)
    requires Closed(g) && n < |g| && depth <= more && Value(g, n, depth).Some?
    ensures Value(g, n, more) == Value(g, n, depth)
    decreases more - depth
  {
    if depth < more {
      ValueStays(g, n, depth, more - 1);
      ValueGrows(g, n, more - 1);
    }
  }

  lemma {:induction false} OwnStays(g: Graph, pairs: seq<(Ref, Ref)>, depth: nat, more: nat)
    requires PairsWithin(g, pairs) && depth <= more && Own(g, pairs, depth).Some?
    ensures Own(g, pairs, more) == Own(g, pairs, depth)
    decreases more - depth
  {
    if depth < more {
      OwnStays(g, pairs, depth, more - 1);
      OwnGrows(g, pairs, more - 1);
    }
  }

  /** The least depth the node's value needs. */
  ghost function Height(g: Graph, n: Ref, depth: nat): (h: nat)
    requires Closed(g) && n < |g| && Value(g, n, depth).Some?
    ensures 1 <= h <= depth && Value(g, n, h).Some? && Value(g, n, h - 1).None?
  {
    if Value(g, n, depth - 1).Some? then Height(g, n, depth - 1) else depth
  }

  /** A mapping whose pairs all read has every prefix of them read too. */
  lemma {:induction false} OwnPrefix(g: Graph, pairs: seq<(Ref, Ref)>, i: nat, depth: nat)
    requires PairsWithin(g, pairs) && i <= |pairs| && Own(g, pairs, depth).Some?
    ensures Own(g, pairs[..i], depth).Some?
    decreases |pairs|
  {
    if i < |pairs| {
      OwnPrefix(g, Init(pairs), i, depth);
      assert Init(pairs)[..i] == pairs[..i];
    } else {
      assert pairs[..i] == pairs;
    }
  }

  lemma {:induction false} MergedPart(g: Graph, items: seq<Ref>, i: nat, depth: nat)
    requires Within(g, items) && i < |items| && MergedList(g, items, depth).Some?
    ensures Merged(g, items[i], depth).Some?
    decreases |items|
  {
    if i < |items| - 1 { MergedPart(g, Init(items), i, depth); }
  }

  lemma {:induction false} ValuesPart(g: Graph, items: seq<Ref>, i: nat, depth: nat)
    requires Within(g, items) && i < |items| && Values(g, items, depth).Some?
    ensures Value(g, items[i], depth).Some? && depth > 0
    decreases |items|
  {
    if i < |items| - 1 { ValuesPart(g, Init(items), i, depth); }
  }

  lemma {:induction false} MergesPrefix(g: Graph, pairs: seq<(Ref, Ref)>, i: nat)
    requires PairsWithin(g, pairs) && i <= |pairs|
    ensures Merges(g, pairs[..i]) <= Merges(g, pairs)
    decreases |pairs|
  {
    if i < |pairs| {
      MergesPrefix(g, Init(pairs), i);
      assert Init(pairs)[..i] == pairs[..i];
    } else {
      assert pairs[..i] == pairs;
    }
  }
}
