/**
 * The in-memory event store: named streams with optimistic concurrency, one
 * global log, and an index of the ids in use.
 */
module EventStore {
  import opened TreeTypes

  type Bytes = seq<bv8>

  /** An id as a caller gives it: nothing, text that is not a UUID, or any spelling of a UUID. */
  datatype GivenId = NoId | NotUuid | Uuid(value: Id)

  datatype NewEvent = NewEvent(id: GivenId, eventType: string, payload: Option<Bytes>, metadata: Bytes)

  datatype Stored = Stored(id: Id, stream: string, eventType: string, version: int, position: int, payload: Bytes, metadata: Bytes, at: Time)

  datatype AppendFault =
    | InvalidStreamName
    | EmptyAppend
    | InvalidEvent(index: nat)
    | Concurrency(expected: int, actual: int)
    | NotAUuid(index: nat)
    | IdInUse(index: nat)
    | RepeatedInBatch(index: nat, first: nat)

  // ----- Stream names -----

  /** The part of a stream name before its first hyphen. */
  function Category(stream: string): string {
    if stream == "" || stream[0] == '-' then "" else [stream[0]] + Category(stream[1..])
  }

  /** A category, a hyphen and an id, neither part empty. */
  predicate ValidName(stream: string) {
    var c := Category(stream);
    0 < |c| && |c| + 1 < |stream|
  }

  /** A valid name is its category, a hyphen and the rest, and the category has no hyphen. */
  lemma {:induction false} CategoryCuts(stream: string)
    ensures Category(stream) <= stream && '-' !in Category(stream)
    ensures |Category(stream)| < |stream| ==> stream[|Category(stream)|] == '-'
  {
    if stream != "" && stream[0] != '-' {
      CategoryCuts(stream[1..]);
      assert stream == [stream[0]] + stream[1..];
    }
  }

  predicate ValidEvent(e: NewEvent) {
    !e.id.NoId? && e.eventType != "" && e.payload.Some?
  }

  // ----- The log and its streams -----

  /** The stream's events, in the order of the global log. */
  function SubLog(log: seq<Stored>, stream: string): seq<Stored> {
    if log == [] then []
    else if Last(log).stream == stream then SubLog(Init(log), stream) + [Last(log)]
    else SubLog(Init(log), stream)
  }

  /** Versions run from 1 without a gap. */
  predicate Dense(events: seq<Stored>) {
    forall i :: 0 <= i < |events| ==> events[i].version == i + 1
  }

  predicate Positioned(log: seq<Stored>) {
    forall i :: 0 <= i < |log| ==> log[i].position == i + 1
  }

  predicate UniqueIds(log: seq<Stored>) {
    forall i, j :: 0 <= i < j < |log| ==> log[i].id != log[j].id
  }

  /** Each stream is the ordered part of the log that names it. */
  ghost predicate Splits(streams: map<string, seq<Stored>>, log: seq<Stored>) {
    forall s :: (if s in streams then streams[s] else []) == SubLog(log, s)
  }

  /** Every stream's versions and the log's positions run from 1 without a gap, and no id repeats. */
  ghost predicate WellNumbered(log: seq<Stored>) {
    (forall s :: Dense(SubLog(log, s))) && Positioned(log) && UniqueIds(log)
  }

  /** One event more, in its own stream and no other. */
  ghost predicate GrewByOne(log: seq<Stored>, after: seq<Stored>, e: Stored) {
    forall s :: SubLog(after, s) == SubLog(log, s) + if s == e.stream then [e] else []
  }

  /** The named stream may have grown, and no other changed. */
  ghost predicate GrewBy(log: seq<Stored>, after: seq<Stored>, stream: string) {
    forall s :: SubLog(log, s) <= SubLog(after, s) && (s != stream ==> SubLog(after, s) == SubLog(log, s))
  }

  /** The index holds exactly the ids of the log. */
  ghost predicate Indexes(ids: set<Id>, log: seq<Stored>) {
    forall id :: id in ids <==> exists e :: e in log && e.id == id
  }

  lemma IndexGrows(ids: set<Id>, log: seq<Stored>, e: Stored)
    requires Indexes(ids, log)
    ensures Indexes(ids + {e.id}, log + [e])
  {
    forall id ensures id in ids + {e.id} <==> exists x :: x in log + [e] && x.id == id {
      if id == e.id { assert e in log + [e]; }
      if id in ids {
        var x :| x in log && x.id == id;
        assert x in log + [e];
      }
    }
  }

  lemma SplitGrows(streams: map<string, seq<Stored>>, log: seq<Stored>, e: Stored, after: map<string, seq<Stored>>)
    requires Splits(streams, log)
    requires GrewByOne(log, log + [e], e)
    requires after == streams[e.stream := (if e.stream in streams then streams[e.stream] else []) + [e]]
    ensures Splits(after, log + [e])
  {
    hide SubLog;
    forall s ensures (if s in after then after[s] else []) == SubLog(log + [e], s) {
      assert (if s in streams then streams[s] else []) == SubLog(log, s);
    }
  }

  lemma GrewByNothing(log: seq<Stored>, stream: string)
    ensures GrewBy(log, log, stream)
  {
    hide SubLog;
  }

  lemma GrewFurther(a: seq<Stored>, b: seq<Stored>, c: seq<Stored>, e: Stored)
    requires GrewBy(a, b, e.stream)
    requires GrewByOne(b, c, e)
    ensures GrewBy(a, c, e.stream) && |SubLog(c, e.stream)| == |SubLog(b, e.stream)| + 1
  {
    hide SubLog;
    forall s ensures SubLog(a, s) <= SubLog(c, s) && (s != e.stream ==> SubLog(c, s) == SubLog(a, s)) {
      assert SubLog(a, s) <= SubLog(b, s);
    }
  }

  lemma LogGrows(log: seq<Stored>, e: Stored)
    requires WellNumbered(log) && e.version == |SubLog(log, e.stream)| + 1 && e.position == |log| + 1
    requires forall x :: x in log ==> x.id != e.id
    ensures WellNumbered(log + [e])
    ensures GrewByOne(log, log + [e], e)
  {
    InitOfAppend(log, e);
    forall s ensures Dense(SubLog(log + [e], s)) && SubLog(log + [e], s) == SubLog(log, s) + if s == e.stream then [e] else [] {
      assert Dense(SubLog(log, s));
    }
    hide SubLog;
    forall i | 0 <= i < |log| ensures log[i].id != e.id { assert log[i] in log; }
  }

  /** The event a new one is stored as, at its place in the batch. */
  function StoredAs(e: NewEvent, id: GivenId, stream: string, current: nat, before: nat, i: nat, at: Time): Stored {
    Stored(if id.Uuid? then id.value else NIL_ID, stream, e.eventType, current + i + 1, before + i + 1,
           if e.payload.Some? then e.payload.value else [], e.metadata, at)
  }

  /** The stored event is event i of the batch, numbered on from its stream and the log. */
  predicate Holds(s: Stored, e: NewEvent, stream: string, version: int, position: int, at: Time) {
    && e.id == Uuid(s.id) && s.stream == stream && s.eventType == e.eventType
    && e.payload == Some(s.payload) && s.metadata == e.metadata
    && s.version == version && s.position == position && s.at == at
  }

  /** The log after the batch: the log before, then the batch's events in order, each as given. */
  predicate Appended(log: seq<Stored>, after: seq<Stored>, stream: string, events: seq<NewEvent>, at: Time) {
    && |after| == |log| + |events| && log <= after
    && forall i :: 0 <= i < |events| ==>
         Holds(after[|log| + i], events[i], stream, |SubLog(log, stream)| + i + 1, |log| + i + 1, at)
  }

  lemma BatchIsAppended(log: seq<Stored>, stream: string, events: seq<NewEvent>, at: Time)
    requires forall i :: 0 <= i < |events| ==> events[i].id.Uuid? && events[i].payload.Some?
    ensures Appended(log, log + Batch(stream, events, |SubLog(log, stream)|, |log|, at), stream, events, at)
  {
  }

  /** A stream's part of the log grows by exactly the events put after it, when all are its own. */
  lemma {:induction false} SubLogGrows(log: seq<Stored>, more: seq<Stored>, stream: string)
    requires forall e :: e in more ==> e.stream == stream
    ensures SubLog(log + more, stream) == SubLog(log, stream) + more
  {
    if more == [] {
      assert log + more == log;
    } else {
      SubLogGrows(log, Init(more), stream);
      assert log + more == (log + Init(more)) + [Last(more)];
      InitOfAppend(log + Init(more), Last(more));
      assert Last(more) in more;
    }
  }

  lemma AppendedToStream(log: seq<Stored>, after: seq<Stored>, stream: string, events: seq<NewEvent>, at: Time)
    requires Appended(log, after, stream, events, at)
    ensures SubLog(after, stream) == SubLog(log, stream) + after[|log|..]
  {
    hide SubLog;
    var more := after[|log|..];
    assert after == log + more;
    forall e | e in more ensures e.stream == stream {
      var i :| 0 <= i < |more| && more[i] == e;
      assert after[|log| + i] == e && Holds(after[|log| + i], events[i], stream, |SubLog(log, stream)| + i + 1, |log| + i + 1, at);
    }
    SubLogGrows(log, more, stream);
  }

  /** What an append may carry: named, non-empty, well-formed, at the version expected, with ids that parse and are new. */
  predicate Appendable(log: seq<Stored>, stream: string, expected: int, events: seq<NewEvent>) {
    && ValidName(stream)
    && events != []
    && (forall i :: 0 <= i < |events| ==> ValidEvent(events[i]))
    && (expected < 0 || expected == |SubLog(log, stream)|)
    && (forall i :: 0 <= i < |events| ==> Fresh(log, events, i))
  }

  /** The id of event i parses, is not in the log, and is not an earlier one of its batch. */
  predicate Fresh(log: seq<Stored>, events: seq<NewEvent>, i: int)
    requires 0 <= i < |events|
  {
    var id := events[i].id;
    && id.Uuid?
    && (forall e :: e in log ==> e.id != id.value)
    && (forall j :: 0 <= j < i ==> events[j].id != id)
  }

  lemma NamedAndNew(log: seq<Stored>, stream: string, events: seq<NewEvent>)
    requires ValidName(stream) && forall i :: 0 <= i < |events| ==> Fresh(log, events, i)
    ensures exists k :: 0 < k < |stream| - 1 && stream[k] == '-' && '-' !in stream[..k]
    ensures forall i, e :: 0 <= i < |events| && e in log ==> events[i].id != Uuid(e.id)
    ensures forall i, j :: 0 <= i < j < |events| ==> events[i].id != events[j].id
  {
    CategoryCuts(stream);
    assert stream[..|Category(stream)|] == Category(stream);
    forall i, e | 0 <= i < |events| && e in log ensures events[i].id != Uuid(e.id) { assert Fresh(log, events, i); }
    forall i, j | 0 <= i < j < |events| ensures events[i].id != events[j].id { assert Fresh(log, events, j); }
  }

  /** The fault names something the append got wrong. */
  predicate Faulted(log: seq<Stored>, stream: string, expected: int, events: seq<NewEvent>, f: AppendFault) {
    match f
    case InvalidStreamName => !ValidName(stream)
    case EmptyAppend => events == []
    case InvalidEvent(i) => i < |events| && !ValidEvent(events[i])
    case Concurrency(e, a) => e == expected >= 0 && a == |SubLog(log, stream)| != expected
    case NotAUuid(i) => i < |events| && !events[i].id.Uuid?
    case IdInUse(i) => i < |events| && events[i].id.Uuid? && exists e :: e in log && e.id == events[i].id.value
    case RepeatedInBatch(i, j) => j < i < |events| && events[j].id == events[i].id
  }

  lemma FaultedIsNotAppendable(log: seq<Stored>, stream: string, expected: int, events: seq<NewEvent>, f: AppendFault)
    requires Faulted(log, stream, expected, events, f)
    ensures !Appendable(log, stream, expected, events)
  {
    match f
    case NotAUuid(i) => assert !Fresh(log, events, i);
    case IdInUse(i) => assert !Fresh(log, events, i);
    case RepeatedInBatch(i, j) => assert !Fresh(log, events, i);
    case _ =>
  }

  /** The stored batch, in order. */
  function Batch(stream: string, events: seq<NewEvent>, current: nat, before: nat, at: Time): (r: seq<Stored>)
    ensures |r| == |events|
    ensures forall i :: 0 <= i < |r| ==> r[i] == StoredAs(events[i], events[i].id, stream, current, before, i, at)
  {
    seq(|events|, i requires 0 <= i < |events| => StoredAs(events[i], events[i].id, stream, current, before, i, at))
  }

  /** The ids of the batch, each parsed from its event and new to the log and to the batch. */
  predicate NewBatch(log: seq<Stored>, events: seq<NewEvent>, batch: seq<Id>) {
    |batch| == |events| && forall i :: 0 <= i < |events| ==> events[i].id == Uuid(batch[i]) && Fresh(log, events, i)
  }

  /** The next event of a fresh batch is new to the log and to what the batch put there. */
  lemma NewToLog(log: seq<Stored>, events: seq<NewEvent>, batch: seq<Id>, stored: seq<Stored>, i: int)
    requires 0 <= i < |events| == |stored| && NewBatch(log, events, batch)
    requires forall j :: 0 <= j < |events| ==> events[j].id == Uuid(stored[j].id) || !events[j].id.Uuid?
    ensures |batch| == |events| && events[i].id == Uuid(batch[i])
    ensures forall x :: x in log + stored[..i] ==> x.id != batch[i]
  {
    assert Fresh(log, events, i);
    forall x | x in log + stored[..i] ensures x.id != batch[i] {
      if x !in log {
        var j :| 0 <= j < i && stored[j] == x;
        assert events[j].id == Uuid(batch[j]);
      }
    }
  }

  /** The page of a stream from a version on. A limit of 0 or less asks for everything. */
  function PageOf(events: seq<Stored>, from: int, limit: int): seq<Stored> {
    var start := if from < 1 then 0 else from - 1;
    if start >= |events| then []
    else if 0 < limit < |events| - start then events[start..start + limit]
    else events[start..]
  }

  /** All pages of the size, each from the version after the one before. */
  function AllPages(events: seq<Stored>, from: int, size: int): seq<Stored>
    requires from >= 1 && size >= 1
    decreases |events| - from + 1
  {
    if from > |events| then [] else PageOf(events, from, size) + AllPages(events, from + size, size)
  }

  /** Read page after page, of whatever size, a stream comes back whole. */
  lemma {:induction false} PagesCoverTheStream(events: seq<Stored>, from: int, size: int)
    requires 1 <= from <= |events| + 1 && size >= 1
    ensures AllPages(events, from, size) == events[from - 1..]
    decreases |events| - from + 1
  {
    hide PageOf;
    if from <= |events| {
      OnePage(events, from, size);
      if from + size <= |events| {
        PagesCoverTheStream(events, from + size, size);
      } else {
        assert AllPages(events, from + size, size) == [];
      }
    }
  }

  lemma OnePage(events: seq<Stored>, from: int, size: int)
    requires 1 <= from <= |events| && size >= 1
    ensures if from + size <= |events| then events[from - 1..] == PageOf(events, from, size) + events[from + size - 1..]
            else events[from - 1..] == PageOf(events, from, size)
  {
  }

  /** The events past a position whose streams are of the category, in order. */
  function InCategory(log: seq<Stored>, category: string, after: int): seq<Stored> {
    if log == [] then []
    else
      var e := Last(log);
      var before := InCategory(Init(log), category, after);
      if e.position > after && Category(e.stream) == category then before + [e] else before
  }

  function Limited(events: seq<Stored>, limit: int): seq<Stored> {
    if 0 < limit < |events| then events[..limit] else events
  }

  /** Reading on from the last position read gives exactly the events not read yet. */
  lemma {:induction false} CategoryResumes(log: seq<Stored>, category: string, after: int, n: nat)
    requires Positioned(log) && 0 < n <= |InCategory(log, category, after)|
    ensures var all := InCategory(log, category, after);
            all == all[..n] + InCategory(log, category, all[n - 1].position)
  {
    var all, prev := InCategory(log, category, after), InCategory(Init(log), category, after);
    if n > |prev| {
      assert all[..n] == all && all[n - 1] == Last(log);
      NothingPast(log, category, Last(log).position);
    } else {
      CategoryResumes(Init(log), category, after, n);
      CategoryMembers(Init(log), category, after);
      assert prev[n - 1] in prev;
      assert all[..n] == prev[..n];
    }
  }

  /** The events read are exactly those past the position in the category's streams. */
  lemma {:induction false} CategoryMembers(log: seq<Stored>, category: string, after: int)
    ensures forall e :: e in InCategory(log, category, after) <==> e in log && e.position > after && Category(e.stream) == category
  {
    hide Category;
    if log != [] {
      CategoryMembers(Init(log), category, after);
      assert log == Init(log) + [Last(log)];
    }
  }

  predicate InOrder(events: seq<Stored>) {
    forall i, j :: 0 <= i < j < |events| ==> events[i].position < events[j].position
  }

  /** They are in the order of the log. */
  lemma {:induction false} CategoryInOrder(log: seq<Stored>, category: string, after: int)
    requires Positioned(log)
    ensures InOrder(InCategory(log, category, after))
  {
    hide Category;
    if log != [] {
      CategoryInOrder(Init(log), category, after);
      CategoryMembers(Init(log), category, after);
      var prev := InCategory(Init(log), category, after);
      forall i | 0 <= i < |prev| ensures prev[i].position < Last(log).position {
        assert prev[i] in prev;
        var k :| 0 <= k < |Init(log)| && Init(log)[k] == prev[i];
        assert log[k].position == k + 1 && log[|log| - 1].position == |log|;
      }
      var r := InCategory(log, category, after);
      assert r == prev || r == prev + [Last(log)];
    }
  }

  lemma {:induction false} NothingPast(log: seq<Stored>, category: string, last: int)
    requires Positioned(log) && |log| <= last
    ensures InCategory(log, category, last) == []
  {
    if log != [] { NothingPast(Init(log), category, last); }
  }

  class MemoryEventStore {
    var streams: map<string, seq<Stored>>
    var global: seq<Stored>
    var ids: set<Id>

    constructor ()
      ensures Valid() && global == []
    {
      streams, global, ids := map[], [], {};
    }

    /** The streams and the id index say what the global log says. */
    ghost predicate Valid()
      reads this
    {
      && Splits(streams, global)
      && WellNumbered(global)
      && Indexes(ids, global)
    }

    /** The canonical ids of a batch, each new to the store and to the batch. */
    method ReadIds(events: seq<NewEvent>) returns (batch: seq<Id>, fault: Option<AppendFault>)
      requires Valid()
      ensures fault.None? ==> NewBatch(global, events, batch)
      ensures fault.Some? ==> forall stream, expected :: Faulted(global, stream, expected, events, fault.value)
    {
      batch := [];
      var first: map<Id, nat> := map[];
      for i := 0 to |events|
        invariant |batch| == i
        invariant forall j :: 0 <= j < i ==> events[j].id == Uuid(batch[j]) && Fresh(global, events, j)
        invariant forall id :: id in first ==> first[id] < i && batch[first[id]] == id
        invariant forall j :: 0 <= j < i ==> batch[j] in first
      {
        var id := events[i].id;
        if !id.Uuid? {
          return batch, Some(NotAUuid(i));
        }
        if id.value in ids {
          return batch, Some(IdInUse(i));
        }
        if id.value in first {
          return batch, Some(RepeatedInBatch(i, first[id.value]));
        }
        first := first[id.value := i];
        batch := batch + [id.value];
      }
      fault := None;
    }

    /** Refuses a malformed request before the store is looked at. */
    method CheckRequest(stream: string, events: seq<NewEvent>) returns (fault: Option<AppendFault>)
      ensures fault.None? ==> ValidName(stream) && events != [] && forall i :: 0 <= i < |events| ==> ValidEvent(events[i])
      ensures fault.Some? ==> forall log, expected :: Faulted(log, stream, expected, events, fault.value)
    {
      if !ValidName(stream) {
        return Some(InvalidStreamName);
      }
      if events == [] {
        return Some(EmptyAppend);
      }
      for i := 0 to |events|
        invariant forall j :: 0 <= j < i ==> ValidEvent(events[j])
      {
        if !ValidEvent(events[i]) {
          return Some(InvalidEvent(i));
        }
      }
      return None;
    }

    /** Puts one numbered event into its stream, the log and the id index. */
    method Grow(e: Stored)
      requires Valid() && e.version == |SubLog(global, e.stream)| + 1 && e.position == |global| + 1
      requires forall x :: x in global ==> x.id != e.id
      modifies this
      ensures Valid() && global == old(global) + [e]
      ensures GrewByOne(old(global), global, e)
    {
      LogGrows(global, e);
      IndexGrows(ids, global, e);
      hide SubLog, WellNumbered, Indexes;
      ghost var was, log := streams, global;
      streams := streams[e.stream := (if e.stream in streams then streams[e.stream] else []) + [e]];
      SplitGrows(was, log, e, streams);
      hide Splits, GrewByOne;
      global := global + [e];
      ids := ids + {e.id};
    }

    /** Puts event i of a checked batch in. */
    method AppendNext(stream: string, events: seq<NewEvent>, batch: seq<Id>, current: nat, i: nat, now: Time, ghost was: seq<Stored>)
      requires Valid() && NewBatch(was, events, batch) && i < |events|
      requires global == was + Batch(stream, events, current, |was|, now)[..i]
      requires |SubLog(global, stream)| == current + i && GrewBy(was, global, stream)
      modifies this
      ensures Valid() && global == was + Batch(stream, events, current, |was|, now)[..i + 1]
      ensures |SubLog(global, stream)| == current + i + 1 && GrewBy(was, global, stream)
    {
      hide SubLog, WellNumbered, Splits, Indexes, GrewBy, GrewByOne, Fresh, Batch, NewBatch;
      ghost var stored, before := Batch(stream, events, current, |was|, now), global;
      NewToLog(was, events, batch, stored, i);
      Grow(StoredAs(events[i], Uuid(batch[i]), stream, current, |global| - i, i, now));
      GrewFurther(was, before, global, stored[i]);
      assert was + stored[..i + 1] == was + stored[..i] + [stored[i]];
    }

    /** Puts a checked batch in, event by event. */
    method AppendBatch(stream: string, events: seq<NewEvent>, batch: seq<Id>, now: Time)
      requires Valid() && NewBatch(global, events, batch)
      modifies this
      ensures Valid() && GrewBy(old(global), global, stream)
      ensures global == old(global) + Batch(stream, events, |SubLog(old(global), stream)|, |old(global)|, now)
    {
      hide SubLog, WellNumbered, Indexes, GrewBy, Batch, NewBatch;
      var current := if stream in streams then |streams[stream]| else 0;
      assert current == |SubLog(global, stream)|;
      hide Splits;
      GrewByNothing(global, stream);
      ghost var stored := Batch(stream, events, current, |global|, now);
      for i := 0 to |events|
        invariant Valid() && GrewBy(old(global), global, stream)
        invariant global == old(global) + stored[..i]
        invariant |SubLog(global, stream)| == current + i
      {
        AppendNext(stream, events, batch, current, i, now, old(global));
      }
      assert stored[..|events|] == stored;
    }

    /**
     * Appends a batch to a stream. It goes in whole, numbered on from the
     * stream and the log, or not at all, and it is refused only for a reason.
     */
    method Append(stream: string, expected: int, events: seq<NewEvent>) returns (fault: Option<AppendFault>, ghost at: Time)
      requires Valid()
      modifies this
      ensures Valid()
      ensures fault.None? <==> Appendable(old(global), stream, expected, events)
      ensures fault.Some? ==> Faulted(old(global), stream, expected, events, fault.value) && unchanged(this)
      ensures fault.None? ==>
                && Appended(old(global), global, stream, events, at)
                && SubLog(global, stream) == SubLog(old(global), stream) + global[|old(global)|..]
      ensures GrewBy(old(global), global, stream)
      ensures fault.None? ==>
                && (exists k :: 0 < k < |stream| - 1 && stream[k] == '-' && '-' !in stream[..k])
                && events != [] && (forall i :: 0 <= i < |events| ==> events[i].eventType != "")
                && (expected < 0 || expected == |SubLog(old(global), stream)|)
                && (forall i, e :: 0 <= i < |events| && e in old(global) ==> events[i].id != Uuid(e.id))
                && (forall i, j :: 0 <= i < j < |events| ==> events[i].id != events[j].id)
    {
      hide SubLog, WellNumbered, Batch, Fresh;
      var now: Time := *;
      at := now;
      fault := CheckRequest(stream, events);
      if fault.Some? {
        FaultedIsNotAppendable(global, stream, expected, events, fault.value);
        return fault, at;
      }
      var current := if stream in streams then |streams[stream]| else 0;
      assert current == |SubLog(global, stream)|;
      if expected >= 0 && expected != current {
        FaultedIsNotAppendable(global, stream, expected, events, Concurrency(expected, current));
        return Some(Concurrency(expected, current)), at;
      }
      var batch;
      batch, fault := ReadIds(events);
      if fault.Some? {
        FaultedIsNotAppendable(global, stream, expected, events, fault.value);
        return fault, at;
      }
      NamedAndNew(global, stream, events);
      AppendBatch(stream, events, batch, now);
      BatchIsAppended(old(global), stream, events, now);
      AppendedToStream(old(global), global, stream, events, now);
      return None, at;
    }

    /** The stream from a version on, at most limit events of it. */
    method ReadStream(stream: string, from: int, limit: int) returns (r: Option<seq<Stored>>)
      requires Valid()
      ensures r == if ValidName(stream) then Some(PageOf(SubLog(global, stream), from, limit)) else None
      ensures r.Some? ==>
                var all, start := SubLog(global, stream), if from < 1 then 0 else from - 1;
                var rest := if start < |all| then |all| - start else 0;
                && |r.value| == (if 0 < limit < rest then limit else rest)
                && forall i :: 0 <= i < |r.value| ==> r.value[i] == all[start + i]
    {
      if !ValidName(stream) {
        return None;
      }
      var events := if stream in streams then streams[stream] else [];
      var start := (if from < 1 then 1 else from) - 1;
      if start >= |events| {
        return Some([]);
      }
      var result := events[start..];
      assert 0 < limit < |result| ==> result[..limit] == events[start..start + limit];
      if limit > 0 && |result| > limit {
        result := result[..limit];
      }
      return Some(result);
    }

    method ReadLastEvent(stream: string) returns (r: Option<Option<Stored>>)
      requires Valid()
      ensures r == if !ValidName(stream) then None
                   else if SubLog(global, stream) == [] then Some(None)
                   else Some(Some(Last(SubLog(global, stream))))
    {
      if !ValidName(stream) {
        return None;
      }
      var events := if stream in streams then streams[stream] else [];
      return Some(if events == [] then None else Some(events[|events| - 1]));
    }

    /** The events of every stream of the category past a position, at most limit of them. */
    method ReadCategory(category: string, after: int, limit: int) returns (r: seq<Stored>)
      ensures r == Limited(InCategory(global, category, after), limit)
      ensures var all := InCategory(global, category, after); r <= all && |r| == if 0 < limit < |all| then limit else |all|
    {
      r := [];
      for i := 0 to |global|
        invariant r == InCategory(global[..i], category, after)
      {
        assert Init(global[..i + 1]) == global[..i];
        if global[i].position > after && Category(global[i].stream) == category {
          r := r + [global[i]];
        }
      }
      assert global[..|global|] == global;
      if limit > 0 && |r| > limit {
        r := r[..limit];
      }
    }
  }
}
