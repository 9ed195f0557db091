/**
 * Values every tree module shares: identifiers, times, decoded tree events and
 * adjacency rows.
 */
module TreeTypes {

  datatype Option<+T> = None | Some(value: T)

  datatype Result<+T, +E> = Ok(value: T) | Err(error: E)

  /** A UUID in canonical form. Zero is the nil UUID. */
  type Id = nat

  const NIL_ID: Id := 0

  /** Nanoseconds since the Unix epoch. */
  type Time = int

  const MICROSECOND: int := 1_000
  const SECOND: int := 1_000_000_000

  /** The Unix second of t, rounded toward the past. */
  function Unix(t: Time): int {
    t / SECOND
  }

  /** t rounded down to a whole microsecond, the store's resolution. */
  function Truncated(t: Time): Time {
    t - t % MICROSECOND
  }

  /** The engine keeps seconds and the store keeps microseconds. Neither loses the other's second. */
  lemma TruncationKeepsTheSecond(t: Time)
    ensures Unix(Truncated(t)) == Unix(t)
  {
    var q, m := t / SECOND, t / MICROSECOND;
    assert q * SECOND <= t < (q + 1) * SECOND;
    assert Truncated(t) == m * MICROSECOND;
    assert q * 1_000_000 <= m;
    DivisionIsUnique(Truncated(t), SECOND, q);
  }

  lemma DivisionIsUnique(x: int, d: int, q: int)
    requires d > 0 && q * d <= x < (q + 1) * d
    ensures x / d == q
  {
    var e := x / d;
    assert e * d <= x < (e + 1) * d;
    assert e < q ==> (e + 1) * d <= q * d;
    assert e > q ==> (q + 1) * d <= e * d;
  }

  /** The structures whose engine rules this model carries. */
  datatype Kind = Unilevel | Binary

  datatype EventType = RootAddedType | NodePlacedType | NodeRemovedType | EventRejectedType | ForeignType

  /** A decoded payload. Unreadable stands for bytes that do not unmarshal. */
  datatype Payload =
    | RootAdded(tree: Id, user: Id, sponsor: Id, enrolled: Time, kind: Kind)
    | NodePlaced(tree: Id, user: Id, parent: Id, sponsor: Id, position: Option<int>, kind: Kind, enrolled: Time)
    | NodeRemoved(tree: Id, user: Id, recordedKind: Option<Kind>)
    | EventRejected(tree: Id, rejectedId: Id, rejectedVersion: int, rejectedType: EventType, reason: string)
    | Unreadable(eventType: EventType)

  datatype Event = Event(id: Id, version: int, payload: Payload)
  {
    function Type(): EventType {
      match payload
      case RootAdded(_, _, _, _, _) => RootAddedType
      case NodePlaced(_, _, _, _, _, _, _) => NodePlacedType
      case NodeRemoved(_, _, _) => NodeRemovedType
      case EventRejected(_, _, _, _, _) => EventRejectedType
      case Unreadable(eventType) => eventType
    }

    /** The event types a rejection may name. */
    predicate Rejectable() {
      Type() in {RootAddedType, NodePlacedType, NodeRemovedType}
    }

    predicate IsRejection() {
      Type() == EventRejectedType
    }

    /** An event whose projection inserts one row. */
    predicate IsInsert() {
      payload.RootAdded? || payload.NodePlaced?
    }
  }

  /** One row of the adjacency table. The store's own created and updated times are not kept. */
  datatype Row = Row(
    id: Id,
    tree: Id,
    user: Id,
    parent: Option<Id>,
    sponsor: Option<Id>,
    position: Option<int>,
    depth: int,
    enrolled: Time,
    removedAt: Option<Time>,
    removedBy: Option<Id>)
  {
    predicate Active() {
      removedAt.None?
    }

    predicate ActiveIn(t: Id) {
      tree == t && removedAt.None?
    }
  }

  datatype Responsored = Responsored(user: Id, newSponsor: Id)

  datatype Relocation = Relocation(user: Id, parent: Id, position: int, depth: int)

  /** White space, as Unicode has it. */
  predicate Blank(c: char) {
    || '\U{0009}' <= c <= '\U{000D}' || c == ' ' || c == '\U{0085}' || c == '\U{00A0}' || c == '\U{1680}'
    || '\U{2000}' <= c <= '\U{200A}' || c == '\U{2028}' || c == '\U{2029}' || c == '\U{202F}' || c == '\U{205F}' || c == '\U{3000}'
  }

  predicate AllBlank(s: string) {
    forall i :: 0 <= i < |s| ==> Blank(s[i])
  }

  predicate HasText(s: string) {
    exists c :: c in s && !Blank(c)
  }

  /** The text without the white space around it. */
  function Trimmed(s: string): string {
    if s == "" then ""
    else if Blank(s[0]) then Trimmed(s[1..])
    else if Blank(Last(s)) then Trimmed(Init(s))
    else s
  }

  /** Only white space goes, and from the ends alone. */
  lemma {:induction false} TrimmedIs(s: string) returns (lead: string, trail: string)
    ensures s == lead + Trimmed(s) + trail && AllBlank(lead) && AllBlank(trail)
    ensures Trimmed(s) != "" ==> !Blank(Trimmed(s)[0]) && !Blank(Last(Trimmed(s)))
  {
    hide Blank;
    lead, trail := "", "";
    if s != "" && Blank(s[0]) {
      lead, trail := TrimmedIs(s[1..]);
      lead := [s[0]] + lead;
      assert s == [s[0]] + s[1..];
    } else if s != "" && Blank(Last(s)) {
      lead, trail := TrimmedIs(Init(s));
      trail := trail + [Last(s)];
      assert s == Init(s) + [Last(s)];
    }
  }

  /** What is left is empty exactly when there was no text. */
  lemma TrimmedText(s: string)
    ensures Trimmed(s) != "" <==> HasText(s)
    ensures HasText(Trimmed(s)) <==> HasText(s)
  {
    hide Blank, Trimmed;
    var lead, trail := TrimmedIs(s);
    var mid := Trimmed(s);
    if mid != "" {
      assert mid[0] in mid && s[|lead|] == mid[0];
    }
    if HasText(s) {
      var c :| c in s && !Blank(c);
      var i :| 0 <= i < |s| && s[i] == c;
      assert |lead| <= i < |lead| + |mid|;
    }
  }

  function Last<T>(s: seq<T>): T
    requires s != []
  {
    s[|s| - 1]
  }

  function Init<T>(s: seq<T>): seq<T>
    requires s != []
  {
    s[..|s| - 1]
  }

  lemma InitOfAppend<T>(s: seq<T>, x: T)
    ensures s + [x] != [] && Init(s + [x]) == s && Last(s + [x]) == x
  {
  }
}
