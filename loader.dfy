/**
 * `safeParseTasks`: turns the stored task collection, already parsed from
 * its JSON text, into validated tasks. Records without a string `id` and a
 * string `title` are dropped; the other fields are coerced or defaulted.
 * `Encode` is the value that `JSON.stringify` writes back, so that the
 * save/load round trip can be stated.
 */
module Loader {
  import opened Tasks

  /** A parsed JSON value (numbers restricted to integers). */
  datatype Json =
    | JNull
    | JBool(b: bool)
    | JNumber(n: int)
    | JString(s: string)
    | JArray(items: seq<Json>)
    | JObject(fields: map<string, Json>)

  /** What the stored task entry turned out to be: no entry, the empty
      string, text `JSON.parse` rejects, or a parsed document. */
  datatype Stored = Absent | EmptyText | Unparseable | Parsed(doc: Json)

  /** `v?.key`: the member of an object; `undefined` (None) for a missing
      member and for any value that is not an object. */
  function Field(v: Json, key: string): Option<Json> {
    if v.JObject? && key in v.fields then Some(v.fields[key]) else None
  }

  /** `typeof x === "string"`. */
  predicate IsString(x: Option<Json>) {
    x.Some? && x.value.JString?
  }

  /** `typeof x === "number"`. */
  predicate IsNumber(x: Option<Json>) {
    x.Some? && x.value.JNumber?
  }

  /** `Boolean(x)`: JavaScript truthiness of a JSON value or `undefined`. */
  predicate Truthy(x: Option<Json>) {
    match x
    case None => false
    case Some(JNull) => false
    case Some(JBool(b)) => b
    case Some(JNumber(n)) => n != 0
    case Some(JString(s)) => s != ""
    case Some(JArray(_)) => true
    case Some(JObject(_)) => true
  }

  /** The shape check a stored record must pass to be kept. */
  predicate WellShaped(v: Json) {
    IsString(Field(v, "id")) && IsString(Field(v, "title"))
  }

  /** One kept record as a task: `completed` is the truthiness of the stored
      value, a non-string description becomes "", and each non-number
      timestamp becomes `now`. */
  function ToTask(v: Json, now: int): (t: Task)
    requires WellShaped(v)
    ensures t.id == Field(v, "id").value.s && t.title == Field(v, "title").value.s
    ensures t.completed == Truthy(Field(v, "completed"))
    ensures t.description == if IsString(Field(v, "description")) then Field(v, "description").value.s else ""
    ensures t.createdAt == if IsNumber(Field(v, "createdAt")) then Field(v, "createdAt").value.n else now
    ensures t.updatedAt == if IsNumber(Field(v, "updatedAt")) then Field(v, "updatedAt").value.n else now
  {
    var description := Field(v, "description");
    var createdAt := Field(v, "createdAt");
    var updatedAt := Field(v, "updatedAt");
    Task(
      Field(v, "id").value.s,
      Field(v, "title").value.s,
      Truthy(Field(v, "completed")),
      match description case Some(JString(d)) => d case _ => "",
      match createdAt case Some(JNumber(n)) => n case _ => now,
      match updatedAt case Some(JNumber(n)) => n case _ => now)
  }

  /** `items.filter(<well shaped>).map(<to task>)`. */
  function ParseRecords(items: seq<Json>, now: int): (r: seq<Task>)
    ensures |r| <= |items|
    ensures forall v :: v in items && WellShaped(v) ==> ToTask(v, now) in r
    ensures forall t :: t in r ==> exists v :: v in items && WellShaped(v) && t == ToTask(v, now)
  {
    if items == [] then []
    else
      var rest := ParseRecords(items[1..], now);
      assert forall v :: v in items[1..] ==> v in items;
      if WellShaped(items[0]) then [ToTask(items[0], now)] + rest else rest
  }

  /** `safeParseTasks`: nothing unless the entry parsed to an array; then
      the well-shaped records, converted. */
  function SafeParseTasks(stored: Stored, now: int): (r: seq<Task>)
    ensures !(stored.Parsed? && stored.doc.JArray?) ==> r == []
    ensures stored.Parsed? && stored.doc.JArray? ==> |r| <= |stored.doc.items|
    ensures stored.Parsed? && stored.doc.JArray? ==>
      forall v :: v in stored.doc.items && WellShaped(v) ==> ToTask(v, now) in r
    ensures stored.Parsed? && stored.doc.JArray? ==>
      forall t :: t in r ==> exists v :: v in stored.doc.items && WellShaped(v) && t == ToTask(v, now)
  {
    match stored
    case Parsed(JArray(items)) => ParseRecords(items, now)
    case _ => []
  }

  /** The stored form of one task, as `JSON.stringify` writes it. */
  function TaskToJson(t: Task): (v: Json)
    ensures WellShaped(v)
  {
    JObject(map[
      "id" := JString(t.id),
      "title" := JString(t.title),
      "completed" := JBool(t.completed),
      "description" := JString(t.description),
      "createdAt" := JNumber(t.createdAt),
      "updatedAt" := JNumber(t.updatedAt)])
  }

  /** The stored records of a list, one per task, in list order. */
  function EncodeAll(tasks: seq<Task>): (items: seq<Json>)
    ensures |items| == |tasks|
    ensures forall i :: 0 <= i < |tasks| ==> items[i] == TaskToJson(tasks[i])
  {
    if tasks == [] then [] else [TaskToJson(tasks[0])] + EncodeAll(tasks[1..])
  }

  /** The stored form of the whole collection. */
  function Encode(tasks: seq<Task>): (v: Json)
    ensures v.JArray? && |v.items| == |tasks|
  {
    JArray(EncodeAll(tasks))
  }

  // ---------------------------------------------------------------------
  // Properties

  /** Exactly `undefined`, `null`, `false`, `0` and `""` are falsy. */
  lemma FalsyValues(x: Option<Json>)
    ensures !Truthy(x) <==>
      (x == None || x == Some(JNull) || x == Some(JBool(false))
       || x == Some(JNumber(0)) || x == Some(JString("")))
  {
  }

  /** A record is kept exactly when it is an object whose `id` and `title`
      members are both strings. */
  lemma WellShapedMeans(v: Json)
    ensures WellShaped(v) <==>
      (v.JObject? && "id" in v.fields && "title" in v.fields
       && v.fields["id"].JString? && v.fields["title"].JString?)
  {
  }

  /** The records are kept in input order: parsing distributes over
      concatenation, and a single record yields its task exactly when it is
      well shaped. */
  lemma {:induction false} ParseRecordsAppend(a: seq<Json>, b: seq<Json>, now: int)
    ensures ParseRecords(a + b, now) == ParseRecords(a, now) + ParseRecords(b, now)
  {
    if a == [] {
      assert a + b == b;
    } else {
      assert (a + b)[1..] == a[1..] + b;
      ParseRecordsAppend(a[1..], b, now);
    }
  }

  lemma ParseRecordsSingle(v: Json, now: int)
    ensures ParseRecords([v], now) == if WellShaped(v) then [ToTask(v, now)] else []
  {
    assert [v][1..] == [];
  }

  /** A well-shaped first record contributes its task ahead of the rest. */
  lemma ParseRecordsCons(v: Json, rest: seq<Json>, now: int)
    requires WellShaped(v)
    ensures ParseRecords([v] + rest, now) == [ToTask(v, now)] + ParseRecords(rest, now)
  {
    assert ([v] + rest)[1..] == rest;
  }

  /** A task reads back as itself. */
  lemma TaskRoundTrip(t: Task, now: int)
    ensures ToTask(TaskToJson(t), now) == t
  {
  }

  /** The records written for a list parse back to that list. */
  lemma {:induction false} ParseEncoded(tasks: seq<Task>, now: int)
    ensures ParseRecords(EncodeAll(tasks), now) == tasks
  {
    if tasks != [] {
      var v := TaskToJson(tasks[0]);
      var rest := EncodeAll(tasks[1..]);
      assert EncodeAll(tasks) == [v] + rest;
      ParseRecordsCons(v, rest, now);
      ParseEncoded(tasks[1..], now);
      TaskRoundTrip(tasks[0], now);
    }
  }

  /** Saving a collection and loading it again gives the same tasks in the
      same order, whatever the clock says. */
  lemma LoadAfterSave(tasks: seq<Task>, now: int)
    ensures SafeParseTasks(Parsed(Encode(tasks)), now) == tasks
  {
    ParseEncoded(tasks, now);
  }

  /** A record missing its id or title is dropped wherever it stands. */
  lemma DropsMalformedRecord(a: seq<Json>, v: Json, b: seq<Json>, now: int)
    requires !WellShaped(v)
    ensures ParseRecords(a + [v] + b, now) == ParseRecords(a + b, now)
  {
    ParseRecordsAppend(a + [v], b, now);
    ParseRecordsAppend(a, [v], now);
    ParseRecordsSingle(v, now);
    ParseRecordsAppend(a, b, now);
  }
}
