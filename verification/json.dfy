/** Parsed JSON documents, the element type of the persistent containers. */
module JsonValues {
  import opened Outcomes

  /** A JSON value as `JSON.parse` returns it. Numbers are modelled as integers. */
  datatype Json =
    | Null
    | Bool(b: bool)
    | Num(n: int)
    | Str(s: string)
    | Arr(items: seq<Json>)
    | Obj(fields: seq<(string, Json)>)

  /** JavaScript truthiness of a parsed value: null, false, 0 and "" are falsy. */
  predicate Truthy(j: Json) {
    match j
    case Null => false
    case Bool(b) => b
    case Num(n) => n != 0
    case Str(s) => s != ""
    case Arr(_) => true
    case Obj(_) => true
  }

  /** Property access `o.name` on a parsed object: the first field of that name,
      or nothing (JavaScript's `undefined`). */
  function Member(j: Json, name: string): (r: Option<Json>)
    ensures r.Some? ==> j.Obj? && exists i | 0 <= i < |j.fields| :: j.fields[i] == (name, r.value)
  {
    if j.Obj? then FieldOf(j.fields, name) else None
  }

  function FieldOf(fields: seq<(string, Json)>, name: string): (r: Option<Json>)
    ensures r.Some? ==> exists i | 0 <= i < |fields| :: fields[i] == (name, r.value)
    ensures r.None? ==> forall i | 0 <= i < |fields| :: fields[i].0 != name
  {
    if |fields| == 0 then None
    else if fields[0].0 == name then Some(fields[0].1)
    else
      var r := FieldOf(fields[1..], name);
      assert r.Some? ==> fields[1..][0] == fields[1];
      r
  }

  /** A field no earlier field shadows is found by its name. */
  lemma {:induction false} FieldAt(fields: seq<(string, Json)>, i: nat)
    requires i < |fields|
    requires forall j | 0 <= j < i :: fields[j].0 != fields[i].0
    ensures FieldOf(fields, fields[i].0) == Some(fields[i].1)
  {
    if i > 0 {
      assert fields[0].0 != fields[i].0;
      var rest := fields[1..];
      assert rest[i - 1] == fields[i];
      forall j | 0 <= j < i - 1
        ensures rest[j].0 != rest[i - 1].0
      {
        assert rest[j] == fields[j + 1];
      }
      FieldAt(rest, i - 1);
    }
  }

  /** Property assignment `o.name = v` on a parsed object: an existing field keeps
      its place, a new one goes last; every other member reads as before. */
  function SetMember(j: Json, name: string, v: Json): (r: Json)
    requires j.Obj?
    ensures Member(r, name) == Some(v)
    ensures forall other | other != name :: Member(r, other) == Member(j, other)
  {
    Obj(WithField(j.fields, name, v))
  }

  function WithField(fields: seq<(string, Json)>, name: string, v: Json): (r: seq<(string, Json)>)
    ensures FieldOf(r, name) == Some(v)
    ensures forall other | other != name :: FieldOf(r, other) == FieldOf(fields, other)
  {
    if |fields| == 0 then [(name, v)]
    else if fields[0].0 == name then [(name, v)] + fields[1..]
    else
      var rest := WithField(fields[1..], name, v);
      assert ([fields[0]] + rest)[1..] == rest;
      assert ([fields[0]] + fields[1..])[1..] == fields[1..];
      [fields[0]] + rest
  }

  /** Assigning a field no earlier field shadows replaces it in place. */
  lemma {:induction false} WithFieldAt(fields: seq<(string, Json)>, i: nat, v: Json)
    requires i < |fields|
    requires forall j | 0 <= j < i :: fields[j].0 != fields[i].0
    ensures WithField(fields, fields[i].0, v) == fields[i := (fields[i].0, v)]
  {
    if i > 0 {
      assert fields[0].0 != fields[i].0;
      var rest := fields[1..];
      assert rest[i - 1] == fields[i];
      forall j | 0 <= j < i - 1
        ensures rest[j].0 != rest[i - 1].0
      {
        assert rest[j] == fields[j + 1];
      }
      WithFieldAt(rest, i - 1, v);
      assert [fields[0]] + rest[i - 1 := (fields[i].0, v)] == fields[i := (fields[i].0, v)];
    }
  }

  function AsString(j: Option<Json>): Option<string> {
    if j.Some? && j.value.Str? then Some(j.value.s) else None
  }

  function AsInt(j: Option<Json>): Option<int> {
    if j.Some? && j.value.Num? then Some(j.value.n) else None
  }
}
