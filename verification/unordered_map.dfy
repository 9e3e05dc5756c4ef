/** `UnorderedMap`: a persistent map from string keys to JSON values, built from two
    parallel vectors (`prefix + "k"` for keys, `prefix + "v"` for values) and a
    lookup table that stores, under `prefix + "i" + JSON(key)`, the key's index as
    four raw little-endian bytes. */
module UnorderedMaps {
  import opened Encoding
  import opened Outcomes
  import opened JsonValues
  import opened Storage
  import opened Sequences
  import Vectors

  datatype UnorderedMap = UnorderedMap(prefix: string, keys: Vectors.Vector, values: Vectors.Vector)

  /** The map and store after a call, and the value it handed back (null for none). */
  datatype MapTaken = MapTaken(um: UnorderedMap, store: Store, value: Json)

  /** The constructor: an empty map whose vectors carry the derived prefixes. */
  function New(prefix: string): (r: UnorderedMap)
    ensures r.prefix == prefix && WellFormed(r)
    ensures Len(r) == Ok(0) && IsEmpty(r) == Ok(true)
  {
    UnorderedMap(prefix, Vectors.New(prefix + "k"), Vectors.New(prefix + "v"))
  }

  function KeyIndexPrefix(m: UnorderedMap): string {
    m.prefix + "i"
  }

  /** `JSON.stringify` of a string key, taken without escaping: quoting keeps it
      injective, which is all the lookup table relies on. */
  function Quote(k: string): string {
    "\"" + k + "\""
  }

  /** The lookup-table key of `k`. */
  function LookupKey(m: UnorderedMap, k: string): string {
    KeyIndexPrefix(m) + Quote(k)
  }

  /** `serializeIndex`: the four little-endian bytes of the index as a byte string. */
  function SerializeIndex(index: int): (s: string)
    ensures |s| == 4 && forall i | 0 <= i < 4 :: s[i] as int < 256
  {
    U8ArrayToBytes(Le4(ToUint32(index)))
  }

  /** `if (indexRaw)`: a lookup entry counts only when present and non-empty. */
  predicate IndexPresent(raw: Option<Value>) {
    match raw
    case None => false
    case Some(Raw(s)) => s != ""
    case Some(Text(_)) => true
  }

  /** `deserializeIndex`: the first element of a `Uint32Array` over the entry's
      bytes; a byte count that is not a multiple of four is rejected. */
  function DeserializeIndex(raw: Value): (r: Result<u32>)
    requires IndexPresent(Some(raw))
    ensures r.Ok? <==> raw.Raw? && |raw.chars| % 4 == 0
    ensures r.Err? ==> r.error == Malformed
  {
    match raw
    case Text(_) => Err(Malformed)
    case Raw(s) =>
      var a := BytesToU8Array(s);
      if |a| % 4 != 0 then Err(Malformed) else Ok(FromLe4(a))
  }

  lemma IndexRoundTrip(index: u32)
    ensures IndexPresent(Some(Raw(SerializeIndex(index))))
    ensures DeserializeIndex(Raw(SerializeIndex(index))) == Ok(index)
  {
    BytesRoundTrip(Le4(index));
    Le4RoundTrip(index);
  }

  /** Distinct 32-bit indices have distinct serialized forms. */
  lemma SerializeIndexInjective(i: u32, j: u32)
    ensures SerializeIndex(i) == SerializeIndex(j) ==> i == j
  {
    IndexRoundTrip(i);
    IndexRoundTrip(j);
  }

  /** `len`: the shared length of the two vectors, which must agree. */
  function Len(m: UnorderedMap): (r: Result<nat>)
    ensures r.Ok? <==> m.keys.length == m.values.length
    ensures r.Ok? ==> r.value == m.keys.length
  {
    if m.keys.length != m.values.length then Err(InconsistentState) else Ok(m.keys.length)
  }

  /** `isEmpty`: both vectors must agree on being empty. */
  function IsEmpty(m: UnorderedMap): (r: Result<bool>)
    ensures r.Ok? <==> (m.keys.length == 0 <==> m.values.length == 0)
    ensures r.Ok? ==> r.value == (m.keys.length == 0)
  {
    var keysIsEmpty := Vectors.IsEmpty(m.keys);
    var valuesIsEmpty := Vectors.IsEmpty(m.values);
    if keysIsEmpty != valuesIsEmpty then Err(InconsistentState) else Ok(keysIsEmpty)
  }

  /** `get`: null for a key without a lookup entry; otherwise the value at the
      looked-up index, which must be truthy. */
  function Get(m: UnorderedMap, st: Store, k: string): (r: Result<Json>)
    ensures !IndexPresent(Read(st, LookupKey(m, k))) ==> r == Ok(Null)
    ensures r.Ok? ==> r.value == Null || Truthy(r.value)
    ensures r.Err? ==> r.error == InconsistentState || r.error == Malformed
  {
    var raw := Read(st, LookupKey(m, k));
    if !IndexPresent(raw) then Ok(Null)
    else
      var index :- DeserializeIndex(raw.value);
      var value :- Vectors.Get(m.values, st, index);
      if Truthy(value) then Ok(value) else Err(InconsistentState)
  }

  /** `set`: a known key has its value replaced in place; a new key is given the
      next index in the lookup table and pushed onto both vectors. Returns the
      previous value, or null for a new key. */
  function Set(m: UnorderedMap, st: Store, k: string, value: Json): (r: Result<MapTaken>)
    ensures IndexPresent(Read(st, LookupKey(m, k))) && r.Ok? ==> r.value.um == m
    ensures !IndexPresent(Read(st, LookupKey(m, k))) ==>
      && (r.Ok? <==> m.keys.length == m.values.length)
      && (r.Ok? ==> r.value.value == Null
                    && r.value.um == UnorderedMap(m.prefix, Vectors.Vector(m.keys.prefix, m.keys.length + 1),
                                                  Vectors.Vector(m.values.prefix, m.values.length + 1)))
  {
    var lookup := LookupKey(m, k);
    var raw := Read(st, lookup);
    if IndexPresent(raw) then
      var index :- DeserializeIndex(raw.value);
      var replaced :- Vectors.Replace(m.values, st, index, value);
      Ok(MapTaken(m.(values := replaced.vec), replaced.store, replaced.value))
    else
      var nextIndex :- Len(m);
      var st1 := Write(st, lookup, Raw(SerializeIndex(nextIndex))).store;
      var pushedKey := Vectors.Push(m.keys, st1, Str(k));
      var pushedValue := Vectors.Push(m.values, pushedKey.store, value);
      Ok(MapTaken(UnorderedMap(m.prefix, pushedKey.vec, pushedValue.vec), pushedValue.store, Null))
  }

  /** The lookup-table half of `remove` for a map of `n` entries: the only entry
      just loses its lookup; otherwise the last key is read (it must be truthy),
      the removed key's lookup is deleted, and, unless the removed key is the last
      one, the last key's lookup is repointed to the removed key's index, the slot
      the swap-remove will move it into. */
  function Unlink(m: UnorderedMap, st: Store, k: string, indexRaw: Value, n: nat): (r: Result<Store>)
    ensures r.Ok? ==> Read(r.value, LookupKey(m, k)) == None
    ensures n == 1 ==> r.Ok?
    ensures r.Err? ==> r.error == InconsistentState || r.error == Malformed
  {
    var lookup := LookupKey(m, k);
    if n == 1 then Ok(Storage.Remove(st, lookup).store)
    else
      var lastKey :- Vectors.Get(m.keys, st, n - 1);
      if !Truthy(lastKey) then Err(InconsistentState)
      else if !lastKey.Str? then Err(Malformed)
      else
        var st2 := Storage.Remove(st, lookup).store;
        if lastKey.s != k then
          LookupKeyInjective(m, k, lastKey.s);
          Ok(Write(st2, LookupKey(m, lastKey.s), indexRaw).store)
        else Ok(st2)
  }

  /** `remove`: null and no change for a key without a lookup entry; otherwise the
      lookup table is unlinked, then both vectors are swap-removed at the key's
      index, and the value evicted from the values vector is returned. */
  function Remove(m: UnorderedMap, st: Store, k: string): (r: Result<MapTaken>)
    ensures !IndexPresent(Read(st, LookupKey(m, k))) ==> r == Ok(MapTaken(m, st, Null))
    ensures IndexPresent(Read(st, LookupKey(m, k))) && r.Ok? ==>
      && 0 < m.keys.length == m.values.length
      && r.value.um.prefix == m.prefix
  {
    var raw := Read(st, LookupKey(m, k));
    if !IndexPresent(raw) then Ok(MapTaken(m, st, Null))
    else
      var n :- Len(m);
      var st1 :- Unlink(m, st, k, raw.value, n);
      var index :- DeserializeIndex(raw.value);
      var keysRemoved :- Vectors.SwapRemove(m.keys, st1, index);
      var valuesRemoved :- Vectors.SwapRemove(m.values, keysRemoved.store, index);
      Ok(MapTaken(UnorderedMap(m.prefix, keysRemoved.vec, valuesRemoved.vec), valuesRemoved.store, valuesRemoved.value))
  }

  /** `JSON.stringify` of a map record: its own fields in the order the
      constructor assigns them. The `length` field is never updated and stays 0. */
  function Document(m: UnorderedMap): Json {
    Obj([("length", Num(0)), ("prefix", Str(m.prefix)), ("keyIndexPrefix", Str(KeyIndexPrefix(m))),
         ("keys", Vectors.Document(m.keys)), ("values", Vectors.Document(m.values))])
  }

  /** `UnorderedMap.deserialize`: the map record and both vector records rebuilt
      from a parsed document, the vectors' prefixes derived again from the map's. */
  function Deserialize(data: Json): (r: Option<UnorderedMap>)
    ensures r.Some? ==> r.value.keys.prefix == r.value.prefix + "k" && r.value.values.prefix == r.value.prefix + "v"
    ensures r.Some? ==> Member(data, "prefix") == Some(Str(r.value.prefix))
  {
    var prefix :- AsString(Member(data, "prefix"));
    var keys :- Member(data, "keys");
    var keysLength :- AsInt(Member(keys, "length"));
    var values :- Member(data, "values");
    var valuesLength :- AsInt(Member(values, "length"));
    if keysLength < 0 || valuesLength < 0 then None
    else Some(UnorderedMap(prefix, Vectors.Vector(prefix + "k", keysLength), Vectors.Vector(prefix + "v", valuesLength)))
  }

  /** A map whose vectors carry the derived prefixes survives its document. */
  lemma DeserializeDocument(m: UnorderedMap)
    requires WellFormed(m)
    ensures Deserialize(Document(m)) == Some(m)
  {
    DocumentMembers(m);
    Vectors.DeserializeDocument(m.keys);
    Vectors.DeserializeDocument(m.values);
  }

  /** The three members `deserialize` reads back from a map's document. */
  lemma DocumentMembers(m: UnorderedMap)
    ensures Member(Document(m), "prefix") == Some(Str(m.prefix))
    ensures Member(Document(m), "keys") == Some(Vectors.Document(m.keys))
    ensures Member(Document(m), "values") == Some(Vectors.Document(m.values))
  {
    var fields := Document(m).fields;
    assert fields[1].0 == "prefix" && fields[3].0 == "keys" && fields[4].0 == "values";
    assert fields[0].0[0] != fields[1].0[0];
    FieldAt(fields, 1);
    assert fields[0].0[0] != fields[3].0[0] && fields[1].0[0] != fields[3].0[0];
    assert fields[2].0[3] != fields[3].0[3];
    FieldAt(fields, 3);
    assert forall j | 0 <= j < 4 :: fields[j].0[0] != fields[4].0[0];
    FieldAt(fields, 4);
  }

  // ---------------------------------------------------------------------------
  // Representation invariant and abstraction

  /** The vectors' prefixes are the ones the constructor derives. */
  ghost predicate WellFormed(m: UnorderedMap) {
    m.keys.prefix == m.prefix + "k" && m.values.prefix == m.prefix + "v"
  }

  ghost predicate KeysAreStrings(m: UnorderedMap, st: Store) {
    && Vectors.Valid(m.keys, st)
    && forall i | 0 <= i < m.keys.length :: Vectors.View(m.keys, st)[i].Str?
  }

  /** The keys vector's contents as strings. */
  ghost function KeyList(m: UnorderedMap, st: Store): (ks: seq<string>)
    requires KeysAreStrings(m, st)
    ensures |ks| == m.keys.length
  {
    seq(m.keys.length, i requires 0 <= i < m.keys.length => Vectors.View(m.keys, st)[i].s)
  }

  /** The representation invariant: equal lengths, distinct string keys, the lookup
      entry of `keys[i]` holds exactly `i`, and no other key has a lookup entry. */
  ghost predicate Inv(m: UnorderedMap, st: Store) {
    && WellFormed(m)
    && KeysAreStrings(m, st)
    && Vectors.Valid(m.values, st)
    && m.keys.length == m.values.length
    && Distinct(KeyList(m, st))
    && LookupsPointHome(m, st, KeyList(m, st))
    && NoStrayLookups(m, st, KeyList(m, st))
  }

  /** The lookup entry of `ks[i]` holds exactly the serialized index `i`. */
  ghost predicate LookupsPointHome(m: UnorderedMap, st: Store, ks: seq<string>) {
    forall i | 0 <= i < |ks| :: Read(st, LookupKey(m, ks[i])) == Some(Raw(SerializeIndex(i)))
  }

  /** Only the keys in `ks` have a lookup entry. */
  ghost predicate NoStrayLookups(m: UnorderedMap, st: Store, ks: seq<string>) {
    forall k | LookupKey(m, k) in st :: k in ks
  }

  /** The map a consistent `UnorderedMap` stands for. */
  ghost function Entries(m: UnorderedMap, st: Store): map<string, Json>
    requires Inv(m, st)
  {
    AsMap(KeyList(m, st), Vectors.View(m.values, st))
  }

  /** The position of a live key. */
  ghost function Position(m: UnorderedMap, st: Store, k: string): (i: nat)
    requires Inv(m, st) && k in Entries(m, st)
    ensures i < m.keys.length && KeyList(m, st)[i] == k
    ensures Entries(m, st)[k] == Vectors.View(m.values, st)[i]
  {
    IndexOf(KeyList(m, st), k)
  }

  lemma LiveKeys(m: UnorderedMap, st: Store, k: string)
    requires Inv(m, st)
    ensures k in Entries(m, st) <==> k in KeyList(m, st)
  {
    if k in KeyList(m, st) {
      var i := IndexOf(KeyList(m, st), k);
    }
  }

  /** Lookup keys, key slots and value slots never collide. */
  lemma KeySpaces(m: UnorderedMap, k: string, i: int, j: int)
    requires WellFormed(m)
    ensures LookupKey(m, k) != Vectors.IndexToKey(m.keys.prefix, i)
    ensures LookupKey(m, k) != Vectors.IndexToKey(m.values.prefix, i)
    ensures Vectors.IndexToKey(m.keys.prefix, i) != Vectors.IndexToKey(m.values.prefix, j)
  {
    var p := |m.prefix|;
    var lk := LookupKey(m, k);
    var ks := Vectors.IndexToKey(m.keys.prefix, i);
    var vs := Vectors.IndexToKey(m.values.prefix, j);
    var vs' := Vectors.IndexToKey(m.values.prefix, i);
    assert lk[p] == 'i';
    assert ks[..p + 1] == m.prefix + "k" && ks[p] == 'k';
    assert vs[..p + 1] == m.prefix + "v" && vs[p] == 'v';
    assert vs'[..p + 1] == m.prefix + "v" && vs'[p] == 'v';
  }

  lemma LookupKeyInjective(m: UnorderedMap, k1: string, k2: string)
    ensures LookupKey(m, k1) == LookupKey(m, k2) ==> k1 == k2
  {
    if LookupKey(m, k1) == LookupKey(m, k2) {
      var p := |KeyIndexPrefix(m)| + 1;
      var lk := LookupKey(m, k1);
      assert k1 == lk[p..|lk| - 1];
      assert k2 == LookupKey(m, k2)[p..|lk| - 1];
    }
  }

  /** A change confined to lookup keys other than the live ones' keeps both vectors
      and every live lookup entry, so the map stays consistent and unchanged. */
  lemma VectorsUntouched(m: UnorderedMap, st: Store, st': Store, touched: set<string>)
    requires WellFormed(m) && KeysAreStrings(m, st) && Vectors.Valid(m.values, st)
    requires SameExcept(st, st', touched)
    requires forall key | key in touched :: exists k :: key == LookupKey(m, k)
    ensures KeysAreStrings(m, st') && Vectors.Valid(m.values, st')
    ensures Vectors.View(m.keys, st') == Vectors.View(m.keys, st)
    ensures Vectors.View(m.values, st') == Vectors.View(m.values, st)
    ensures KeyList(m, st') == KeyList(m, st)
  {
    forall i | 0 <= i < m.keys.length
      ensures Vectors.IndexToKey(m.keys.prefix, i) !in touched
    {
      forall k ensures LookupKey(m, k) != Vectors.IndexToKey(m.keys.prefix, i) {
        KeySpaces(m, k, i, 0);
      }
    }
    forall i | 0 <= i < m.values.length
      ensures Vectors.IndexToKey(m.values.prefix, i) !in touched
    {
      forall k ensures LookupKey(m, k) != Vectors.IndexToKey(m.values.prefix, i) {
        KeySpaces(m, k, i, 0);
      }
    }
    Vectors.ViewUntouched(m.keys, st, st', touched);
    Vectors.ViewUntouched(m.values, st, st', touched);
  }
}
