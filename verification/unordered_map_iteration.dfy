/** The whole-map operations of `UnorderedMap`, which walk its vectors or a list of
    pairs: the paired iterator, `toArray`, `clear` and `extend`. */
module UnorderedMapIteration {
  import opened Encoding
  import opened Outcomes
  import opened JsonValues
  import opened Storage
  import opened Sequences
  import Vectors
  import opened UnorderedMaps
  import opened UnorderedMapLaws

  /** The map and store after a call that hands nothing back. */
  datatype MapUpdated = MapUpdated(um: UnorderedMap, store: Store)

  /** `UnorderedMapIterator`: one iterator over each vector, advanced together. */
  datatype MapIterator = MapIterator(keys: Vectors.VectorIterator, values: Vectors.VectorIterator)

  /** What `next()` returns: `{ value: [key, value], done }`. */
  datatype PairStep = PairStep(key: Json, value: Json, done: bool)

  /** `[Symbol.iterator]`: a fresh iterator yields the first key and value first,
      and is done at once on a map whose vectors are both empty. */
  function Iterate(m: UnorderedMap): (it: MapIterator)
    ensures it.keys.vector == m.keys && it.values.vector == m.values
    ensures forall st | Vectors.Valid(m.keys, st) && Vectors.Valid(m.values, st) && m.keys.length == 0 == m.values.length ::
      Next(it, st) == Ok((it, PairStep(Null, Null, true)))
    ensures forall st | Vectors.Valid(m.keys, st) && Vectors.Valid(m.values, st) && 0 < m.keys.length && 0 < m.values.length ::
      && Next(it, st).Ok?
      && Next(it, st).value.1 == PairStep(Vectors.View(m.keys, st)[0], Vectors.View(m.values, st)[0], false)
  {
    MapIterator(Vectors.Iterate(m.keys), Vectors.Iterate(m.values))
  }

  /** `next`: advances both iterators (keys first) and fails when exactly one of
      them is exhausted. */
  function Next(it: MapIterator, st: Store): (r: Result<(MapIterator, PairStep)>)
    ensures r.Ok? ==>
      && (r.value.1.done <==> it.keys.current >= it.keys.vector.length)
      && (r.value.1.done <==> it.values.current >= it.values.vector.length)
    ensures r.Ok? && !r.value.1.done ==>
      r.value.0 == MapIterator(it.keys.(current := it.keys.current + 1), it.values.(current := it.values.current + 1))
    ensures Vectors.Valid(it.keys.vector, st) && Vectors.Valid(it.values.vector, st) ==>
      && (r.Ok? <==> (it.keys.current < it.keys.vector.length <==> it.values.current < it.values.vector.length))
      && (r.Err? ==> r.error == InconsistentState)
    ensures Vectors.Valid(it.keys.vector, st) && Vectors.Valid(it.values.vector, st)
              && it.keys.current < it.keys.vector.length && it.values.current < it.values.vector.length ==>
      r.value.1 == PairStep(Vectors.View(it.keys.vector, st)[it.keys.current],
                            Vectors.View(it.values.vector, st)[it.values.current], false)
    ensures r.Err? ==> r.error == InconsistentState || r.error == Malformed
  {
    var key :- Vectors.Next(it.keys, st);
    var value :- Vectors.Next(it.values, st);
    if key.1.done != value.1.done then Err(InconsistentState)
    else Ok((MapIterator(key.0, value.0), PairStep(key.1.value, value.1.value, key.1.done)))
  }

  /** The pairs a map with valid vectors of equal length yields, in index order. */
  ghost function Pairs(m: UnorderedMap, st: Store): (ps: seq<(Json, Json)>)
    requires Vectors.Valid(m.keys, st) && Vectors.Valid(m.values, st) && m.keys.length == m.values.length
    ensures |ps| == m.keys.length
  {
    seq(m.keys.length, i requires 0 <= i < m.keys.length =>
      (Vectors.View(m.keys, st)[i], Vectors.View(m.values, st)[i]))
  }

  /** `toArray`: runs the paired iterator to the end. Vectors of different lengths
      are reported as inconsistent when the shorter one runs out. */
  method ToArray(m: UnorderedMap, st: Store) returns (r: Result<seq<(Json, Json)>>)
    ensures Vectors.Valid(m.keys, st) && Vectors.Valid(m.values, st) ==>
      (r.Ok? <==> m.keys.length == m.values.length)
    ensures Vectors.Valid(m.keys, st) && Vectors.Valid(m.values, st) && m.keys.length == m.values.length ==>
      r == Ok(Pairs(m, st))
    ensures Vectors.Valid(m.keys, st) && Vectors.Valid(m.values, st) && m.keys.length != m.values.length ==>
      r == Err(InconsistentState)
    ensures r.Err? ==> r.error == InconsistentState || r.error == Malformed
  {
    var it := Iterate(m);
    var acc: seq<(Json, Json)> := [];
    ghost var valid := Vectors.Valid(m.keys, st) && Vectors.Valid(m.values, st);
    while true
      invariant it.keys.vector == m.keys && it.values.vector == m.values
      invariant it.keys.current == it.values.current == |acc|
      invariant |acc| <= m.keys.length && |acc| <= m.values.length
      invariant valid ==> forall i | 0 <= i < |acc| ::
        acc[i] == (Vectors.View(m.keys, st)[i], Vectors.View(m.values, st)[i])
      decreases m.keys.length - |acc|
    {
      var n := Next(it, st);
      if n.Err? {
        return Err(n.error);
      }
      if n.value.1.done {
        break;
      }
      acc := acc + [(n.value.1.key, n.value.1.value)];
      it := n.value.0;
    }
    if valid && m.keys.length == m.values.length {
      assert acc == Pairs(m, st);
    }
    r := Ok(acc);
  }

  /** The pair at position `i` of a consistent map is its `i`-th key and that
      key's entry. */
  lemma PairAt(m: UnorderedMap, st: Store, i: nat)
    requires Inv(m, st) && i < m.keys.length
    ensures Pairs(m, st)[i] == (Str(KeyList(m, st)[i]), Entries(m, st)[KeyList(m, st)[i]])
  {
  }

  /** A consistent map yields each of its entries exactly once: every pair is an
      entry, no key comes twice, and there are as many pairs as entries. */
  lemma PairsAreEntries(m: UnorderedMap, st: Store)
    requires Inv(m, st)
    ensures var ps := Pairs(m, st);
      && |ps| == |Entries(m, st)|
      && (forall i | 0 <= i < |ps| :: ps[i].0.Str? && ps[i].0.s in Entries(m, st) && Entries(m, st)[ps[i].0.s] == ps[i].1)
      && (forall i, j | 0 <= i < j < |ps| :: ps[i].0 != ps[j].0)
  {
    var ps := Pairs(m, st);
    LenCountsEntries(m, st);
    forall i | 0 <= i < |ps|
      ensures ps[i].0.Str? && ps[i].0.s in Entries(m, st) && Entries(m, st)[ps[i].0.s] == ps[i].1
    {
      PairAt(m, st, i);
    }
    forall i, j | 0 <= i < j < |ps|
      ensures ps[i].0 != ps[j].0
    {
      PairAt(m, st, i);
      PairAt(m, st, j);
    }
  }

  /** Every entry of a consistent map is among the pairs it yields. */
  lemma PairsCoverEntries(m: UnorderedMap, st: Store)
    requires Inv(m, st)
    ensures forall k | k in Entries(m, st) :: exists i | 0 <= i < m.keys.length :: Pairs(m, st)[i] == (Str(k), Entries(m, st)[k])
  {
    forall k | k in Entries(m, st)
      ensures exists i | 0 <= i < m.keys.length :: Pairs(m, st)[i] == (Str(k), Entries(m, st)[k])
    {
      var i := Position(m, st, k);
      PairAt(m, st, i);
    }
  }

  /** The lookup keys of the given keys. */
  ghost function LookupKeys(m: UnorderedMap, ks: seq<string>): set<string> {
    set k | k in ks :: LookupKey(m, k)
  }

  /** Removing lookup entries keeps every slot of both vectors. */
  lemma LookupRemovalKeepsSlots(m: UnorderedMap, st: Store, k: string)
    requires WellFormed(m)
    ensures forall j :: Read(st - {LookupKey(m, k)}, Vectors.IndexToKey(m.keys.prefix, j)) == Read(st, Vectors.IndexToKey(m.keys.prefix, j))
    ensures forall j :: Read(st - {LookupKey(m, k)}, Vectors.IndexToKey(m.values.prefix, j)) == Read(st, Vectors.IndexToKey(m.values.prefix, j))
  {
    forall j
      ensures LookupKey(m, k) != Vectors.IndexToKey(m.keys.prefix, j)
      ensures LookupKey(m, k) != Vectors.IndexToKey(m.values.prefix, j)
    {
      KeySpaces(m, k, j, j);
    }
  }

  /** One step of `clear`'s walk deletes the lookup entry of key `c`. */
  lemma ClearStep(m: UnorderedMap, st: Store, before: Store, ks: seq<string>, c: nat)
    requires c < |ks|
    requires SameExcept(st, before, LookupKeys(m, ks[..c]))
    requires forall j | 0 <= j < c :: LookupKey(m, ks[j]) !in before
    ensures var after := Storage.Remove(before, LookupKey(m, ks[c])).store;
      && SameExcept(st, after, LookupKeys(m, ks[..c + 1]))
      && forall j | 0 <= j < c + 1 :: LookupKey(m, ks[j]) !in after
  {
    var after := Storage.Remove(before, LookupKey(m, ks[c])).store;
    assert ks[..c + 1] == ks[..c] + [ks[c]];
    assert LookupKeys(m, ks[..c + 1]) == LookupKeys(m, ks[..c]) + {LookupKey(m, ks[c])};
    SameExceptTrans(st, before, after, LookupKeys(m, ks[..c]), {LookupKey(m, ks[c])});
  }

  /** Both vectors' slots read in `st1` as in `st`. */
  ghost predicate SlotsKept(m: UnorderedMap, st: Store, st1: Store) {
    && (forall j :: Read(st1, Vectors.IndexToKey(m.keys.prefix, j)) == Read(st, Vectors.IndexToKey(m.keys.prefix, j)))
    && (forall j :: Read(st1, Vectors.IndexToKey(m.values.prefix, j)) == Read(st, Vectors.IndexToKey(m.values.prefix, j)))
  }

  /** Where `clear`'s walk stands after `c` keys: the vectors are untouched, and
      (for string keys) exactly the first `c` lookup entries are gone. */
  ghost predicate Walked(m: UnorderedMap, st: Store, st1: Store, c: nat) {
    && (WellFormed(m) ==> SlotsKept(m, st, st1))
    && (WellFormed(m) && KeysAreStrings(m, st) ==>
          && c <= m.keys.length
          && SameExcept(st, st1, LookupKeys(m, KeyList(m, st)[..c]))
          && forall j | 0 <= j < c :: LookupKey(m, KeyList(m, st)[j]) !in st1)
  }

  /** The keys vector reads the same during the walk. */
  lemma WalkedKeys(m: UnorderedMap, st: Store, st1: Store, c: nat)
    requires Walked(m, st, st1, c) && WellFormed(m) && Vectors.Valid(m.keys, st)
    ensures Vectors.Valid(m.keys, st1) && Vectors.View(m.keys, st1) == Vectors.View(m.keys, st)
  {
    Vectors.ViewFrame(m.keys, st, st1);
  }

  /** One step of the walk over key `c`, whose value is `key`. */
  lemma WalkStep(m: UnorderedMap, st: Store, st1: Store, c: nat, key: Json)
    requires Walked(m, st, st1, c) && c < m.keys.length
    requires WellFormed(m) && Vectors.Valid(m.keys, st) ==> key == Vectors.View(m.keys, st)[c]
    ensures key.Str? ==> Walked(m, st, Storage.Remove(st1, LookupKey(m, key.s)).store, c + 1)
    ensures !key.Str? ==> Walked(m, st, st1, c + 1)
  {
    if key.Str? {
      if WellFormed(m) {
        LookupRemovalKeepsSlots(m, st1, key.s);
      }
      if WellFormed(m) && KeysAreStrings(m, st) {
        ClearStep(m, st, st1, KeyList(m, st), c);
      }
    }
  }

  /** The walk of `clear` over the keys vector, deleting each key's lookup entry. */
  method DropLookups(m: UnorderedMap, st: Store) returns (r: Result<Store>)
    ensures r.Ok? ==> Walked(m, st, r.value, m.keys.length)
    ensures r.Err? ==> r.error == Malformed
    ensures WellFormed(m) && Vectors.Valid(m.keys, st) ==> r.Ok?
  {
    var it := Vectors.Iterate(m.keys);
    var st1 := st;
    while true
      invariant it.vector == m.keys && it.current <= m.keys.length
      invariant Walked(m, st, st1, it.current)
      decreases m.keys.length - it.current
    {
      if WellFormed(m) && Vectors.Valid(m.keys, st) {
        WalkedKeys(m, st, st1, it.current);
      }
      var n := Vectors.Next(it, st1);
      if n.Err? {
        return Err(n.error);
      }
      if n.value.1.done {
        break;
      }
      var key := n.value.1.value;
      WalkStep(m, st, st1, it.current, key);
      if key.Str? {
        st1 := Storage.Remove(st1, LookupKey(m, key.s)).store;
      }
      it := n.value.0;
    }
    r := Ok(st1);
  }

  /** `clear`: walks the keys vector deleting each key's lookup entry, then clears
      both vectors. */
  method Clear(m: UnorderedMap, st: Store) returns (r: Result<MapUpdated>)
    ensures r.Ok? ==> r.value.um == UnorderedMap(m.prefix, Vectors.Vector(m.keys.prefix, 0), Vectors.Vector(m.values.prefix, 0))
    ensures r.Err? ==> r.error == Malformed
    ensures WellFormed(m) && Vectors.Valid(m.keys, st) ==> r.Ok?
    ensures Inv(m, st) ==>
      && r.Ok?
      && Inv(r.value.um, r.value.store)
      && Entries(r.value.um, r.value.store) == map[]
      && (forall x :: LookupKey(m, x) !in r.value.store)
      && SameExcept(st, r.value.store, LookupKeys(m, KeyList(m, st))
                                        + Vectors.SlotKeys(m.keys.prefix, 0, m.keys.length)
                                        + Vectors.SlotKeys(m.values.prefix, 0, m.values.length))
  {
    var dropped := DropLookups(m, st);
    if dropped.Err? {
      return Err(dropped.error);
    }
    var st1 := dropped.value;
    var keys := Vectors.Clear(m.keys, st1);
    var values := Vectors.Clear(m.values, keys.store);
    r := Ok(MapUpdated(UnorderedMap(m.prefix, keys.vec, values.vec), values.store));
    if Inv(m, st) {
      ClearedState(m, st, st1);
    }
  }

  /** The store `clear` leaves behind holds the empty map, with no lookup entry
      left, and differs from the original only in the map's own entries. */
  lemma ClearedState(m: UnorderedMap, st: Store, st1: Store)
    requires Inv(m, st) && Walked(m, st, st1, m.keys.length)
    ensures var st3 := Vectors.Clear(m.values, Vectors.Clear(m.keys, st1).store).store;
      var m' := UnorderedMap(m.prefix, Vectors.Vector(m.keys.prefix, 0), Vectors.Vector(m.values.prefix, 0));
      && Inv(m', st3)
      && Entries(m', st3) == map[]
      && (forall x :: LookupKey(m, x) !in st3)
      && SameExcept(st, st3, LookupKeys(m, KeyList(m, st))
                             + Vectors.SlotKeys(m.keys.prefix, 0, m.keys.length)
                             + Vectors.SlotKeys(m.values.prefix, 0, m.values.length))
  {
    var ks := KeyList(m, st);
    assert ks[..m.keys.length] == ks;
    var st2 := Vectors.Clear(m.keys, st1).store;
    var st3 := Vectors.Clear(m.values, st2).store;
    var m' := UnorderedMap(m.prefix, Vectors.Vector(m.keys.prefix, 0), Vectors.Vector(m.values.prefix, 0));
    assert forall x :: LookupKey(m', x) == LookupKey(m, x);
    forall x
      ensures LookupKey(m, x) !in st3
    {
      forall j
        ensures LookupKey(m, x) != Vectors.IndexToKey(m.keys.prefix, j)
        ensures LookupKey(m, x) != Vectors.IndexToKey(m.values.prefix, j)
      {
        KeySpaces(m, x, j, j);
      }
      assert Read(st3, LookupKey(m, x)) == Read(st1, LookupKey(m, x));
      if x in ks {
        var j := IndexOf(ks, x);
      } else {
        forall y | y in ks
          ensures LookupKey(m, y) != LookupKey(m, x)
        {
          LookupKeyInjective(m, x, y);
        }
        assert LookupKey(m, x) !in LookupKeys(m, ks);
        assert Read(st1, LookupKey(m, x)) == Read(st, LookupKey(m, x));
      }
    }
    assert KeyList(m', st3) == [];
    SameExceptTrans(st1, st2, st3, Vectors.SlotKeys(m.keys.prefix, 0, m.keys.length),
                                   Vectors.SlotKeys(m.values.prefix, 0, m.values.length));
    SameExceptTrans(st, st1, st3, LookupKeys(m, ks),
                    Vectors.SlotKeys(m.keys.prefix, 0, m.keys.length) + Vectors.SlotKeys(m.values.prefix, 0, m.values.length));
  }

  /** The map after assigning the pairs in order: later pairs win. */
  ghost function Assigned(e: map<string, Json>, kvs: seq<(string, Json)>): map<string, Json>
    decreases |kvs|
  {
    if |kvs| == 0 then e
    else Assigned(e, kvs[..|kvs| - 1])[kvs[|kvs| - 1].0 := kvs[|kvs| - 1].1]
  }

  /** Whether `k` is assigned at a position after `j`. */
  ghost predicate AssignedLater(kvs: seq<(string, Json)>, k: string, j: nat) {
    exists j' | j < j' < |kvs| :: kvs[j'].0 == k
  }

  /** A key is present after the assignments when it was present before or some
      pair assigns it. */
  lemma {:induction false} AssignedKeys(e: map<string, Json>, kvs: seq<(string, Json)>, k: string)
    ensures k in Assigned(e, kvs) <==> k in e || exists j | 0 <= j < |kvs| :: kvs[j].0 == k
    decreases |kvs|
  {
    if |kvs| > 0 {
      var n := |kvs| - 1;
      AssignedKeys(e, kvs[..n], k);
      if exists j | 0 <= j < |kvs| :: kvs[j].0 == k {
        var j :| 0 <= j < |kvs| && kvs[j].0 == k;
        if j < n {
          assert kvs[..n][j] == kvs[j];
        }
      }
    }
  }

  /** The last pair for a key decides its value. */
  lemma {:induction false} AssignedLastWins(e: map<string, Json>, kvs: seq<(string, Json)>, j: nat)
    requires j < |kvs| && !AssignedLater(kvs, kvs[j].0, j)
    ensures kvs[j].0 in Assigned(e, kvs) && Assigned(e, kvs)[kvs[j].0] == kvs[j].1
    decreases |kvs|
  {
    var n := |kvs| - 1;
    if j < n {
      var init := kvs[..n];
      assert init[j] == kvs[j];
      assert kvs[n].0 != kvs[j].0;
      forall j' | j < j' < |init|
        ensures init[j'].0 != kvs[j].0
      {
        assert init[j'] == kvs[j'];
      }
      AssignedLastWins(e, init, j);
    }
  }

  /** A key no pair assigns keeps its value. */
  lemma {:induction false} AssignedUntouched(e: map<string, Json>, kvs: seq<(string, Json)>, k: string)
    requires k in e && forall j | 0 <= j < |kvs| :: kvs[j].0 != k
    ensures k in Assigned(e, kvs) && Assigned(e, kvs)[k] == e[k]
    decreases |kvs|
  {
    if |kvs| > 0 {
      var n := |kvs| - 1;
      forall j | 0 <= j < n
        ensures kvs[..n][j].0 != k
      {
        assert kvs[..n][j] == kvs[j];
      }
      AssignedUntouched(e, kvs[..n], k);
    }
  }

  /** One pair of `extend`: `set` assigns it and keeps the invariant. */
  lemma ExtendStep(e: map<string, Json>, kvs: seq<(string, Json)>, i: nat, cur: UnorderedMap, s: Store)
    returns (x: MapTaken)
    requires i < |kvs| && Inv(cur, s) && cur.keys.length < U32_LIMIT
    requires Entries(cur, s) == Assigned(e, kvs[..i])
    ensures Set(cur, s, kvs[i].0, kvs[i].1) == Ok(x)
    ensures x.um.prefix == cur.prefix && x.um.keys.length <= cur.keys.length + 1
    ensures Inv(x.um, x.store) && Entries(x.um, x.store) == Assigned(e, kvs[..i + 1])
    ensures SameOutside(s, x.store, cur.prefix)
  {
    x := SetAssigns(cur, s, kvs[i].0, kvs[i].1);
    AssignedStep(e, kvs, i);
  }

  /** Assigning one more pair updates the map assigned so far. */
  lemma AssignedStep(e: map<string, Json>, kvs: seq<(string, Json)>, i: nat)
    requires i < |kvs|
    ensures Assigned(e, kvs[..i + 1]) == Assigned(e, kvs[..i])[kvs[i].0 := kvs[i].1]
  {
    assert kvs[..i + 1][..i] == kvs[..i];
  }

  /** `extend`: `set` of each pair in order. Only keys under the map's prefix
      change. */
  method Extend(m: UnorderedMap, st: Store, kvs: seq<(string, Json)>) returns (r: Result<MapUpdated>)
    ensures Inv(m, st) && m.keys.length + |kvs| <= U32_LIMIT ==>
      && r.Ok?
      && r.value.um.prefix == m.prefix
      && Inv(r.value.um, r.value.store)
      && Entries(r.value.um, r.value.store) == Assigned(Entries(m, st), kvs)
      && SameOutside(st, r.value.store, m.prefix)
  {
    var cur := m;
    var s := st;
    ghost var room := Inv(m, st) && m.keys.length + |kvs| <= U32_LIMIT;
    ghost var e := if room then Entries(m, st) else map[];
    for i := 0 to |kvs|
      invariant room ==>
        && cur.prefix == m.prefix
        && cur.keys.length <= m.keys.length + i
        && Inv(cur, s)
        && Entries(cur, s) == Assigned(e, kvs[..i])
        && SameOutside(st, s, m.prefix)
    {
      var (k, v) := kvs[i];
      if room {
        var x := ExtendStep(e, kvs, i, cur, s);
      }
      var x := Set(cur, s, k, v);
      if x.Err? {
        return Err(x.error);
      }
      cur := x.value.um;
      s := x.value.store;
    }
    assert kvs[..|kvs|] == kvs;
    r := Ok(MapUpdated(cur, s));
  }
}
