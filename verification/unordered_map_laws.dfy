/** What `get`, `set` and `remove` do to a consistent `UnorderedMap`, stated on the
    map it stands for, with the representation invariant preserved. */
module UnorderedMapLaws {
  import opened Encoding
  import opened Outcomes
  import opened JsonValues
  import opened Storage
  import opened Sequences
  import Vectors
  import opened UnorderedMaps

  /** `get` returns a live key's value, null for any other key, and reports
      inconsistent state for a live key whose value is falsy. */
  lemma GetFinds(m: UnorderedMap, st: Store, k: string)
    requires Inv(m, st)
    ensures k !in Entries(m, st) ==> Get(m, st, k) == Ok(Null)
    ensures k in Entries(m, st) && Truthy(Entries(m, st)[k]) ==> Get(m, st, k) == Ok(Entries(m, st)[k])
    ensures k in Entries(m, st) && !Truthy(Entries(m, st)[k]) ==> Get(m, st, k) == Err(InconsistentState)
  {
    LiveKeys(m, st, k);
    if k in Entries(m, st) {
      var i := Position(m, st, k);
      IndexRoundTrip(i);
    } else {
      assert LookupKey(m, k) !in st;
    }
  }

  /** A store that agrees on every lookup key keeps the lookup table's properties. */
  lemma LookupsFrame(m: UnorderedMap, st: Store, st': Store, ks: seq<string>)
    requires forall x :: Read(st', LookupKey(m, x)) == Read(st, LookupKey(m, x))
    ensures LookupsPointHome(m, st, ks) ==> LookupsPointHome(m, st', ks)
    ensures NoStrayLookups(m, st, ks) ==> NoStrayLookups(m, st', ks)
  {
    if NoStrayLookups(m, st, ks) {
      forall x | LookupKey(m, x) in st'
        ensures x in ks
      {
        assert Read(st', LookupKey(m, x)) == Read(st, LookupKey(m, x));
      }
    }
  }

  /** A change confined to keys outside the map's prefix leaves it consistent and
      standing for the same map: its lookup entries and both vectors live under it. */
  lemma OutsideFrame(m: UnorderedMap, st: Store, st': Store, touched: set<string>)
    requires Inv(m, st) && SameExcept(st, st', touched) && Outside(touched, m.prefix)
    ensures Inv(m, st') && Entries(m, st') == Entries(m, st)
  {
    forall x
      ensures Read(st', LookupKey(m, x)) == Read(st, LookupKey(m, x))
    {
      assert LookupKey(m, x)[..|m.prefix|] == m.prefix;
    }
    assert m.prefix <= m.keys.prefix && m.prefix <= m.values.prefix;
    Vectors.ViewOutside(m.keys, st, st', touched);
    Vectors.ViewOutside(m.values, st, st', touched);
    LookupsFrame(m, st, st', KeyList(m, st));
    assert KeyList(m, st') == KeyList(m, st);
  }

  /** The unfolding of `set` for a key whose lookup entry holds `i`. */
  lemma SetExistingStep(m: UnorderedMap, st: Store, k: string, v: Json, i: nat)
    requires Vectors.Valid(m.values, st) && i < m.values.length
    requires Read(st, LookupKey(m, k)) == Some(Raw(SerializeIndex(i)))
    ensures Vectors.Replace(m.values, st, i, v).Ok?
    ensures Set(m, st, k, v) == Ok(MapTaken(m, Vectors.Replace(m.values, st, i, v).value.store, Vectors.View(m.values, st)[i]))
  {
    IndexRoundTrip(i);
    Vectors.ReplaceUpdates(m.values, st, i, v);
  }

  /** Writing value slot `i` of a consistent map updates the entry of the key at `i`. */
  lemma ValueSlotUpdated(m: UnorderedMap, st: Store, st': Store, i: nat, v: Json)
    requires Inv(m, st) && i < m.values.length
    requires SameExcept(st, st', {Vectors.IndexToKey(m.values.prefix, i)})
    requires Vectors.Valid(m.values, st') && Vectors.View(m.values, st') == Vectors.View(m.values, st)[i := v]
    ensures Inv(m, st')
    ensures Entries(m, st') == Entries(m, st)[KeyList(m, st)[i] := v]
  {
    var slot := Vectors.IndexToKey(m.values.prefix, i);
    forall j | 0 <= j < m.keys.length
      ensures Vectors.IndexToKey(m.keys.prefix, j) != slot
    {
      KeySpaces(m, "", j, i);
    }
    Vectors.ViewUntouched(m.keys, st, st', {slot});
    assert KeyList(m, st') == KeyList(m, st);
    forall x
      ensures Read(st', LookupKey(m, x)) == Read(st, LookupKey(m, x))
    {
      KeySpaces(m, x, i, 0);
    }
    LookupsFrame(m, st, st', KeyList(m, st));
    AsMapUpdate(KeyList(m, st), Vectors.View(m.values, st), i, v);
  }

  /** `set` of a live key replaces its value in place: the old value comes back,
      the length stays, and only the key's value slot is written. */
  lemma SetExisting(m: UnorderedMap, st: Store, k: string, v: Json)
    requires Inv(m, st) && k in Entries(m, st)
    ensures var r := Set(m, st, k, v);
      && r.Ok?
      && r.value.um == m
      && r.value.value == Entries(m, st)[k]
      && Inv(m, r.value.store)
      && Entries(m, r.value.store) == Entries(m, st)[k := v]
      && SameExcept(st, r.value.store, {Vectors.IndexToKey(m.values.prefix, Position(m, st, k))})
  {
    var i := Position(m, st, k);
    SetExistingStep(m, st, k, v, i);
    Vectors.ReplaceUpdates(m.values, st, i, v);
    ValueSlotUpdated(m, st, Vectors.Replace(m.values, st, i, v).value.store, i, v);
  }

  /** The unfolding of `set` for a key without a lookup entry. */
  lemma SetNewStep(m: UnorderedMap, st: Store, k: string, v: Json)
    requires Inv(m, st) && k !in Entries(m, st)
    ensures var n := m.keys.length;
      Set(m, st, k, v) == Ok(MapTaken(
        UnorderedMap(m.prefix, Vectors.Vector(m.keys.prefix, n + 1), Vectors.Vector(m.values.prefix, n + 1)),
        st[LookupKey(m, k) := Raw(SerializeIndex(n))]
          [Vectors.IndexToKey(m.keys.prefix, n) := Text(Str(k))]
          [Vectors.IndexToKey(m.values.prefix, n) := Text(v)],
        Null))
  {
    LiveKeys(m, st, k);
    assert LookupKey(m, k) !in st;
  }

  /** The keys vector of a consistent map after a key, value and lookup are appended. */
  lemma AppendedKeys(m: UnorderedMap, st: Store, k: string, v: Json, st': Store)
    requires WellFormed(m) && KeysAreStrings(m, st) && m.keys.length < U32_LIMIT
    requires var n := m.keys.length;
      st' == st[LookupKey(m, k) := Raw(SerializeIndex(n))]
               [Vectors.IndexToKey(m.keys.prefix, n) := Text(Str(k))]
               [Vectors.IndexToKey(m.values.prefix, n) := Text(v)]
    ensures var m' := m.(keys := Vectors.Vector(m.keys.prefix, m.keys.length + 1));
      && KeysAreStrings(m', st')
      && KeyList(m', st') == KeyList(m, st) + [k]
  {
    var n := m.keys.length;
    var m' := m.(keys := Vectors.Vector(m.keys.prefix, n + 1));
    AppendedKeySlots(m, st, k, v, st');
    Vectors.ViewExtended(m.keys, st, st', Str(k));
    var before := Vectors.View(m.keys, st);
    var after := Vectors.View(m'.keys, st');
    assert after == before + [Str(k)];
    forall i | 0 <= i < n + 1
      ensures after[i].Str?
    {
      if i < n {
        assert after[i] == before[i];
      }
    }
    assert KeysAreStrings(m', st');
    forall i | 0 <= i < n + 1
      ensures KeyList(m', st')[i] == (KeyList(m, st) + [k])[i]
    {
      if i < n {
        assert after[i] == before[i];
      }
    }
  }

  /** Appending a key, value and lookup keeps the keys vector's existing slots and
      puts the key in the next one. */
  lemma AppendedKeySlots(m: UnorderedMap, st: Store, k: string, v: Json, st': Store)
    requires WellFormed(m) && m.keys.length < U32_LIMIT
    requires var n := m.keys.length;
      st' == st[LookupKey(m, k) := Raw(SerializeIndex(n))]
               [Vectors.IndexToKey(m.keys.prefix, n) := Text(Str(k))]
               [Vectors.IndexToKey(m.values.prefix, n) := Text(v)]
    ensures forall j | 0 <= j < m.keys.length ::
      Read(st', Vectors.IndexToKey(m.keys.prefix, j)) == Read(st, Vectors.IndexToKey(m.keys.prefix, j))
    ensures Read(st', Vectors.IndexToKey(m.keys.prefix, m.keys.length)) == Some(Text(Str(k)))
  {
    var n := m.keys.length;
    KeySpaces(m, k, n, n);
    forall j | 0 <= j < n
      ensures Read(st', Vectors.IndexToKey(m.keys.prefix, j)) == Read(st, Vectors.IndexToKey(m.keys.prefix, j))
    {
      KeySpaces(m, k, j, n);
      Vectors.IndexToKeyInjective(m.keys.prefix, m.keys.prefix, j, n);
    }
  }

  /** The values vector of a consistent map after a key, value and lookup are appended. */
  lemma AppendedValues(m: UnorderedMap, st: Store, k: string, v: Json, st': Store)
    requires WellFormed(m) && Vectors.Valid(m.values, st) && m.keys.length == m.values.length < U32_LIMIT
    requires var n := m.keys.length;
      st' == st[LookupKey(m, k) := Raw(SerializeIndex(n))]
               [Vectors.IndexToKey(m.keys.prefix, n) := Text(Str(k))]
               [Vectors.IndexToKey(m.values.prefix, n) := Text(v)]
    ensures Vectors.Valid(Vectors.Vector(m.values.prefix, m.values.length + 1), st')
    ensures Vectors.View(Vectors.Vector(m.values.prefix, m.values.length + 1), st') == Vectors.View(m.values, st) + [v]
  {
    var n := m.keys.length;
    forall j | 0 <= j < n
      ensures Read(st', Vectors.IndexToKey(m.values.prefix, j)) == Read(st, Vectors.IndexToKey(m.values.prefix, j))
    {
      KeySpaces(m, k, j, j);
      KeySpaces(m, k, n, j);
      Vectors.IndexToKeyInjective(m.values.prefix, m.values.prefix, j, n);
    }
    Vectors.ViewExtended(m.values, st, st', v);
  }

  /** The lookup table of a consistent map after a fresh key's lookup is appended. */
  lemma AppendedLookups(m: UnorderedMap, st: Store, k: string, v: Json, st': Store)
    requires Inv(m, st) && k !in KeyList(m, st) && m.keys.length < U32_LIMIT
    requires var n := m.keys.length;
      st' == st[LookupKey(m, k) := Raw(SerializeIndex(n))]
               [Vectors.IndexToKey(m.keys.prefix, n) := Text(Str(k))]
               [Vectors.IndexToKey(m.values.prefix, n) := Text(v)]
    ensures LookupsPointHome(m, st', KeyList(m, st) + [k])
    ensures NoStrayLookups(m, st', KeyList(m, st) + [k])
  {
    var n := m.keys.length;
    var ks := KeyList(m, st);
    forall x
      ensures LookupKey(m, x) != Vectors.IndexToKey(m.keys.prefix, n)
      ensures LookupKey(m, x) != Vectors.IndexToKey(m.values.prefix, n)
    {
      KeySpaces(m, x, n, n);
    }
    forall i | 0 <= i < n + 1
      ensures Read(st', LookupKey(m, (ks + [k])[i])) == Some(Raw(SerializeIndex(i)))
    {
      if i < n {
        LookupKeyInjective(m, ks[i], k);
      }
    }
    forall x | LookupKey(m, x) in st'
      ensures x in ks + [k]
    {
      if x != k {
        LookupKeyInjective(m, x, k);
        assert x in ks;
      }
    }
  }

  /** A consistent map with a fresh key, value and lookup appended is consistent
      and has exactly that entry more. */
  lemma AppendedInv(m: UnorderedMap, st: Store, k: string, v: Json, st': Store)
    requires Inv(m, st) && k !in Entries(m, st) && m.keys.length < U32_LIMIT
    requires var n := m.keys.length;
      st' == st[LookupKey(m, k) := Raw(SerializeIndex(n))]
               [Vectors.IndexToKey(m.keys.prefix, n) := Text(Str(k))]
               [Vectors.IndexToKey(m.values.prefix, n) := Text(v)]
    ensures var m' := UnorderedMap(m.prefix, Vectors.Vector(m.keys.prefix, m.keys.length + 1),
                                   Vectors.Vector(m.values.prefix, m.values.length + 1));
      Inv(m', st') && Entries(m', st') == Entries(m, st)[k := v]
  {
    var n := m.keys.length;
    var m' := UnorderedMap(m.prefix, Vectors.Vector(m.keys.prefix, n + 1), Vectors.Vector(m.values.prefix, n + 1));
    var ks := KeyList(m, st);
    LiveKeys(m, st, k);
    AppendedKeys(m, st, k, v, st');
    AppendedValues(m, st, k, v, st');
    AppendedLookups(m, st, k, v, st');
    AsMapAppend(ks, Vectors.View(m.values, st), k, v);
    assert KeyList(m', st') == ks + [k];
    assert LookupsPointHome(m', st', KeyList(m', st'));
    assert NoStrayLookups(m', st', KeyList(m', st'));
  }

  /** `set` of a key that is not live gives it the next index: the map gains
      exactly that entry, null comes back, and only its lookup entry and the two
      new slots are written. */
  lemma SetNew(m: UnorderedMap, st: Store, k: string, v: Json)
    requires Inv(m, st) && k !in Entries(m, st) && m.keys.length < U32_LIMIT
    ensures var r := Set(m, st, k, v);
      && r.Ok?
      && r.value.value == Null
      && r.value.um == UnorderedMap(m.prefix, Vectors.Vector(m.keys.prefix, m.keys.length + 1),
                                     Vectors.Vector(m.values.prefix, m.values.length + 1))
      && Inv(r.value.um, r.value.store)
      && Entries(r.value.um, r.value.store) == Entries(m, st)[k := v]
      && SameExcept(st, r.value.store, {LookupKey(m, k),
                                        Vectors.IndexToKey(m.keys.prefix, m.keys.length),
                                        Vectors.IndexToKey(m.values.prefix, m.keys.length)})
  {
    var n := m.keys.length;
    var st' := st[LookupKey(m, k) := Raw(SerializeIndex(n))]
                 [Vectors.IndexToKey(m.keys.prefix, n) := Text(Str(k))]
                 [Vectors.IndexToKey(m.values.prefix, n) := Text(v)];
    SetNewStep(m, st, k, v);
    AppendedInv(m, st, k, v, st');
  }

  /** After `set(k, v)` on a consistent map (with room for a new key), `get(k)`
      returns `v`, unless `v` is falsy, which `get` reports as inconsistent state. */
  lemma SetThenGet(m: UnorderedMap, st: Store, k: string, v: Json)
    requires Inv(m, st) && (k in Entries(m, st) || m.keys.length < U32_LIMIT)
    ensures var r := Set(m, st, k, v);
      && r.Ok?
      && Get(r.value.um, r.value.store, k) == (if Truthy(v) then Ok(v) else Err(InconsistentState))
  {
    var r := Set(m, st, k, v);
    if k in Entries(m, st) {
      SetExisting(m, st, k, v);
    } else {
      SetNew(m, st, k, v);
    }
    GetFinds(r.value.um, r.value.store, k);
  }

  /** `remove` of a key without a lookup entry returns null and changes nothing. */
  lemma RemoveAbsent(m: UnorderedMap, st: Store, k: string)
    requires Inv(m, st) && k !in Entries(m, st)
    ensures UnorderedMaps.Remove(m, st, k) == Ok(MapTaken(m, st, Null))
  {
    LiveKeys(m, st, k);
    assert LookupKey(m, k) !in st;
  }

  /** With more than one entry, `remove` of a live key fails when the last key is
      the empty string, because it tests the last key for truthiness. */
  lemma RemoveEmptyLastKey(m: UnorderedMap, st: Store, k: string)
    requires Inv(m, st) && k in Entries(m, st)
    requires m.keys.length > 1 && KeyList(m, st)[m.keys.length - 1] == ""
    ensures UnorderedMaps.Remove(m, st, k) == Err(InconsistentState)
  {
    var i := Position(m, st, k);
    assert Read(st, LookupKey(m, k)) == Some(Raw(SerializeIndex(i)));
    RemoveTripsOnLastKey(m, st, k, i);
  }

  lemma RemoveTripsOnLastKey(m: UnorderedMap, st: Store, k: string, i: nat)
    requires KeysAreStrings(m, st) && m.keys.length == m.values.length
    requires 1 < m.keys.length && KeyList(m, st)[m.keys.length - 1] == ""
    requires i < m.keys.length && Read(st, LookupKey(m, k)) == Some(Raw(SerializeIndex(i)))
    ensures UnorderedMaps.Remove(m, st, k) == Err(InconsistentState)
  {
    var n := m.keys.length;
    assert Vectors.View(m.keys, st)[n - 1] == Str("");
    assert Vectors.Get(m.keys, st, n - 1) == Ok(Str(""));
    assert Unlink(m, st, k, Raw(SerializeIndex(i)), n) == Err(InconsistentState);
    assert Len(m) == Ok(n);
  }

  /** The store after the lookup-table half of `remove` for the live key `k` at
      position `i`, with `last` the last key: `k`'s lookup is gone and, unless `k`
      is the last key, the last key's lookup holds `i`. */
  ghost function Relinked(m: UnorderedMap, st: Store, k: string, i: nat, last: string): Store {
    var st2 := st - {LookupKey(m, k)};
    if last != k then st2[LookupKey(m, last) := Raw(SerializeIndex(i))] else st2
  }

  /** The keys whose entries `remove` may change when it takes out `k` from
      position `i` of `n`, with `last` the last key: the two lookup entries, and
      slots `i` and `n - 1` of both vectors. */
  function RemoveTouches(m: UnorderedMap, k: string, last: string, i: nat, n: nat): set<string> {
    {LookupKey(m, k), LookupKey(m, last)}
      + {Vectors.IndexToKey(m.keys.prefix, i), Vectors.IndexToKey(m.keys.prefix, n - 1)}
      + {Vectors.IndexToKey(m.values.prefix, i), Vectors.IndexToKey(m.values.prefix, n - 1)}
  }

  /** The lookup-table half of `remove` for the key at position `i`, when it does
      not trip over a falsy last key. */
  lemma UnlinkStep(m: UnorderedMap, st: Store, k: string, i: nat)
    requires KeysAreStrings(m, st) && i < m.keys.length && KeyList(m, st)[i] == k
    requires m.keys.length == 1 || KeyList(m, st)[m.keys.length - 1] != ""
    ensures Unlink(m, st, k, Raw(SerializeIndex(i)), m.keys.length)
              == Ok(Relinked(m, st, k, i, KeyList(m, st)[m.keys.length - 1]))
  {
    var n := m.keys.length;
    if n > 1 {
      var last := KeyList(m, st)[n - 1];
      assert Vectors.View(m.keys, st)[n - 1] == Str(last);
      assert Vectors.Get(m.keys, st, n - 1) == Ok(Str(last));
      assert Truthy(Str(last));
    }
  }

  /** Reading a lookup entry after the lookup-table half of `remove`. */
  lemma RelinkedRead(m: UnorderedMap, st: Store, k: string, i: nat, last: string, x: string)
    ensures Read(Relinked(m, st, k, i, last), LookupKey(m, x)) ==
      if x == k then None
      else if x == last then Some(Raw(SerializeIndex(i)))
      else Read(st, LookupKey(m, x))
  {
    LookupKeyInjective(m, x, k);
    LookupKeyInjective(m, x, last);
  }

  /** After the lookup-table half of `remove`, every lookup entry already points at
      its key's position after the swap-remove. */
  lemma RelinkedPointHome(m: UnorderedMap, st: Store, ks: seq<string>, i: nat)
    requires i < |ks| && Distinct(ks) && LookupsPointHome(m, st, ks)
    ensures LookupsPointHome(m, Relinked(m, st, ks[i], i, ks[|ks| - 1]), SwapRemoved(ks, i))
  {
    var n := |ks|;
    var st1 := Relinked(m, st, ks[i], i, ks[n - 1]);
    var ks' := SwapRemoved(ks, i);
    forall j | 0 <= j < n - 1
      ensures Read(st1, LookupKey(m, ks'[j])) == Some(Raw(SerializeIndex(j)))
    {
      RelinkedRead(m, st, ks[i], i, ks[n - 1], ks'[j]);
      if j != i {
        assert ks'[j] == ks[j] && ks[j] != ks[i] && ks[j] != ks[n - 1];
      }
    }
  }

  /** After the lookup-table half of `remove`, only the remaining keys have a
      lookup entry. */
  lemma RelinkedNoStray(m: UnorderedMap, st: Store, ks: seq<string>, i: nat)
    requires i < |ks| && NoStrayLookups(m, st, ks)
    ensures NoStrayLookups(m, Relinked(m, st, ks[i], i, ks[|ks| - 1]), SwapRemoved(ks, i))
  {
    var n := |ks|;
    var st1 := Relinked(m, st, ks[i], i, ks[n - 1]);
    forall x | LookupKey(m, x) in st1
      ensures x in SwapRemoved(ks, i)
    {
      RelinkedRead(m, st, ks[i], i, ks[n - 1], x);
      if x == ks[n - 1] {
        SwapRemovedKeeps(ks, i, n - 1);
      } else {
        assert Read(st, LookupKey(m, x)).Some?;
        var j := IndexOf(ks, x);
        SwapRemovedKeeps(ks, i, j);
      }
    }
  }

  /** Writing two slots of the keys or values vector keeps every lookup entry. */
  lemma SlotsMissLookups(m: UnorderedMap, st: Store, st': Store, prefix: string, i: int, j: int)
    requires WellFormed(m) && (prefix == m.keys.prefix || prefix == m.values.prefix)
    requires SameExcept(st, st', {Vectors.IndexToKey(prefix, i), Vectors.IndexToKey(prefix, j)})
    ensures forall x :: Read(st', LookupKey(m, x)) == Read(st, LookupKey(m, x))
  {
    forall x
      ensures Read(st', LookupKey(m, x)) == Read(st, LookupKey(m, x))
    {
      KeySpaces(m, x, i, 0);
      KeySpaces(m, x, j, 0);
    }
  }

  /** Key slots and value slots are disjoint. */
  lemma SlotsApart(m: UnorderedMap, i: int, j: int)
    requires WellFormed(m)
    ensures forall t :: Vectors.IndexToKey(m.values.prefix, t) !in {Vectors.IndexToKey(m.keys.prefix, i), Vectors.IndexToKey(m.keys.prefix, j)}
    ensures forall t :: Vectors.IndexToKey(m.keys.prefix, t) !in {Vectors.IndexToKey(m.values.prefix, i), Vectors.IndexToKey(m.values.prefix, j)}
  {
    forall t
      ensures Vectors.IndexToKey(m.values.prefix, t) !in {Vectors.IndexToKey(m.keys.prefix, i), Vectors.IndexToKey(m.keys.prefix, j)}
      ensures Vectors.IndexToKey(m.keys.prefix, t) !in {Vectors.IndexToKey(m.values.prefix, i), Vectors.IndexToKey(m.values.prefix, j)}
    {
      KeySpaces(m, "", i, t);
      KeySpaces(m, "", j, t);
      KeySpaces(m, "", t, i);
      KeySpaces(m, "", t, j);
    }
  }

  /** Swap-removing position `i` of the keys vector keeps the values vector and
      every lookup entry. */
  lemma SwappedKeys(m: UnorderedMap, st: Store, i: nat) returns (kr: Vectors.Taken)
    requires WellFormed(m) && Vectors.Valid(m.keys, st) && Vectors.Valid(m.values, st)
    requires i < m.keys.length
    ensures Vectors.SwapRemove(m.keys, st, i) == Ok(kr)
    ensures kr.vec == Vectors.Vector(m.keys.prefix, m.keys.length - 1)
    ensures Vectors.Valid(kr.vec, kr.store)
    ensures Vectors.View(kr.vec, kr.store) == SwapRemoved(Vectors.View(m.keys, st), i)
    ensures Vectors.Valid(m.values, kr.store)
    ensures Vectors.View(m.values, kr.store) == Vectors.View(m.values, st)
    ensures forall x :: Read(kr.store, LookupKey(m, x)) == Read(st, LookupKey(m, x))
    ensures SameExcept(st, kr.store, {Vectors.IndexToKey(m.keys.prefix, i), Vectors.IndexToKey(m.keys.prefix, m.keys.length - 1)})
  {
    Vectors.SwapRemoveMovesLast(m.keys, st, i);
    kr := Vectors.SwapRemove(m.keys, st, i).value;
    SlotsApart(m, i, m.keys.length - 1);
    Vectors.ViewUntouched(m.values, st, kr.store, {Vectors.IndexToKey(m.keys.prefix, i), Vectors.IndexToKey(m.keys.prefix, m.keys.length - 1)});
    SlotsMissLookups(m, st, kr.store, m.keys.prefix, i, m.keys.length - 1);
  }

  /** Swap-removing position `i` of the values vector keeps a keys vector of the
      same prefix and every lookup entry. */
  lemma SwappedValues(m: UnorderedMap, st: Store, keys: Vectors.Vector, i: nat) returns (vr: Vectors.Taken)
    requires WellFormed(m) && keys.prefix == m.keys.prefix
    requires Vectors.Valid(keys, st) && Vectors.Valid(m.values, st)
    requires i < m.values.length
    ensures Vectors.SwapRemove(m.values, st, i) == Ok(vr)
    ensures vr.value == Vectors.View(m.values, st)[i]
    ensures vr.vec == Vectors.Vector(m.values.prefix, m.values.length - 1)
    ensures Vectors.Valid(vr.vec, vr.store)
    ensures Vectors.View(vr.vec, vr.store) == SwapRemoved(Vectors.View(m.values, st), i)
    ensures Vectors.Valid(keys, vr.store)
    ensures Vectors.View(keys, vr.store) == Vectors.View(keys, st)
    ensures forall x :: Read(vr.store, LookupKey(m, x)) == Read(st, LookupKey(m, x))
    ensures SameExcept(st, vr.store, {Vectors.IndexToKey(m.values.prefix, i), Vectors.IndexToKey(m.values.prefix, m.values.length - 1)})
  {
    Vectors.SwapRemoveMovesLast(m.values, st, i);
    vr := Vectors.SwapRemove(m.values, st, i).value;
    SlotsApart(m, i, m.values.length - 1);
    Vectors.ViewUntouched(keys, st, vr.store, {Vectors.IndexToKey(m.values.prefix, i), Vectors.IndexToKey(m.values.prefix, m.values.length - 1)});
    SlotsMissLookups(m, st, vr.store, m.values.prefix, i, m.values.length - 1);
  }

  /** A keys vector holding the swap-removed view of a string keys vector holds
      strings, and its key list is the swap-removed key list. */
  lemma SwappedKeyList(m: UnorderedMap, st: Store, m': UnorderedMap, st': Store, i: nat)
    requires KeysAreStrings(m, st) && i < m.keys.length
    requires Vectors.Valid(m'.keys, st')
    requires Vectors.View(m'.keys, st') == SwapRemoved(Vectors.View(m.keys, st), i)
    ensures KeysAreStrings(m', st')
    ensures KeyList(m', st') == SwapRemoved(KeyList(m, st), i)
  {
    var n := m.keys.length;
    var view := Vectors.View(m.keys, st);
    var ks := KeyList(m, st);
    forall j | 0 <= j < n - 1
      ensures Vectors.View(m'.keys, st')[j] == Str(SwapRemoved(ks, i)[j])
    {
      SwapRemovedSource(view, i, j);
      SwapRemovedSource(ks, i, j);
    }
  }

  /** The unfolding of `remove` for a key whose lookup entry holds `i`, once its
      three steps are known to succeed. */
  lemma RemoveUnfold(m: UnorderedMap, st: Store, k: string, i: u32, st1: Store, kr: Vectors.Taken, vr: Vectors.Taken)
    requires Read(st, LookupKey(m, k)) == Some(Raw(SerializeIndex(i)))
    requires m.keys.length == m.values.length
    requires Unlink(m, st, k, Raw(SerializeIndex(i)), m.keys.length) == Ok(st1)
    requires Vectors.SwapRemove(m.keys, st1, i) == Ok(kr)
    requires Vectors.SwapRemove(m.values, kr.store, i) == Ok(vr)
    ensures UnorderedMaps.Remove(m, st, k) == Ok(MapTaken(UnorderedMap(m.prefix, kr.vec, vr.vec), vr.store, vr.value))
  {
    IndexRoundTrip(i);
  }

  /** A store whose vectors hold the swap-removed views and whose lookup entries
      are the relinked ones holds the map without `k`, consistently. */
  lemma RemovedState(m: UnorderedMap, st: Store, k: string, m': UnorderedMap, st': Store)
    requires Inv(m, st) && k in Entries(m, st)
    requires m' == UnorderedMap(m.prefix, Vectors.Vector(m.keys.prefix, m.keys.length - 1),
                                Vectors.Vector(m.values.prefix, m.values.length - 1))
    requires Vectors.Valid(m'.keys, st')
    requires Vectors.View(m'.keys, st') == SwapRemoved(Vectors.View(m.keys, st), Position(m, st, k))
    requires Vectors.Valid(m'.values, st')
    requires Vectors.View(m'.values, st') == SwapRemoved(Vectors.View(m.values, st), Position(m, st, k))
    requires forall x ::
               Read(st', LookupKey(m, x)) == Read(Relinked(m, st, k, Position(m, st, k), KeyList(m, st)[m.keys.length - 1]), LookupKey(m, x))
    ensures Inv(m', st')
    ensures Entries(m', st') == Entries(m, st) - {k}
  {
    var i := Position(m, st, k);
    var ks := KeyList(m, st);
    var st1 := Relinked(m, st, k, i, ks[m.keys.length - 1]);
    SwappedKeyList(m, st, m', st', i);
    RelinkedPointHome(m, st, ks, i);
    RelinkedNoStray(m, st, ks, i);
    LookupsFrame(m, st1, st', SwapRemoved(ks, i));
    AsMapSwapRemove(ks, Vectors.View(m.values, st), i);
  }

  /** The three steps of `remove` for the key at position `i`: relink, then
      swap-remove the keys and the values at `i`. */
  lemma RemoveSteps(m: UnorderedMap, st: Store, k: string, i: nat) returns (st1: Store, kr: Vectors.Taken, vr: Vectors.Taken)
    requires WellFormed(m) && KeysAreStrings(m, st) && Vectors.Valid(m.values, st)
    requires m.keys.length == m.values.length && i < m.keys.length
    requires KeyList(m, st)[i] == k && Read(st, LookupKey(m, k)) == Some(Raw(SerializeIndex(i)))
    requires m.keys.length == 1 || KeyList(m, st)[m.keys.length - 1] != ""
    ensures st1 == Relinked(m, st, k, i, KeyList(m, st)[m.keys.length - 1])
    ensures SameExcept(st, st1, {LookupKey(m, k), LookupKey(m, KeyList(m, st)[m.keys.length - 1])})
    ensures UnorderedMaps.Remove(m, st, k) == Ok(MapTaken(UnorderedMap(m.prefix, kr.vec, vr.vec), vr.store, vr.value))
    ensures kr.vec == Vectors.Vector(m.keys.prefix, m.keys.length - 1)
    ensures vr.vec == Vectors.Vector(m.values.prefix, m.values.length - 1)
    ensures vr.value == Vectors.View(m.values, st)[i]
    ensures Vectors.Valid(kr.vec, vr.store)
    ensures Vectors.View(kr.vec, vr.store) == SwapRemoved(Vectors.View(m.keys, st), i)
    ensures Vectors.Valid(vr.vec, vr.store)
    ensures Vectors.View(vr.vec, vr.store) == SwapRemoved(Vectors.View(m.values, st), i)
    ensures forall x :: Read(vr.store, LookupKey(m, x)) == Read(st1, LookupKey(m, x))
    ensures SameExcept(st1, kr.store, {Vectors.IndexToKey(m.keys.prefix, i), Vectors.IndexToKey(m.keys.prefix, m.keys.length - 1)})
    ensures SameExcept(kr.store, vr.store, {Vectors.IndexToKey(m.values.prefix, i), Vectors.IndexToKey(m.values.prefix, m.keys.length - 1)})
  {
    st1 := RelinkStep(m, st, k, i);
    kr, vr := SwapSteps(m, st1, i);
    RemoveUnfold(m, st, k, i, st1, kr, vr);
  }

  /** The lookup half of `remove` for the key at position `i` leaves both vectors
      as they were. */
  lemma RelinkStep(m: UnorderedMap, st: Store, k: string, i: nat) returns (st1: Store)
    requires WellFormed(m) && KeysAreStrings(m, st) && Vectors.Valid(m.values, st)
    requires i < m.keys.length && KeyList(m, st)[i] == k
    requires m.keys.length == 1 || KeyList(m, st)[m.keys.length - 1] != ""
    ensures st1 == Relinked(m, st, k, i, KeyList(m, st)[m.keys.length - 1])
    ensures Unlink(m, st, k, Raw(SerializeIndex(i)), m.keys.length) == Ok(st1)
    ensures SameExcept(st, st1, {LookupKey(m, k), LookupKey(m, KeyList(m, st)[m.keys.length - 1])})
    ensures Vectors.Valid(m.keys, st1) && Vectors.View(m.keys, st1) == Vectors.View(m.keys, st)
    ensures Vectors.Valid(m.values, st1) && Vectors.View(m.values, st1) == Vectors.View(m.values, st)
  {
    var n := m.keys.length;
    var last := KeyList(m, st)[n - 1];
    st1 := Relinked(m, st, k, i, last);
    var lookups := {LookupKey(m, k), LookupKey(m, last)};
    assert SameExcept(st, st1, lookups);
    VectorsUntouched(m, st, st1, lookups);
    UnlinkStep(m, st, k, i);
  }

  /** The vector half of `remove`: swap-remove position `i` of the keys, then of
      the values; the lookup entries stay as they were. */
  lemma SwapSteps(m: UnorderedMap, st: Store, i: nat) returns (kr: Vectors.Taken, vr: Vectors.Taken)
    requires WellFormed(m) && Vectors.Valid(m.keys, st) && Vectors.Valid(m.values, st)
    requires m.keys.length == m.values.length && i < m.keys.length
    ensures Vectors.SwapRemove(m.keys, st, i) == Ok(kr)
    ensures Vectors.SwapRemove(m.values, kr.store, i) == Ok(vr)
    ensures kr.vec == Vectors.Vector(m.keys.prefix, m.keys.length - 1)
    ensures vr.vec == Vectors.Vector(m.values.prefix, m.values.length - 1)
    ensures vr.value == Vectors.View(m.values, st)[i]
    ensures Vectors.Valid(kr.vec, vr.store)
    ensures Vectors.View(kr.vec, vr.store) == SwapRemoved(Vectors.View(m.keys, st), i)
    ensures Vectors.Valid(vr.vec, vr.store)
    ensures Vectors.View(vr.vec, vr.store) == SwapRemoved(Vectors.View(m.values, st), i)
    ensures forall x :: Read(vr.store, LookupKey(m, x)) == Read(st, LookupKey(m, x))
    ensures SameExcept(st, kr.store, {Vectors.IndexToKey(m.keys.prefix, i), Vectors.IndexToKey(m.keys.prefix, m.keys.length - 1)})
    ensures SameExcept(kr.store, vr.store, {Vectors.IndexToKey(m.values.prefix, i), Vectors.IndexToKey(m.values.prefix, m.keys.length - 1)})
  {
    kr := SwappedKeys(m, st, i);
    vr := SwappedValues(m, kr.store, kr.vec, i);
  }

  /** The keys `remove` writes, gathered from its three steps. */
  lemma RemoveFrame(m: UnorderedMap, k: string, last: string, i: nat, n: nat, st: Store, st1: Store, st2: Store, st3: Store)
    requires SameExcept(st, st1, {LookupKey(m, k), LookupKey(m, last)})
    requires SameExcept(st1, st2, {Vectors.IndexToKey(m.keys.prefix, i), Vectors.IndexToKey(m.keys.prefix, n - 1)})
    requires SameExcept(st2, st3, {Vectors.IndexToKey(m.values.prefix, i), Vectors.IndexToKey(m.values.prefix, n - 1)})
    ensures SameExcept(st, st3, RemoveTouches(m, k, last, i, n))
  {
  }

  /** `remove` of a live key (unless it trips over a falsy last key) returns its
      value, shortens the map by one, drops exactly that entry, keeps the
      invariant, repoints the moved last key to the freed index, and writes only
      the two lookup entries and the four slots involved. */
  lemma RemoveLive(m: UnorderedMap, st: Store, k: string) returns (r: MapTaken)
    requires Inv(m, st) && k in Entries(m, st)
    requires m.keys.length == 1 || KeyList(m, st)[m.keys.length - 1] != ""
    ensures UnorderedMaps.Remove(m, st, k) == Ok(r)
    ensures r.value == Entries(m, st)[k]
    ensures r.um == UnorderedMap(m.prefix, Vectors.Vector(m.keys.prefix, m.keys.length - 1),
                                 Vectors.Vector(m.values.prefix, m.values.length - 1))
    ensures Inv(r.um, r.store)
    ensures Entries(r.um, r.store) == Entries(m, st) - {k}
    ensures Position(m, st, k) < m.keys.length - 1 ==>
              Read(r.store, LookupKey(m, KeyList(m, st)[m.keys.length - 1])) == Some(Raw(SerializeIndex(Position(m, st, k))))
    ensures SameExcept(st, r.store, RemoveTouches(m, k, KeyList(m, st)[m.keys.length - 1], Position(m, st, k), m.keys.length))
  {
    var i := Position(m, st, k);
    var n := m.keys.length;
    var last := KeyList(m, st)[n - 1];
    var st1, kr, vr := RemoveSteps(m, st, k, i);
    r := MapTaken(UnorderedMap(m.prefix, kr.vec, vr.vec), vr.store, vr.value);
    RemovedState(m, st, k, r.um, r.store);
    if i < n - 1 {
      RelinkedRead(m, st, k, i, last, last);
    }
    RemoveFrame(m, k, last, i, n, st, st1, kr.store, vr.store);
  }

  /** After `remove(k)` (when it does not trip over a falsy last key), `get(k)`
      returns null, and a second `remove(k)` returns null and changes nothing. */
  lemma RemoveThenGet(m: UnorderedMap, st: Store, k: string)
    requires Inv(m, st)
    requires k in Entries(m, st) ==> m.keys.length == 1 || KeyList(m, st)[m.keys.length - 1] != ""
    ensures var r := UnorderedMaps.Remove(m, st, k);
      && r.Ok?
      && Get(r.value.um, r.value.store, k) == Ok(Null)
      && UnorderedMaps.Remove(r.value.um, r.value.store, k) == Ok(MapTaken(r.value.um, r.value.store, Null))
  {
    if k in Entries(m, st) {
      var r := RemoveLive(m, st, k);
      GetFinds(r.um, r.store, k);
      RemoveAbsent(r.um, r.store, k);
    } else {
      RemoveAbsent(m, st, k);
      GetFinds(m, st, k);
    }
  }

  /** `len` and `isEmpty` of a consistent map count its entries. */
  lemma LenCountsEntries(m: UnorderedMap, st: Store)
    requires Inv(m, st)
    ensures Len(m) == Ok(|Entries(m, st)|)
    ensures IsEmpty(m) == Ok(|Entries(m, st)| == 0)
  {
    AsMapSize(KeyList(m, st), Vectors.View(m.values, st));
  }

  /** `set` on a consistent map (with room for a new key) assigns the entry and
      keeps the invariant; the map grows by at most one, and only keys under the
      map's prefix change. */
  lemma SetAssigns(m: UnorderedMap, st: Store, k: string, v: Json) returns (r: MapTaken)
    requires Inv(m, st) && (k in Entries(m, st) || m.keys.length < U32_LIMIT)
    ensures Set(m, st, k, v) == Ok(r)
    ensures r.um.prefix == m.prefix && r.um.keys.length <= m.keys.length + 1
    ensures Inv(r.um, r.store)
    ensures Entries(r.um, r.store) == Entries(m, st)[k := v]
    ensures SameOutside(st, r.store, m.prefix)
  {
    if k in Entries(m, st) {
      SetExisting(m, st, k, v);
      ValueSlotUnder(m, st, Set(m, st, k, v).value.store, Position(m, st, k));
    } else {
      SetNew(m, st, k, v);
      NewEntryUnder(m, st, Set(m, st, k, v).value.store, k);
    }
    r := Set(m, st, k, v).value;
  }

  /** Writing one value slot changes only keys under the map's prefix. */
  lemma ValueSlotUnder(m: UnorderedMap, st: Store, st': Store, i: int)
    requires WellFormed(m)
    requires SameExcept(st, st', {Vectors.IndexToKey(m.values.prefix, i)})
    ensures SameOutside(st, st', m.prefix)
  {
    Vectors.SlotUnder(m.prefix, m.values.prefix, i);
    SameExceptUnder(st, st', {Vectors.IndexToKey(m.values.prefix, i)}, m.prefix);
  }

  /** Writing a new key's lookup entry and slots changes only keys under the map's prefix. */
  lemma NewEntryUnder(m: UnorderedMap, st: Store, st': Store, k: string)
    requires WellFormed(m)
    requires SameExcept(st, st', {LookupKey(m, k), Vectors.IndexToKey(m.keys.prefix, m.keys.length),
                                  Vectors.IndexToKey(m.values.prefix, m.keys.length)})
    ensures SameOutside(st, st', m.prefix)
  {
    Vectors.SlotUnder(m.prefix, m.keys.prefix, m.keys.length);
    Vectors.SlotUnder(m.prefix, m.values.prefix, m.keys.length);
    assert LookupKey(m, k) == m.prefix + ("i" + Quote(k));
    SameExceptUnder(st, st', {LookupKey(m, k), Vectors.IndexToKey(m.keys.prefix, m.keys.length),
                              Vectors.IndexToKey(m.values.prefix, m.keys.length)}, m.prefix);
  }
}
