/** `Vector`: a dense persistent sequence. Element `i` lives in the store under
    `prefix` followed by the four little-endian bytes of `i`; the record itself only
    holds the prefix and the length. */
module Vectors {
  import opened Encoding
  import opened Outcomes
  import opened JsonValues
  import opened Storage
  import opened Sequences

  datatype Vector = Vector(prefix: string, length: nat)

  /** The vector and store after a call that hands no element back. */
  datatype Updated = Updated(vec: Vector, store: Store)

  /** The vector and store after a call, and the element it handed back. */
  datatype Taken = Taken(vec: Vector, store: Store, value: Json)

  /** The constructor: an empty vector under `prefix`, whatever the store holds. */
  function New(prefix: string): (r: Vector)
    ensures r.prefix == prefix
    ensures forall st :: Valid(r, st) && View(r, st) == []
  {
    Vector(prefix, 0)
  }

  /** `indexToKey`: the prefix followed by the bytes of the index as a `Uint32Array`
      stores it, so the index is reduced modulo 2^32 first. */
  function IndexToKey(prefix: string, index: int): (key: string)
    ensures |key| == |prefix| + 4 && key[..|prefix|] == prefix
  {
    prefix + U8ArrayToBytes(Le4(ToUint32(index)))
  }

  /** Two slot keys coincide only for the same prefix and the same 32-bit index. */
  lemma IndexToKeyInjective(p: string, q: string, i: u32, j: u32)
    ensures IndexToKey(p, i) == IndexToKey(q, j) <==> p == q && i == j
  {
    if IndexToKey(p, i) == IndexToKey(q, j) {
      var key := IndexToKey(p, i);
      assert p == key[..|p|] == q;
      assert key[|p|..] == U8ArrayToBytes(Le4(i)) == U8ArrayToBytes(Le4(j));
      U8ArrayToBytesInjective(Le4(i), Le4(j));
      Le4Injective(i, j);
    }
  }

  /** A slot key starts with every prefix of its vector's prefix. */
  lemma SlotUnder(p: string, q: string, index: int)
    requires p <= q
    ensures p <= IndexToKey(q, index)
  {
    var key := IndexToKey(q, index);
    assert key[..|p|] == key[..|q|][..|p|];
  }

  /** `len`: the length of the sequence the vector stands for. */
  function Len(v: Vector): (n: nat)
    ensures forall st | Valid(v, st) :: n == |View(v, st)|
  {
    v.length
  }

  /** `isEmpty`: whether the vector stands for the empty sequence. */
  function IsEmpty(v: Vector): (b: bool)
    ensures forall st | Valid(v, st) :: b <==> View(v, st) == []
  {
    v.length == 0
  }

  /** The slot keys of indices `lo <= i < hi`. */
  ghost function SlotKeys(prefix: string, lo: int, hi: int): set<string> {
    set i | lo <= i < hi :: IndexToKey(prefix, i)
  }

  /** Every index below `length` has a JSON entry, and `length` fits the 2^32
      distinct slot keys. */
  ghost predicate Valid(v: Vector, st: Store) {
    && v.length <= U32_LIMIT
    && forall i | 0 <= i < v.length ::
         IndexToKey(v.prefix, i) in st && st[IndexToKey(v.prefix, i)].Text?
  }

  /** The sequence a valid vector stands for. */
  ghost function View(v: Vector, st: Store): (s: seq<Json>)
    requires Valid(v, st)
    ensures |s| == v.length
  {
    seq(v.length, i requires 0 <= i < v.length => st[IndexToKey(v.prefix, i)].doc)
  }

  /** A valid vector keeps its contents in any store that agrees on its slots. */
  lemma ViewFrame(v: Vector, st: Store, st': Store)
    requires Valid(v, st)
    requires forall i | 0 <= i < v.length :: Read(st', IndexToKey(v.prefix, i)) == Read(st, IndexToKey(v.prefix, i))
    ensures Valid(v, st') && View(v, st') == View(v, st)
  {
    forall i | 0 <= i < v.length
      ensures IndexToKey(v.prefix, i) in st' && st'[IndexToKey(v.prefix, i)] == st[IndexToKey(v.prefix, i)]
    {
      assert Read(st', IndexToKey(v.prefix, i)) == Read(st, IndexToKey(v.prefix, i));
    }
  }

  /** A change confined to keys that are no slot of `v` leaves `v` as it was. */
  lemma ViewUntouched(v: Vector, st: Store, st': Store, touched: set<string>)
    requires Valid(v, st) && SameExcept(st, st', touched)
    requires forall i | 0 <= i < v.length :: IndexToKey(v.prefix, i) !in touched
    ensures Valid(v, st') && View(v, st') == View(v, st)
  {
    ViewFrame(v, st, st');
  }

  /** A change confined to keys outside the vector's prefix leaves it as it was. */
  lemma ViewOutside(v: Vector, st: Store, st': Store, touched: set<string>)
    requires Valid(v, st) && SameExcept(st, st', touched) && Outside(touched, v.prefix)
    ensures Valid(v, st') && View(v, st') == View(v, st)
  {
    forall i | 0 <= i < v.length
      ensures IndexToKey(v.prefix, i) !in touched
    {
      assert v.prefix <= IndexToKey(v.prefix, i);
    }
    ViewUntouched(v, st, st', touched);
  }

  /** A store that keeps a valid vector's slots and holds `e` in the next slot
      holds the vector extended by `e`. */
  lemma ViewExtended(v: Vector, st: Store, st': Store, e: Json)
    requires Valid(v, st) && v.length < U32_LIMIT
    requires forall i | 0 <= i < v.length :: Read(st', IndexToKey(v.prefix, i)) == Read(st, IndexToKey(v.prefix, i))
    requires Read(st', IndexToKey(v.prefix, v.length)) == Some(Text(e))
    ensures Valid(Vector(v.prefix, v.length + 1), st')
    ensures View(Vector(v.prefix, v.length + 1), st') == View(v, st) + [e]
  {
    ViewFrame(v, st, st');
    var v' := Vector(v.prefix, v.length + 1);
    assert Valid(v', st');
    assert View(v', st') == View(v, st) + [e];
  }

  /** `JSON.parse` of what `storageRead` returned: an absent entry parses as null. */
  function ParseSlot(stored: Option<Value>): Result<Json> {
    match stored
    case None => Ok(Null)
    case Some(Text(j)) => Ok(j)
    case Some(Raw(_)) => Err(Malformed)
  }

  /** `get`: null past the end; otherwise the parsed slot, which is null, not an
      error, when the slot is missing. Never writes. */
  function Get(v: Vector, st: Store, index: int): (r: Result<Json>)
    ensures index >= v.length ==> r == Ok(Null)
    ensures index < v.length && IndexToKey(v.prefix, index) !in st ==> r == Ok(Null)
    ensures Valid(v, st) && 0 <= index < v.length ==> r == Ok(View(v, st)[index])
  {
    if index >= v.length then Ok(Null)
    else ParseSlot(Read(st, IndexToKey(v.prefix, index)))
  }

  /** `push`: writes slot `length`, then counts it. */
  function Push(v: Vector, st: Store, element: Json): (r: Updated)
    ensures r.vec == Vector(v.prefix, v.length + 1)
    ensures Read(r.store, IndexToKey(v.prefix, v.length)) == Some(Text(element))
    ensures SameExcept(st, r.store, {IndexToKey(v.prefix, v.length)})
  {
    var key := IndexToKey(v.prefix, v.length);
    Updated(v.(length := v.length + 1), Write(st, key, Text(element)).store)
  }

  /** Pushing onto a valid vector appends to its contents and writes only the new slot. */
  lemma PushAppends(v: Vector, st: Store, element: Json)
    requires Valid(v, st) && v.length < U32_LIMIT
    ensures var r := Push(v, st, element);
      && Valid(r.vec, r.store)
      && View(r.vec, r.store) == View(v, st) + [element]
      && r.vec.length == v.length + 1
      && Get(r.vec, r.store, v.length) == Ok(element)
      && SameExcept(st, r.store, {IndexToKey(v.prefix, v.length)})
  {
    var r := Push(v, st, element);
    forall i | 0 <= i < v.length
      ensures IndexToKey(v.prefix, i) != IndexToKey(v.prefix, v.length)
    {
      IndexToKeyInjective(v.prefix, v.prefix, i, v.length);
    }
    ViewUntouched(v, st, r.store, {IndexToKey(v.prefix, v.length)});
    assert Valid(r.vec, r.store);
    assert View(r.vec, r.store) == View(v, st) + [element];
  }

  /** `pop`: null on an empty vector; otherwise removes and returns the last slot,
      which must have been present. */
  function Pop(v: Vector, st: Store): (r: Result<Taken>)
    ensures v.length == 0 ==> r == Ok(Taken(v, st, Null))
    ensures v.length > 0 && IndexToKey(v.prefix, v.length - 1) !in st ==> r == Err(InconsistentState)
  {
    if v.length == 0 then Ok(Taken(v, st, Null))
    else
      var lastKey := IndexToKey(v.prefix, v.length - 1);
      var w := Remove(st, lastKey);
      if w.previous.None? then Err(InconsistentState)
      else
        var value :- ParseSlot(w.previous);
        Ok(Taken(v.(length := v.length - 1), w.store, value))
  }

  /** Popping a non-empty valid vector returns its last element, drops it from the
      contents and deletes only its slot. */
  lemma PopTakesLast(v: Vector, st: Store)
    requires Valid(v, st) && v.length > 0
    ensures var r := Pop(v, st);
      && r.Ok?
      && r.value.value == View(v, st)[v.length - 1]
      && r.value.vec == Vector(v.prefix, v.length - 1)
      && Valid(r.value.vec, r.value.store)
      && View(r.value.vec, r.value.store) == View(v, st)[..v.length - 1]
      && IndexToKey(v.prefix, v.length - 1) !in r.value.store
      && SameExcept(st, r.value.store, {IndexToKey(v.prefix, v.length - 1)})
  {
    var lastKey := IndexToKey(v.prefix, v.length - 1);
    var r := Pop(v, st);
    var w := Remove(st, lastKey);
    assert r.value.store == w.store;
    forall i | 0 <= i < v.length - 1
      ensures IndexToKey(v.prefix, i) != lastKey
    {
      IndexToKeyInjective(v.prefix, v.prefix, i, v.length - 1);
    }
    ViewUntouched(r.value.vec, st, w.store, {lastKey});
    assert View(r.value.vec, r.value.store) == View(v, st)[..v.length - 1];
  }

  /** `push(x); pop()` hands `x` back and restores the vector; the store loses only
      the slot the push wrote, so it is restored exactly when that slot was free. */
  lemma PushPopRoundTrip(v: Vector, st: Store, x: Json)
    ensures var p := Push(v, st, x);
      && Pop(p.vec, p.store) == Ok(Taken(v, st - {IndexToKey(v.prefix, v.length)}, x))
      && (IndexToKey(v.prefix, v.length) !in st ==> Pop(p.vec, p.store) == Ok(Taken(v, st, x)))
  {
    var key := IndexToKey(v.prefix, v.length);
    var p := Push(v, st, x);
    assert p.store - {key} == st - {key};
    if key !in st {
      assert st - {key} == st;
    }
  }

  /** `swapRemove`: out of bounds past the end; the last index is a plain pop;
      otherwise the last element is popped and written over slot `index`, and the
      value it evicts is returned. */
  function SwapRemove(v: Vector, st: Store, index: int): (r: Result<Taken>)
    ensures index >= v.length ==> r == Err(IndexOutOfBounds)
  {
    if index >= v.length then Err(IndexOutOfBounds)
    else if index + 1 == v.length then Pop(v, st)
    else
      var key := IndexToKey(v.prefix, index);
      var popped :- Pop(v, st);
      var w := Write(popped.store, key, Text(popped.value));
      if w.previous.None? then Err(InconsistentState)
      else
        var evicted :- ParseSlot(w.previous);
        Ok(Taken(popped.vec, w.store, evicted))
  }

  /** For an index below the last, `swapRemove` pops the last element and writes
      it over slot `index`, evicting the element there. */
  lemma SwapRemoveStep(v: Vector, st: Store, index: int) returns (popped: Taken)
    requires Valid(v, st) && 0 <= index && index + 1 < v.length
    ensures popped.vec == Vector(v.prefix, v.length - 1)
    ensures popped.value == View(v, st)[v.length - 1]
    ensures Valid(popped.vec, popped.store) && View(popped.vec, popped.store) == View(v, st)[..v.length - 1]
    ensures SameExcept(st, popped.store, {IndexToKey(v.prefix, v.length - 1)})
    ensures SwapRemove(v, st, index) ==
      Ok(Taken(popped.vec, popped.store[IndexToKey(v.prefix, index) := Text(popped.value)], View(v, st)[index]))
  {
    PopTakesLast(v, st);
    popped := Pop(v, st).value;
    var key := IndexToKey(v.prefix, index);
    IndexToKeyInjective(v.prefix, v.prefix, index, v.length - 1);
    assert Read(popped.store, key) == Some(st[key]);
  }

  /** Swap-removing index `i` of a valid vector returns the element at `i`, shortens
      the vector by one, moves the last element into slot `i`, and touches only
      slots `i` and `length - 1`. */
  lemma SwapRemoveMovesLast(v: Vector, st: Store, index: int)
    requires Valid(v, st) && 0 <= index < v.length
    ensures var r := SwapRemove(v, st, index);
      && r.Ok?
      && r.value.value == View(v, st)[index]
      && r.value.vec == Vector(v.prefix, v.length - 1)
      && Valid(r.value.vec, r.value.store)
      && View(r.value.vec, r.value.store) == SwapRemoved(View(v, st), index)
      && SameExcept(st, r.value.store, {IndexToKey(v.prefix, index), IndexToKey(v.prefix, v.length - 1)})
  {
    if index + 1 == v.length {
      PopTakesLast(v, st);
    } else {
      SwapRemoveMiddle(v, st, index);
    }
  }

  /** Swap-removing an index before the last: the last element is written over it. */
  lemma SwapRemoveMiddle(v: Vector, st: Store, index: int)
    requires Valid(v, st) && 0 <= index && index + 1 < v.length
    ensures var r := SwapRemove(v, st, index);
      && r.Ok?
      && r.value.value == View(v, st)[index]
      && r.value.vec == Vector(v.prefix, v.length - 1)
      && Valid(r.value.vec, r.value.store)
      && View(r.value.vec, r.value.store) == SwapRemoved(View(v, st), index)
      && SameExcept(st, r.value.store, {IndexToKey(v.prefix, index), IndexToKey(v.prefix, v.length - 1)})
  {
    var popped := SwapRemoveStep(v, st, index);
    var key := IndexToKey(v.prefix, index);
    var st' := popped.store[key := Text(popped.value)];
    OverwriteSlot(popped.vec, popped.store, index, popped.value);
    assert View(popped.vec, st') == SwapRemoved(View(v, st), index);
    SameExceptTrans(st, popped.store, st', {IndexToKey(v.prefix, v.length - 1)}, {key});
  }

  /** Overwriting one slot of a valid vector with a JSON entry updates that one
      element of its view. */
  lemma OverwriteSlot(v: Vector, st: Store, index: nat, e: Json)
    requires Valid(v, st) && index < v.length
    ensures var st' := st[IndexToKey(v.prefix, index) := Text(e)];
      Valid(v, st') && View(v, st') == View(v, st)[index := e]
  {
    var st' := st[IndexToKey(v.prefix, index) := Text(e)];
    forall i | 0 <= i < v.length && i != index
      ensures IndexToKey(v.prefix, i) != IndexToKey(v.prefix, index)
    {
      IndexToKeyInjective(v.prefix, v.prefix, i, index);
    }
    assert Valid(v, st');
    assert View(v, st') == View(v, st)[index := e];
  }

  /** `replace`: out of bounds past the end; otherwise writes the slot and returns
      the previous element, which must have been present. */
  function Replace(v: Vector, st: Store, index: int, element: Json): (r: Result<Taken>)
    ensures index >= v.length ==> r == Err(IndexOutOfBounds)
    ensures index < v.length && IndexToKey(v.prefix, index) !in st ==> r == Err(InconsistentState)
    ensures r.Ok? ==> r.value.vec == v
  {
    if index >= v.length then Err(IndexOutOfBounds)
    else
      var key := IndexToKey(v.prefix, index);
      var w := Write(st, key, Text(element));
      if w.previous.None? then Err(InconsistentState)
      else
        var previous :- ParseSlot(w.previous);
        Ok(Taken(v, w.store, previous))
  }

  /** Replacing index `i` of a valid vector returns the old element and changes
      only slot `i`. */
  lemma ReplaceUpdates(v: Vector, st: Store, index: int, element: Json)
    requires Valid(v, st) && 0 <= index < v.length
    ensures var r := Replace(v, st, index, element);
      && r.Ok?
      && r.value.value == View(v, st)[index]
      && r.value.vec == v
      && Valid(v, r.value.store)
      && View(v, r.value.store) == View(v, st)[index := element]
      && SameExcept(st, r.value.store, {IndexToKey(v.prefix, index)})
  {
    var key := IndexToKey(v.prefix, index);
    var r := Replace(v, st, index, element);
    forall i | 0 <= i < v.length && i != index
      ensures IndexToKey(v.prefix, i) != key
    {
      IndexToKeyInjective(v.prefix, v.prefix, i, index);
    }
    assert Valid(v, r.value.store);
    assert View(v, r.value.store) == View(v, st)[index := element];
  }

  lemma SlotKeysGrow(prefix: string, lo: int, hi: int)
    requires lo <= hi
    ensures SlotKeys(prefix, lo, hi) + {IndexToKey(prefix, hi)} == SlotKeys(prefix, lo, hi + 1)
  {
  }

  /** `extend`: pushes the elements one by one, in order. */
  method Extend(v: Vector, st: Store, elements: seq<Json>) returns (r: Updated)
    ensures r.vec == Vector(v.prefix, v.length + |elements|)
    ensures SameExcept(st, r.store, SlotKeys(v.prefix, v.length, v.length + |elements|))
    ensures Valid(v, st) && v.length + |elements| <= U32_LIMIT ==>
      Valid(r.vec, r.store) && View(r.vec, r.store) == View(v, st) + elements
  {
    r := Updated(v, st);
    var i := 0;
    while i < |elements|
      invariant 0 <= i <= |elements|
      invariant r.vec == Vector(v.prefix, v.length + i)
      invariant SameExcept(st, r.store, SlotKeys(v.prefix, v.length, v.length + i))
      invariant Valid(v, st) && v.length + |elements| <= U32_LIMIT ==>
        Valid(r.vec, r.store) && View(r.vec, r.store) == View(v, st) + elements[..i]
    {
      if Valid(v, st) && v.length + |elements| <= U32_LIMIT {
        PushAppends(r.vec, r.store, elements[i]);
        assert elements[..i + 1] == elements[..i] + [elements[i]];
      }
      var before := r.store;
      r := Push(r.vec, r.store, elements[i]);
      SameExceptTrans(st, before, r.store, SlotKeys(v.prefix, v.length, v.length + i), {IndexToKey(v.prefix, v.length + i)});
      SlotKeysGrow(v.prefix, v.length, v.length + i);
      i := i + 1;
    }
    assert elements[..i] == elements;
  }

  /** The store after `storageRemove` of slots `from`, `from + 1`, ..., `to - 1`, in
      that order; whether each slot existed is ignored, as `clear` ignores it. */
  function RemoveSlots(st: Store, prefix: string, from: int, to: int): (r: Store)
    decreases to - from
    ensures SameExcept(st, r, SlotKeys(prefix, from, to))
    ensures forall i | from <= i < to :: IndexToKey(prefix, i) !in r
  {
    if from >= to then st
    else
      var st1 := Remove(st, IndexToKey(prefix, from)).store;
      var r := RemoveSlots(st1, prefix, from + 1, to);
      assert {IndexToKey(prefix, from)} + SlotKeys(prefix, from + 1, to) == SlotKeys(prefix, from, to);
      r
  }

  /** `clear`: deletes the slots of indices `[0, length)` and resets the length. */
  function Clear(v: Vector, st: Store): (r: Updated)
    ensures r.vec == Vector(v.prefix, 0)
    ensures SameExcept(st, r.store, SlotKeys(v.prefix, 0, v.length))
    ensures forall i | 0 <= i < v.length :: IndexToKey(v.prefix, i) !in r.store
  {
    Updated(Vector(v.prefix, 0), RemoveSlots(st, v.prefix, 0, v.length))
  }

  /** `VectorIterator`: a position in a vector. */
  datatype VectorIterator = VectorIterator(vector: Vector, current: nat)

  /** What `next()` returns: `{ value, done }`. */
  datatype Step = Step(value: Json, done: bool)

  /** `[Symbol.iterator]`: a fresh iterator yields the first element first, and is
      done at once on an empty vector. */
  function Iterate(v: Vector): (it: VectorIterator)
    ensures it.vector == v
    ensures forall st | Valid(v, st) :: Next(it, st).Ok?
    ensures forall st | Valid(v, st) :: Next(it, st).value.1.done <==> View(v, st) == []
    ensures forall st | Valid(v, st) && View(v, st) != [] :: Next(it, st).value.1.value == View(v, st)[0]
  {
    VectorIterator(v, 0)
  }

  /** `next`: the element at the current position and a step forward, or
      `{ value: null, done: true }` at the end. */
  function Next(it: VectorIterator, st: Store): (r: Result<(VectorIterator, Step)>)
    ensures r.Ok? && !r.value.1.done ==> it.current < it.vector.length && r.value.0 == it.(current := it.current + 1)
    ensures r.Ok? && r.value.1.done ==> it.current >= it.vector.length && r.value.1.value == Null
    ensures Valid(it.vector, st) && it.current < it.vector.length ==>
      r == Ok((it.(current := it.current + 1), Step(View(it.vector, st)[it.current], false)))
  {
    if it.current < it.vector.length then
      var value :- Get(it.vector, st, it.current);
      Ok((it.(current := it.current + 1), Step(value, false)))
    else Ok((it, Step(Null, true)))
  }

  /** `toArray`: runs an iterator to the end and collects what it yields. */
  method ToArray(v: Vector, st: Store) returns (r: Result<seq<Json>>)
    ensures Valid(v, st) ==> r == Ok(View(v, st))
    ensures r.Err? ==> r.error == Malformed
  {
    var it := Iterate(v);
    var acc: seq<Json> := [];
    while true
      invariant it.vector == v && it.current <= v.length
      invariant Valid(v, st) ==> acc == View(v, st)[..it.current]
      decreases v.length - it.current
    {
      var n := Next(it, st);
      if n.Err? {
        return Err(n.error);
      }
      if n.value.1.done {
        break;
      }
      acc := acc + [n.value.1.value];
      it := n.value.0;
    }
    assert Valid(v, st) ==> acc == View(v, st);
    r := Ok(acc);
  }

  /** `JSON.stringify` of a vector record: its own fields, in declaration order. */
  function Document(v: Vector): Json {
    Obj([("length", Num(v.length)), ("prefix", Str(v.prefix))])
  }

  /** `Vector.deserialize`: a vector record rebuilt from its parsed document.
      A document without a string prefix and a non-negative integer length is
      not a vector's. */
  function Deserialize(data: Json): (r: Option<Vector>)
    ensures r.Some? ==> Member(data, "prefix") == Some(Str(r.value.prefix))
    ensures r.Some? ==> Member(data, "length") == Some(Num(r.value.length))
  {
    var prefix :- AsString(Member(data, "prefix"));
    var length :- AsInt(Member(data, "length"));
    if length < 0 then None else Some(Vector(prefix, length))
  }

  /** Rebuilding a vector from its own document gives the same vector back. */
  lemma DeserializeDocument(v: Vector)
    ensures Deserialize(Document(v)) == Some(v)
  {
    var fields := Document(v).fields;
    assert fields[0].0[0] != fields[1].0[0];
    FieldAt(fields, 0);
    FieldAt(fields, 1);
  }
}
