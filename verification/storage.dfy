/** The host's flat key-value store and its three primitives (`storageRead`,
    `storageWrite`, `storageRemove`), as pure functions over an explicit map.
    Keys are JavaScript byte strings: one character per byte. */
module Storage {
  import opened Outcomes
  import opened JsonValues

  /** A stored entry: `Text(j)` is the JSON text of `j` that a container wrote
      (`JSON.stringify` is taken to be injective); `Raw(s)` is a raw byte string,
      as a map's index lookup entries are. */
  datatype Value = Text(doc: Json) | Raw(chars: string)

  type Store = map<string, Value>

  /** The new store after a write or remove, with the host's previous-value
      report (`storageWrite`/`storageRemove` return whether an entry existed and
      leave it in the evicted register). */
  datatype Written = Written(store: Store, previous: Option<Value>)

  function Read(st: Store, key: string): (r: Option<Value>)
    ensures r.Some? <==> key in st
  {
    if key in st then Some(st[key]) else None
  }

  /** Two stores agree on every key outside `touched`. */
  ghost predicate SameExcept(st: Store, st': Store, touched: set<string>) {
    forall k :: k !in touched ==> Read(st, k) == Read(st', k)
  }

  /** No key in `touched` starts with `prefix`. */
  predicate Outside(touched: set<string>, prefix: string) {
    forall key | key in touched :: !(prefix <= key)
  }

  /** Two stores agree on every key that does not start with `prefix`. */
  ghost predicate SameOutside(st: Store, st': Store, prefix: string) {
    forall k | !(prefix <= k) :: Read(st, k) == Read(st', k)
  }

  /** A change confined to keys under `prefix` keeps every key outside it. */
  lemma SameExceptUnder(st: Store, st': Store, touched: set<string>, prefix: string)
    requires SameExcept(st, st', touched)
    requires forall key | key in touched :: prefix <= key
    ensures SameOutside(st, st', prefix)
  {
  }

  function Write(st: Store, key: string, value: Value): (r: Written)
    ensures r.previous == Read(st, key)
    ensures Read(r.store, key) == Some(value)
    ensures SameExcept(st, r.store, {key})
  {
    Written(st[key := value], Read(st, key))
  }

  function Remove(st: Store, key: string): (r: Written)
    ensures r.previous == Read(st, key)
    ensures Read(r.store, key) == None
    ensures SameExcept(st, r.store, {key})
  {
    Written(st - {key}, Read(st, key))
  }

  lemma SameExceptTrans(a: Store, b: Store, c: Store, s1: set<string>, s2: set<string>)
    requires SameExcept(a, b, s1) && SameExcept(b, c, s2)
    ensures SameExcept(a, c, s1 + s2)
  {
  }

  lemma SameExceptWiden(a: Store, b: Store, s1: set<string>, s2: set<string>)
    requires SameExcept(a, b, s1) && s1 <= s2
    ensures SameExcept(a, b, s2)
  {
  }
}
