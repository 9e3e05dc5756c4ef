# Reading-library book catalogue on NEAR

The repository is a NEAR smart contract that keeps a catalogue of books. It comes in two versions:

- **JavaScript.** A TypeScript contract (`contract/src/contract.ts`, `contract/src/models.ts`) compiled, together with the near-sdk-js persistent collections, into `contract/build/hello_near.js`.
- **Rust.** A contract (`src/lib.rs`, `src/model.rs`) that keeps its books in a vector in the contract's own state.

This project models both versions in Dafny.

**Persistent collections.** The host's key-value store is modelled as a map from byte-string keys to stored values (module `Storage`). A `Vector` is modelled as a prefix and a length. Element `i` lives under the prefix followed by the four little-endian bytes of `i` (`indexToKey`). An `UnorderedMap` is modelled as:

- two parallel vectors, one for keys and one for values;
- a lookup table that stores each key's index as four raw bytes.

Each operation is a pure function from a record and a store to a `Result`. The `Result` carries the new record, the new store and the value handed back. Errors are kept distinct:

- out of bounds;
- inconsistent state;
- malformed entry;
- `TypeError`;
- a failed near-sdk `assert`;
- a Rust panic.

**Abstractions.** `Vectors.View` is the sequence a valid vector stands for. `UnorderedMaps.Entries` is the map a consistent unordered map stands for. The representation invariant is `UnorderedMaps.Inv`. The contracts relate every operation to these abstractions:

- `push` appends;
- `pop` takes the last element;
- `swapRemove` is `Sequences.SwapRemoved`;
- `set` is map update;
- `remove` is map deletion;
- `clear` empties;
- `extend` assigns the pairs in order.

The contracts also state exactly which store keys each call may write.

**Catalogue.** The catalogue's JavaScript calls are modelled on top of the collections (modules `BookModels`, `Catalogue`). The Rust calls are modelled on an in-memory sequence of books (modules `RustModel`, `RustContract`). The repository's unit and integration tests become concrete scenario lemmas (modules `CatalogueScenarios`, `RustScenarios`).

Source paths below are relative to the repository root. `contract/build/hello_near.js` holds both the near-sdk-js collections and a compiled copy of `contract/src/contract.ts`. Catalogue rows cite the TypeScript.

## Model

| member | source | states |
|---|---|---|
| Encoding.ToUint32 | contract/build/hello_near.js:174 | Storing a number in a `Uint32Array` keeps values in [0, 2^32) and wraps negative values in [-2^32, 0) around by 2^32 |
| Encoding.Le4 | contract/build/hello_near.js:174-175 | The byte view of a one-element `Uint32Array` has exactly four bytes |
| Encoding.Le4RoundTrip | contract/build/hello_near.js:174-175 | Reading the first `Uint32Array` element of a number's four bytes gives the number back |
| Encoding.FromLe4RoundTrip | contract/build/hello_near.js:366-370 | Any four bytes are the little-endian encoding of the 32-bit number read from them |
| Encoding.Le4Injective | contract/build/hello_near.js:173-178 | Distinct 32-bit indices have distinct byte encodings |
| Encoding.U8ArrayToBytes | contract/build/hello_near.js:141-149 | One character per byte, whose code is the byte; the length is preserved |
| Encoding.BytesToU8Array | contract/build/hello_near.js:152-160 | One byte per character: the character code truncated modulo 256 |
| Encoding.BytesRoundTrip | contract/build/hello_near.js:141-160 | `bytesToU8Array(u8ArrayToBytes(a)) == a` for every byte array |
| Encoding.U8ArrayToBytesInjective | contract/build/hello_near.js:141-149 | Different byte arrays give different byte strings |
| TextLengths.Utf16Length | contract/src/contract.ts:48-60 | JavaScript `length` is zero exactly for the empty string |
| TextLengths.Utf8Length | src/lib.rs:50-58 | Rust `len()` is zero exactly for the empty string |
| TextLengths.AsciiLengths | src/lib.rs:151-163 | On ASCII text both measures equal the character count, as for the tests' fields |
| Storage.Read | contract/build/hello_near.js:202 | `storageRead` finds an entry exactly when the key is present |
| Storage.Write | contract/build/hello_near.js:228 | `storageWrite` reports the previous entry, stores the value, and changes no other key |
| Storage.Remove | contract/build/hello_near.js:239 | `storageRemove` reports the previous entry, deletes the key, and changes no other key |
| Vectors.IndexToKey | contract/build/hello_near.js:173-178 | A slot key is the prefix followed by exactly four bytes |
| Vectors.IndexToKeyInjective | contract/build/hello_near.js:173-178 | Two slot keys coincide exactly for the same prefix and the same 32-bit index |
| Vectors.ViewUntouched | contract/build/hello_near.js:182-186 | A store change that misses every slot keeps a vector's contents |
| Vectors.ViewOutside | contract/build/hello_near.js:182-186 | A store change confined to keys outside the prefix keeps a vector's contents |
| Vectors.New | contract/build/hello_near.js:183-186 | A new vector is empty: valid, with no elements, in every store |
| Vectors.Len | contract/build/hello_near.js:188-190 | `len` is the number of elements of a valid vector |
| Vectors.IsEmpty | contract/build/hello_near.js:192-194 | `isEmpty` holds exactly when a valid vector has no elements |
| Vectors.Get | contract/build/hello_near.js:196-203 | Null past the end and for a missing slot; the element at `index` of a valid vector; never writes |
| Vectors.Push | contract/build/hello_near.js:225-229 | The length grows by one and only the slot at the old length is written, with the element |
| Vectors.PushAppends | contract/build/hello_near.js:225-229 | On a valid vector, push appends the element to its contents and `get` finds it there |
| Vectors.Pop | contract/build/hello_near.js:231-245 | Null and no change on an empty vector; inconsistent state when the last slot is missing |
| Vectors.PopTakesLast | contract/build/hello_near.js:231-245 | On a non-empty valid vector: returns the last element, drops it from the contents, and deletes only its slot |
| Vectors.PushPopRoundTrip | contract/build/hello_near.js:225-245 | `push(x)` then `pop()` returns `x` and the original vector; the store is restored when the slot was free |
| Vectors.SwapRemove | contract/build/hello_near.js:208-223 | An index at or past the length is out of bounds |
| Vectors.SwapRemoveMovesLast | contract/build/hello_near.js:208-223 | Returns the removed element and shortens by one; the contents become the swap-removed sequence; only two slots change |
| Vectors.Replace | contract/build/hello_near.js:247-259 | Out of bounds past the end; inconsistent state when the slot is missing; the record is unchanged |
| Vectors.ReplaceUpdates | contract/build/hello_near.js:247-259 | On a valid vector: returns the old element, updates that position only, and writes one slot |
| Vectors.Extend | contract/build/hello_near.js:261-265 | Grows by the number of elements; writes only the new slots; the contents become the old ones followed by the elements |
| Vectors.Clear | contract/build/hello_near.js:271-278 | Length 0; every old slot deleted; nothing else changed |
| Vectors.Iterate | contract/build/hello_near.js:267-269 | A fresh iterator first yields the first element, or is done at once on an empty vector |
| Vectors.Next | contract/build/hello_near.js:302-324 | Yields the element at the position and steps forward, or `{null, done}` at the end |
| Vectors.ToArray | contract/build/hello_near.js:280-288 | Running the iterator to the end collects exactly the vector's contents |
| Vectors.Deserialize | contract/build/hello_near.js:295-299 | A rebuilt vector has the document's prefix and length |
| Vectors.DeserializeDocument | contract/build/hello_near.js:290-299 | `deserialize` of a vector's own serialized document (`Vectors.Document`) gives the same vector |
| UnorderedMaps.IndexRoundTrip | contract/build/hello_near.js:360-370 | `deserializeIndex(serializeIndex(i)) == i`, and the serialized index counts as present |
| UnorderedMaps.SerializeIndexInjective | contract/build/hello_near.js:360-364 | Distinct indices serialize differently |
| UnorderedMaps.New | contract/build/hello_near.js:328-336 | A new map has the given prefix, its vectors carry the prefixes derived from it, and it is empty |
| UnorderedMaps.SerializeIndex | contract/build/hello_near.js:360-364 | An index serializes to exactly four byte-valued characters |
| UnorderedMaps.DeserializeIndex | contract/build/hello_near.js:366-370 | A present lookup entry decodes exactly when it is raw bytes whose count is a multiple of four; otherwise it is malformed |
| UnorderedMaps.Get | contract/build/hello_near.js:378-393 | Null for a key without a lookup entry; any other value returned is truthy; the only failures are inconsistent state and a malformed entry |
| UnorderedMaps.Set | contract/build/hello_near.js:395-410 | A present key keeps the map record; a new key returns null and grows both vectors by one, and fails exactly when their lengths differ |
| UnorderedMaps.Unlink | contract/build/hello_near.js:416-437 | The removed key's lookup entry is gone afterwards, including when the last key's entry is rewritten; a map of one entry always unlinks |
| UnorderedMaps.Remove | contract/build/hello_near.js:412-445 | Null and no change for a key without a lookup entry; removing a present key needs equal, non-zero vector lengths |
| UnorderedMaps.Len | contract/build/hello_near.js:338-347 | Inconsistent state exactly when the vectors' lengths differ; otherwise their length |
| UnorderedMaps.IsEmpty | contract/build/hello_near.js:349-358 | Inconsistent state exactly when the vectors disagree on emptiness |
| UnorderedMaps.Deserialize | contract/build/hello_near.js:482-493 | The rebuilt vectors carry the prefixes derived from the map's prefix |
| UnorderedMaps.DeserializeDocument | contract/build/hello_near.js:477-493 | `deserialize` of a well-formed map's own serialized document (`UnorderedMaps.Document`) gives the same map |
| UnorderedMaps.DocumentMembers | contract/build/hello_near.js:477-479 | A map's serialized document carries its prefix and its two vectors' records |
| UnorderedMaps.KeySpaces | contract/build/hello_near.js:327-336 | Lookup entries, key slots and value slots never share a store key |
| UnorderedMaps.LookupKeyInjective | contract/build/hello_near.js:372-376 | Different keys have different lookup entries |
| UnorderedMapLaws.GetFinds | contract/build/hello_near.js:378-393 | On a consistent map: null for an absent key, its value for a present key, inconsistent state for a falsy stored value |
| UnorderedMapLaws.OutsideFrame | contract/build/hello_near.js:327-336 | Writes outside the map's prefix keep it consistent and keep its entries |
| UnorderedMapLaws.SetExisting | contract/build/hello_near.js:395-402 | `set` of a present key returns the old value, updates that entry, keeps the invariant, and writes one value slot |
| UnorderedMapLaws.SetNew | contract/build/hello_near.js:402-409 | `set` of a new key returns null, grows both vectors by one, adds that entry, and keeps the invariant |
| UnorderedMapLaws.SetAssigns | contract/build/hello_near.js:395-410 | `set` always assigns `Entries[k := v]`, keeps the invariant, and changes only keys under the map's prefix |
| UnorderedMapLaws.SetThenGet | contract/build/hello_near.js:378-410 | `get` after `set` returns the value set, or the inconsistent-state error when that value is falsy |
| UnorderedMapLaws.RemoveAbsent | contract/build/hello_near.js:412-416 | `remove` of an absent key returns null and changes nothing |
| UnorderedMapLaws.RemoveLive | contract/build/hello_near.js:412-445 | `remove` of a present key returns its value, deletes exactly that entry, shrinks both vectors by one, and keeps the invariant |
| UnorderedMapLaws.RemoveThenGet | contract/build/hello_near.js:378-445 | After `remove`, `get` gives null and a second `remove` changes nothing |
| UnorderedMapLaws.RemoveEmptyLastKey | contract/build/hello_near.js:420-428 | With two or more entries, `remove` of a present key fails when the last key is the empty string |
| UnorderedMapLaws.LenCountsEntries | contract/build/hello_near.js:338-358 | `len` and `isEmpty` of a consistent map count its entries |
| UnorderedMapIteration.Next | contract/build/hello_near.js:497-517 | Advances both iterators together; finishes when both are exhausted; fails when only one is |
| UnorderedMapIteration.Iterate | contract/build/hello_near.js:467-469 | A fresh iterator first yields the first key and value, or is done at once when both vectors are empty |
| UnorderedMapIteration.ToArray | contract/build/hello_near.js:457-465 | The index-ordered pairs when the lengths agree; inconsistent state when they differ |
| UnorderedMapIteration.PairsAreEntries | contract/build/hello_near.js:457-465 | Each pair of a consistent map is an entry; no key repeats; there are as many pairs as entries |
| UnorderedMapIteration.PairsCoverEntries | contract/build/hello_near.js:457-465 | Every entry appears among the pairs |
| UnorderedMapIteration.DropLookups | contract/build/hello_near.js:447-451 | The walk deletes the lookup entry of every string key and leaves both vectors' slots untouched |
| UnorderedMapIteration.Clear | contract/build/hello_near.js:447-455 | A consistent map becomes empty, keeps the invariant and has no lookup entries; only its own keys are written |
| UnorderedMapIteration.AssignedKeys | contract/build/hello_near.js:471-475 | After `extend`, a key is present exactly when it was before or some pair names it |
| UnorderedMapIteration.AssignedLastWins | contract/build/hello_near.js:471-475 | The last pair for a key decides its value |
| UnorderedMapIteration.AssignedUntouched | contract/build/hello_near.js:471-475 | A key no pair names keeps its value |
| UnorderedMapIteration.Extend | contract/build/hello_near.js:471-475 | `extend` of a consistent map, within the 2^32 bound, gives exactly the in-order assignment of the pairs; only keys under the map's prefix change |
| BookModels.Ordinal | contract/src/models.ts:3-8 | The numeric enum's members are the ordinals 0 to 3 |
| BookModels.RateOf | contract/src/models.ts:3-8 | The reverse mapping is defined exactly for 0 to 3 |
| BookModels.OrdinalRoundTrip | contract/src/models.ts:3-8 | Members and ordinals correspond one to one |
| BookModels.NewBook | contract/src/models.ts:24-49 | The owner is the signer, not the `owner` argument; the fields are copied; the ratings vector is empty under "rating"; the comments map is under "v"; fails exactly when the argument already has a lookup entry under "v" |
| BookModels.NewBookWrites | contract/src/models.ts:43-45 | The first comment is written at index 0 of the map under "v", whatever that map held: three keys and nothing else |
| BookModels.NewBookComments | contract/src/models.ts:43-45 | Over an empty comments map, the new map is consistent and holds only `owner -> "no comments yet"` |
| BookModels.NewBookRepeatedOwner | contract/src/models.ts:44-45 | An `owner` argument that already has a lookup entry makes the constructor fail out of bounds |
| BookModels.BookDocumentRates | contract/src/models.ts:20 | A book's document records its own ratings vector, and `Vector.deserialize` rebuilds it |
| BookModels.BookDocumentWithRates | contract/src/models.ts:20 | Assigning a new ratings record to a book document gives the document of the book with those ratings |
| BookModels.RateDocumentFields | contract/src/models.ts:52-60 | A rating's document carries who rated and the rating |
| BookModels.BookDocumentFields | contract/src/models.ts:24-49 | A book's document carries its id, its owner and its comments map's record |
| Catalogue.CheckBook | contract/src/contract.ts:48-60 | Passes exactly for admissible fields; otherwise fails with the message of the first guard that fails, in source order |
| Catalogue.Require | contract/build/hello_near.js:162-168 | Fails exactly when the condition is false, with that message |
| Catalogue.Init | contract/src/contract.ts:20-24 | The contract starts with an empty books vector under "books", whatever the store holds |
| Catalogue.AddBook | contract/src/contract.ts:31-76 | Inadmissible fields fail with the guard's message; admissible ones succeed exactly when the signer has no lookup entry under "v"; the books vector grows by one |
| Catalogue.AddBookAppends | contract/src/contract.ts:62-75 | Whenever the signer has no lookup entry under "v": the new book document is appended with id equal to the old count; `getBook` finds it; earlier books are unchanged; only four keys are written |
| Catalogue.AddBookCommentWrites | contract/src/models.ts:44-45 | A successful `AddBook` writes the signer's lookup entry at index 0 and names the signer in the first key slot of the shared comments map |
| Catalogue.AddBookFirstComments | contract/src/models.ts:44-45 | From a store without comments, the shared comments map is consistent after `AddBook` and holds only the signer's first comment |
| Catalogue.AddBookRepeatedSigner | contract/src/contract.ts:62-75 | A signer who already has a lookup entry under "v" cannot add a book |
| Catalogue.GetBooks | contract/src/contract.ts:79-81 | Every stored book document in id order, `getNBooks` of them |
| Catalogue.GetBook | contract/src/contract.ts:84-89 | The three guards in order; the document at `id` exactly when 0 <= id < count |
| Catalogue.GetNBooks | contract/src/contract.ts:92-94 | The count of books equals the number of stored documents and the ids `getBook` serves |
| Catalogue.Rate | contract/src/contract.ts:97-107 | As written: past the guard, a type error unless the parsed `rates` is an array; a successful call ends that array with the rating's record |
| Catalogue.RateOnStoredBook | contract/src/contract.ts:97-107 | As written, on every book document `AddBook` stores, `rate` is a type error |
| Catalogue.RateOnArrayRates | contract/src/contract.ts:97-107 | As written, on a document whose `rates` is an array, `rate` appends the rating's record, writes the document back into the book's slot only, and returns it |
| Catalogue.RateFixed | contract/src/contract.ts:97-107 | The guard's message for an id at or past the count; on success an object is returned; a document without a ratings record is handled as written |
| Catalogue.RateFixedRecords | contract/src/contract.ts:97-107 | Corrected: the rating lands in the next slot of the book's ratings vector; the book document with the grown vector is stored at its slot and returned; two keys are written |
| Catalogue.RateFixedGrowsRatings | contract/src/contract.ts:97-107 | Corrected: an intact ratings vector grows by exactly the new rating |
| Catalogue.GetRateBook | contract/src/contract.ts:110-115 | As written: past the guards, the view always ends in a type error |
| Catalogue.GetRateBookFixed | contract/src/contract.ts:110-115 | Corrected: the guards, then the contents of the book's ratings vector |
| CatalogueScenarios.AddBookRunsFine | integration-tests/src/main.ava.ts:43-54 | The test fields are accepted on a fresh contract |
| CatalogueScenarios.AddBookRejectsEmptyFields | integration-tests/src/main.ava.ts:56-110 | Empty isbn, empty name, empty description and numpage 0 each fail with their guard's message |
| CatalogueScenarios.GetBookAfterAddBook | integration-tests/src/main.ava.ts:112-146 | Book 0 is the inserted book; ids -1 and 1600 fail with their guards' messages |
| CatalogueScenarios.EmptyStore | contract/src/contract.ts:20-24 | On deployment the books vector is empty and the comments map under "v" is consistent |
| CatalogueScenarios.FirstBook | contract/src/contract.ts:62-75 | After the first `AddBook`, there is one book, and only its signer has a lookup entry under "v", at index 0 |
| CatalogueScenarios.SoleCommenter | contract/src/models.ts:44-45 | A consistent comments map with one entry has that key as its only key, and only that key has a lookup entry |
| CatalogueScenarios.SecondBookOfSameSignerFails | contract/src/models.ts:44-45 | A signer's second `AddBook` fails: every book's comments share the prefix "v" |
| CatalogueScenarios.SecondSignerTakesOverComments | contract/src/models.ts:44-45 | A second signer's book is stored, but its first comment overwrites the shared slot, and the first signer's lookup entry goes stale |
| CatalogueScenarios.SecondBookWrites | contract/src/models.ts:44-45 | From the first book's store, a second signer's `AddBook` appends the book, names the second signer in the shared key slot, and leaves the first lookup entry in place |
| CatalogueScenarios.StaleLookup | contract/src/models.ts:44-45 | A lookup entry for a key that the only key slot does not name breaks the comments map's invariant |
| CatalogueScenarios.RateOnFirstBook | contract/src/contract.ts:97-107 | Rating the first book fails as written; the corrected call stores the rating and returns the book with one rating |
| RustModel.NewBook | src/model.rs:50-79 | The owner is the signer; the fields are copied; there are no ratings and no comments |
| RustModel.DefaultRate | src/model.rs:27-31 | The default rating is none of bad, regular and awesome |
| RustContract.CheckBook | src/lib.rs:50-58 | Passes exactly for admissible fields, with lengths in UTF-8 bytes; otherwise panics with the first failing guard's message |
| RustContract.Require | src/lib.rs:50-58 | `assert!` panics exactly when the condition is false, with that message |
| RustContract.Default | src/lib.rs:28-35 | The derived default contract has no books, and `getBook` of any id panics with "We haven't any Books" |
| RustContract.AddBook | src/lib.rs:40-76 | Succeeds exactly for admissible fields; appends one book and keeps the earlier ones; otherwise panics with the guard's message |
| RustContract.AddBookKeepsIds | src/lib.rs:60-75 | Ids stay equal to positions; the new book carries the fields, the signer as owner, and empty ratings and comments; `getBook` finds it |
| RustContract.GetBooks | src/lib.rs:79-94 | The cloning loop returns every book in order |
| RustContract.GetBook | src/lib.rs:97-110 | As written: the three guards; a book exactly when 0 <= id < count; id == count panics in the `unwrap` |
| RustContract.GetBookPastEnd | src/lib.rs:101-106 | With n books, id n gives the `unwrap` panic as written and the guard's message when corrected |
| RustContract.GetBookFixed | src/lib.rs:97-110 | Corrected: every out-of-range id is refused by a guard with that guard's message |
| RustContract.GetNBooks | src/lib.rs:112-115 | The count of books is exactly the range of ids `getBook` serves |
| RustScenarios.AddBookCorrect | src/lib.rs:166-184 | One book, id 0, owned by the signer |
| RustScenarios.AddBookEmptyFields | src/lib.rs:186-268 | Empty isbn, empty name, empty description and numpage 0 each panic with their guard's message |
| RustScenarios.GetBookSecond | src/lib.rs:270-301 | After two books, `getBook(1)` is the second book, with id 1 |
| RustScenarios.GetBookOnEmpty | src/lib.rs:303-327 | On an empty contract, ids -1 and 1600 panic with "We haven't any Books" |
| RustScenarios.GetBookOneTooFar | src/lib.rs:101-106 | With one book, id 1 panics in the `unwrap` as written and with the guard's message when corrected |

## Left out

- JSON text: stored documents are parsed values. `JSON.stringify` is taken to be injective, and a string key's `JSON.stringify` is modelled by quoting without escaping. Parsing raw index bytes as JSON, or a document as raw bytes, is reported as a malformed entry.
- Numbers are unbounded integers. Floating point and the precision lost by `Number(near.blockTimestamp())` are not modelled.
- The signer, the block timestamp and the store are parameters. Host calls are modelled as functions on a map. Gas, the evicted register and storage staking are out of scope.
- Contract state serialization, the `@NearBindgen`, `@call` and `@view` decorators, and the generated entry points (contract/build/hello_near.js:626-694) are not modelled. A call's state is the record passed in and returned.
- The near-sdk-js `assert` prefixes its message with "assertion failed: ". The model keeps only the message.
- UnorderedMap's `length` field is never updated by the collection, and the model does not carry it. It is written as 0 in a map's document.
- UnorderedMaps.Unlink: when the last key is truthy but not a string, the model reports a malformed entry. The code removes the lookup, compares the keys with loose `!=`, and writes the last key's lookup at `keyIndexPrefix + JSON.stringify(lastKey)`. The model's keys are strings, so that lookup key cannot be formed. UnorderedMaps.Remove inherits this.
- UnorderedMapIteration.Clear: keys that are not strings have no lookup entry to delete, and the model skips them. The contract is stated for consistent maps.
- Vectors.Valid assumes a vector's length stays within the 2^32 distinct slot keys. Beyond that, `indexToKey` wraps around, and the contracts that need the bound state it.
- UnorderedMaps.Deserialize and Vectors.Deserialize: a document that lacks a string prefix or a non-negative length yields no record. JavaScript would build a broken one.
- Catalogue.RateFixed: a book document without a ratings record is handled as the code is written (a type error, or the array push when `rates` is an array).
- The Rust book's comments `HashMap` is a Dafny map. Borsh and serde serialization are not modelled. `Rate::new` (src/model.rs:88-95) is the datatype constructor `RustModel.Rate`.
- RustContract.AddBook requires the number of books to fit a `u64`, as the cast at src/lib.rs:60 assumes.

## Findings

| source | as written | input that shows it | evidently intended | confidence | as-written member | corrected member |
|---|---|---|---|---|---|---|
| contract/src/contract.ts:97-107 | `rate` calls `book.rates.push(...)` on a book read back with `JSON.parse`. On every book document `AddBook` writes, `rates` is a plain record without methods, so the call throws a type error. | One stored book, `rate({id: 0, valor: 2})` | Rebuild the ratings vector, push the rating, and write the updated book back | high (not executed) | Catalogue.Rate, Catalogue.RateOnStoredBook, CatalogueScenarios.RateOnFirstBook | Catalogue.RateFixed, Catalogue.RateFixedRecords, Catalogue.RateFixedGrowsRatings |
| contract/src/contract.ts:110-115 | `getRateBook` calls `.rates.toArray()` on a parsed record, which again throws a type error | One stored book, `getRateBook({id: 0})` | Return the ratings vector's contents | high (not executed) | Catalogue.GetRateBook | Catalogue.GetRateBookFixed |
| src/lib.rs:101 | The guard `id as usize <= books_len` admits `id == books_len`, and the following `unwrap` panics | One book, `getBook(1)` | `id < books_len`, which refuses with "We Haven't that Book" | high (not executed) | RustContract.GetBook, RustContract.GetBookPastEnd, RustScenarios.GetBookOneTooFar | RustContract.GetBookFixed |
