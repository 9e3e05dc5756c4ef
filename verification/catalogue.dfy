/** The book catalogue contract: a vector of book documents under the prefix
    "books". `AddBook` and `rate` are calls that write it; `getBooks`, `getBook`,
    `getNBooks` and `getRateBook` are views that only read it. */
module Catalogue {
  import opened Encoding
  import opened Outcomes
  import opened JsonValues
  import opened Storage
  import Vectors
  import UnorderedMaps
  import UnorderedMapLaws
  import opened BookModels
  import opened TextLengths

  const MAX_DESCRIPTION_LENGTH: int := 255
  const MAX_BOOKPAGE_LENGTH: int := 1200
  const BOOKS_PREFIX: string := "books"

  const ISBN_REQUIRED: string := "the ISBN is required"
  const NAME_REQUIRED: string := "the name is required"
  const DESCRIPTION_INVALID: string := "the description is required or you exceed the character's number"
  const NUMPAGE_INVALID: string := "the numpage is required or you exceed the page's number"
  const AUTHOR_REQUIRED: string := "the author is required"
  const DATEPUBLISHED_REQUIRED: string := "the datepublished is required"
  const EDITIONS_REQUIRED: string := "the editions is required"
  const NEGATIVE_ID: string := "id cannot be negative"
  const NO_BOOKS: string := "we haven't any Books"
  const NO_SUCH_BOOK: string := "we haven't that Book"

  /** The contract's state: the record of its books vector. */
  datatype Contract = Contract(books: Vectors.Vector)

  /** The state and store after a call that returns nothing. */
  datatype Called = Called(contract: Contract, store: Store)

  /** A call's return value and the store after it. */
  datatype Returned = Returned(value: Json, store: Store)

  /** The constructor: an empty book vector under the books prefix, whatever the
      store holds. */
  function Init(): (c: Contract)
    ensures c.books.prefix == BOOKS_PREFIX
    ensures forall st :: Vectors.Valid(c.books, st) && Vectors.View(c.books, st) == []
  {
    Contract(Vectors.New(BOOKS_PREFIX))
  }

  /** near-sdk-js `assert`: an error carrying the message when the condition fails. */
  function Require(cond: bool, message: string): (r: Result<()>)
    ensures r.Ok? <==> cond
    ensures r.Err? ==> r.error == AssertionFailed(message)
  {
    if cond then Ok(()) else Err(AssertionFailed(message))
  }

  /** The fields `AddBook` accepts. Lengths are JavaScript's, in UTF-16 code
      units; a string is empty under that measure exactly when it has no characters. */
  predicate Admissible(a: BookArgs) {
    && |a.isbn| > 0
    && |a.name| > 0
    && 0 < Utf16Length(a.description) < MAX_DESCRIPTION_LENGTH
    && 0 < a.numpage < MAX_BOOKPAGE_LENGTH
    && |a.author| > 0
    && |a.datepublished| > 0
    && a.editions > 0
  }

  /** The seven guards of `AddBook`, in order: the first one that fails names its field. */
  function CheckBook(a: BookArgs): (r: Result<()>)
    ensures r.Ok? <==> Admissible(a)
    ensures |a.isbn| == 0 ==> r == Err(AssertionFailed(ISBN_REQUIRED))
    ensures |a.isbn| > 0 && |a.name| == 0 ==> r == Err(AssertionFailed(NAME_REQUIRED))
    ensures |a.isbn| > 0 && |a.name| > 0 && !(0 < Utf16Length(a.description) < MAX_DESCRIPTION_LENGTH) ==>
              r == Err(AssertionFailed(DESCRIPTION_INVALID))
    ensures (|a.isbn| > 0 && |a.name| > 0 && 0 < Utf16Length(a.description) < MAX_DESCRIPTION_LENGTH
             && !(0 < a.numpage < MAX_BOOKPAGE_LENGTH)) ==> r == Err(AssertionFailed(NUMPAGE_INVALID))
    ensures (|a.isbn| > 0 && |a.name| > 0 && 0 < Utf16Length(a.description) < MAX_DESCRIPTION_LENGTH
             && 0 < a.numpage < MAX_BOOKPAGE_LENGTH && |a.author| == 0) ==> r == Err(AssertionFailed(AUTHOR_REQUIRED))
    ensures (|a.isbn| > 0 && |a.name| > 0 && 0 < Utf16Length(a.description) < MAX_DESCRIPTION_LENGTH
             && 0 < a.numpage < MAX_BOOKPAGE_LENGTH && |a.author| > 0 && |a.datepublished| == 0) ==>
              r == Err(AssertionFailed(DATEPUBLISHED_REQUIRED))
    ensures (|a.isbn| > 0 && |a.name| > 0 && 0 < Utf16Length(a.description) < MAX_DESCRIPTION_LENGTH
             && 0 < a.numpage < MAX_BOOKPAGE_LENGTH && |a.author| > 0 && |a.datepublished| > 0 && a.editions <= 0) ==>
              r == Err(AssertionFailed(EDITIONS_REQUIRED))
  {
    var _ :- Require(|a.isbn| > 0, ISBN_REQUIRED);
    var _ :- Require(|a.name| > 0, NAME_REQUIRED);
    var _ :- Require(Utf16Length(a.description) > 0 && Utf16Length(a.description) < MAX_DESCRIPTION_LENGTH, DESCRIPTION_INVALID);
    var _ :- Require(a.numpage > 0 && a.numpage < MAX_BOOKPAGE_LENGTH, NUMPAGE_INVALID);
    var _ :- Require(|a.author| > 0, AUTHOR_REQUIRED);
    var _ :- Require(|a.datepublished| > 0, DATEPUBLISHED_REQUIRED);
    Require(a.editions > 0, EDITIONS_REQUIRED)
  }

  /** `AddBook`: after the guards, constructs a book with the next id, owned by the
      signer (who is also the key of its first comment), and pushes its document. */
  function AddBook(c: Contract, st: Store, signer: string, timestamp: int, a: BookArgs): (r: Result<Called>)
    ensures !Admissible(a) ==> r == Err(CheckBook(a).error)
    ensures Admissible(a) ==> (r.Ok? <==> !UnorderedMaps.IndexPresent(Read(st, CommentLookup(signer))))
    ensures r.Ok? ==> r.value.contract.books == Vectors.Vector(c.books.prefix, c.books.length + 1)
  {
    var _ :- CheckBook(a);
    var created :- NewBook(st, signer, c.books.length, signer, a, timestamp);
    var pushed := Vectors.Push(c.books, created.store, BookDocument(created.book));
    Ok(Called(Contract(pushed.vec), pushed.store))
  }

  /** The book `AddBook` constructs when the store held no comments yet. */
  function FreshBook(id: int, signer: string, a: BookArgs, timestamp: int): BookInformation {
    BookInformation(id, signer, a, Vectors.New(RATES_PREFIX), FirstComments(), timestamp)
  }

  /** The keys `AddBook` writes: the first comment's three, and the new book's slot. */
  function AddBookTouches(signer: string, id: int): set<string> {
    FirstCommentKeys(signer) + {Vectors.IndexToKey(BOOKS_PREFIX, id)}
  }

  /** The comment keys live under "v", which no book slot starts with. */
  lemma CommentKeysOutsideBooks(signer: string)
    ensures Outside(FirstCommentKeys(signer), BOOKS_PREFIX)
  {
    forall key | key in FirstCommentKeys(signer)
      ensures |key| > 0 && key[0] == 'v'
    {
      if key != CommentLookup(signer) {
        assert key == Vectors.IndexToKey("vk", 0) || key == Vectors.IndexToKey("vv", 0);
        assert key[..2] == "vk" || key[..2] == "vv";
      }
    }
  }

  /** On a consistent catalogue where the signer has no comment lookup entry yet
      (the condition under which `AddBook` of admissible fields succeeds), `AddBook`
      appends the new book's document, with id the old count; the earlier books
      stay as they were, and only the first comment's three keys and the new
      book's slot are written. */
  lemma AddBookAppends(c: Contract, st: Store, signer: string, timestamp: int, a: BookArgs)
    requires c.books.prefix == BOOKS_PREFIX && Vectors.Valid(c.books, st) && c.books.length < U32_LIMIT
    requires Admissible(a) && !UnorderedMaps.IndexPresent(Read(st, CommentLookup(signer)))
    ensures var r := AddBook(c, st, signer, timestamp, a);
      && r.Ok?
      && var book := FreshBook(c.books.length, signer, a, timestamp);
      && var after := r.value.contract.books;
      && GetNBooks(r.value.contract) == GetNBooks(c) + 1
      && Vectors.Valid(after, r.value.store)
      && Vectors.View(after, r.value.store) == Vectors.View(c.books, st) + [BookDocument(book)]
      && Vectors.View(after, r.value.store)[..c.books.length] == Vectors.View(c.books, st)
      && GetBook(r.value.contract, r.value.store, c.books.length) == Ok(BookDocument(book))
      && SameExcept(st, r.value.store, AddBookTouches(signer, c.books.length))
  {
    var n := c.books.length;
    NewBookWrites(st, signer, n, signer, a, timestamp);
    var created := NewBook(st, signer, n, signer, a, timestamp).value;
    assert created.book == FreshBook(n, signer, a, timestamp);
    CommentKeysOutsideBooks(signer);
    Vectors.ViewOutside(c.books, st, created.store, FirstCommentKeys(signer));
    Vectors.PushAppends(c.books, created.store, BookDocument(created.book));
    var pushed := Vectors.Push(c.books, created.store, BookDocument(created.book));
    SameExceptTrans(st, created.store, pushed.store, FirstCommentKeys(signer), {Vectors.IndexToKey(BOOKS_PREFIX, n)});
    var view := Vectors.View(pushed.vec, pushed.store);
    assert view == Vectors.View(c.books, st) + [BookDocument(created.book)];
    assert view[..n] == Vectors.View(c.books, st);
  }

  /** Whenever `AddBook` succeeds it writes the signer's lookup entry, at index 0,
      and names the signer in the first key slot of the shared comments map. */
  lemma AddBookCommentWrites(c: Contract, st: Store, signer: string, timestamp: int, a: BookArgs)
    requires c.books.prefix == BOOKS_PREFIX
    requires Admissible(a) && !UnorderedMaps.IndexPresent(Read(st, CommentLookup(signer)))
    ensures var r := AddBook(c, st, signer, timestamp, a);
      && r.Ok?
      && Read(r.value.store, CommentLookup(signer)) == Some(Raw(UnorderedMaps.SerializeIndex(0)))
      && Read(r.value.store, Vectors.IndexToKey(COMMENTS_PREFIX + "k", 0)) == Some(Text(Str(signer)))
  {
    NewBookWrites(st, signer, c.books.length, signer, a, timestamp);
    var bslot := Vectors.IndexToKey(BOOKS_PREFIX, c.books.length);
    var kslot := Vectors.IndexToKey(COMMENTS_PREFIX + "k", 0);
    assert bslot[..5] == BOOKS_PREFIX && kslot[..2] == "vk" && CommentLookup(signer)[0] == 'v';
  }

  /** When the store holds no comments yet, the new book's comments map is
      consistent after `AddBook` and holds only its first comment. */
  lemma AddBookFirstComments(c: Contract, st: Store, signer: string, timestamp: int, a: BookArgs)
    requires c.books.prefix == BOOKS_PREFIX
    requires Admissible(a) && UnorderedMaps.Inv(FreshComments(), st)
    ensures var r := AddBook(c, st, signer, timestamp, a);
      && r.Ok?
      && UnorderedMaps.Inv(FirstComments(), r.value.store)
      && UnorderedMaps.Entries(FirstComments(), r.value.store) == map[signer := Str(FIRST_COMMENT)]
  {
    var n := c.books.length;
    NewBookComments(st, signer, n, signer, a, timestamp);
    var created := NewBook(st, signer, n, signer, a, timestamp).value;
    var pushed := Vectors.Push(c.books, created.store, BookDocument(created.book));
    var slot := Vectors.IndexToKey(BOOKS_PREFIX, n);
    assert slot[..5] == BOOKS_PREFIX;
    assert Outside({slot}, COMMENTS_PREFIX) by {
      assert slot[0] == 'b';
    }
    UnorderedMapLaws.OutsideFrame(FirstComments(), created.store, pushed.store, {slot});
  }

  /** When the signer already has a lookup entry in the shared comments map, the
      constructor's first comment replaces at that index in the new book's empty
      values vector, and `AddBook` fails with the vector's out-of-bounds error. */
  lemma AddBookRepeatedSigner(c: Contract, st: Store, signer: string, timestamp: int, a: BookArgs, i: u32)
    requires Admissible(a)
    requires Read(st, CommentLookup(signer)) == Some(Raw(UnorderedMaps.SerializeIndex(i)))
    ensures AddBook(c, st, signer, timestamp, a) == Err(IndexOutOfBounds)
  {
    NewBookRepeatedOwner(st, signer, c.books.length, signer, a, timestamp, i);
  }

  /** `getBooks`: every stored book document, in id order. */
  method GetBooks(c: Contract, st: Store) returns (r: Result<seq<Json>>)
    ensures Vectors.Valid(c.books, st) ==> r == Ok(Vectors.View(c.books, st)) && |r.value| == GetNBooks(c)
    ensures r.Err? ==> r.error == Malformed
  {
    r := Vectors.ToArray(c.books, st);
  }

  /** `getBook`: the document of book `id`, after three guards. */
  function GetBook(c: Contract, st: Store, id: int): (r: Result<Json>)
    ensures id < 0 ==> r == Err(AssertionFailed(NEGATIVE_ID))
    ensures 0 <= id && c.books.length == 0 ==> r == Err(AssertionFailed(NO_BOOKS))
    ensures 0 < c.books.length <= id ==> r == Err(AssertionFailed(NO_SUCH_BOOK))
    ensures Vectors.Valid(c.books, st) ==> (r.Ok? <==> 0 <= id < c.books.length)
    ensures Vectors.Valid(c.books, st) && 0 <= id < c.books.length ==> r == Ok(Vectors.View(c.books, st)[id])
  {
    var _ :- Require(id >= 0, NEGATIVE_ID);
    var _ :- Require(c.books.length > 0, NO_BOOKS);
    var _ :- Require(id <= c.books.length - 1, NO_SUCH_BOOK);
    Vectors.Get(c.books, st, id)
  }

  /** `getNBooks`: the books vector's length. */
  function GetNBooks(c: Contract): (n: nat)
    ensures forall st | Vectors.Valid(c.books, st) :: n == |Vectors.View(c.books, st)|
    ensures forall st, id | Vectors.Valid(c.books, st) :: GetBook(c, st, id).Ok? <==> 0 <= id < n
  {
    c.books.length
  }

  /** Whether a parsed book's `rates` member is a JSON array: the one parsed value
      that has a `push` method. */
  predicate RatesIsArray(book: Json) {
    Member(book, "rates").Some? && Member(book, "rates").value.Arr?
  }

  /** `rate` as written: past the guard, `book.rates.push(...)` is called on the
      parsed document. Only an array has `push`: it takes the rating's record, and
      the book is written back in place and returned. Any other `rates`, such as
      the vector record every book `AddBook` stores, makes the call a type error. */
  function Rate(c: Contract, st: Store, signer: string, id: int, valor: int): (r: Result<Returned>)
    ensures id >= c.books.length ==> r == Err(AssertionFailed(NO_SUCH_BOOK))
    ensures Vectors.Valid(c.books, st) && 0 <= id < c.books.length && !RatesIsArray(Vectors.View(c.books, st)[id]) ==>
              r == Err(TypeError)
    ensures r.Ok? ==>
      && id < c.books.length
      && Member(r.value.value, "rates").Some?
      && var rates := Member(r.value.value, "rates").value;
      && rates.Arr? && |rates.items| > 0 && rates.items[|rates.items| - 1] == RateDocument(RatingOf(signer, id, valor))
  {
    var _ :- Require(id < c.books.length, NO_SUCH_BOOK);
    var book :- Vectors.Get(c.books, st, id);
    if !RatesIsArray(book) then Err(TypeError)
    else
      var items := Member(book, "rates").value.items;
      var updated := SetMember(book, "rates", Arr(items + [RateDocument(RatingOf(signer, id, valor))]));
      match Vectors.Replace(c.books, st, id, updated)
      case Ok(replaced) => Ok(Returned(updated, replaced.store))
      case Err(e) => Err(e)
  }

  /** On every book document `AddBook` stores, `rate` as written is a type error:
      its `rates` member is a vector's record, not an array. */
  lemma RateOnStoredBook(c: Contract, st: Store, signer: string, id: int, valor: int, b: BookInformation)
    requires Vectors.Valid(c.books, st) && 0 <= id < c.books.length
    requires Vectors.View(c.books, st)[id] == BookDocument(b)
    ensures Rate(c, st, signer, id, valor) == Err(TypeError)
  {
    BookDocumentRates(b);
  }

  /** On a stored document whose `rates` is an array, `rate` as written appends the
      rating's record to the array, writes the document back into the book's slot
      only, and returns it. */
  lemma RateOnArrayRates(c: Contract, st: Store, signer: string, id: int, valor: int)
    requires Vectors.Valid(c.books, st) && 0 <= id < c.books.length
    requires RatesIsArray(Vectors.View(c.books, st)[id])
    ensures var book := Vectors.View(c.books, st)[id];
      var updated := SetMember(book, "rates", Arr(Member(book, "rates").value.items + [RateDocument(RatingOf(signer, id, valor))]));
      var r := Rate(c, st, signer, id, valor);
      && r.Ok?
      && r.value.value == updated
      && Vectors.Valid(c.books, r.value.store)
      && Vectors.View(c.books, r.value.store) == Vectors.View(c.books, st)[id := updated]
      && SameExcept(st, r.value.store, {Vectors.IndexToKey(c.books.prefix, id)})
  {
    var book := Vectors.View(c.books, st)[id];
    var updated := SetMember(book, "rates", Arr(Member(book, "rates").value.items + [RateDocument(RatingOf(signer, id, valor))]));
    Vectors.ReplaceUpdates(c.books, st, id, updated);
  }

  /** A non-negative integer in decimal. */
  function Digits(n: nat): (s: string)
    ensures |s| > 0
    decreases n
  {
    var d := (('0' as int) + n % 10) as char;
    if n < 10 then [d] else Digits(n / 10) + [d]
  }

  /** An integer as a template literal prints it. */
  function Decimal(x: int): string {
    if x < 0 then "-" + Digits(-x) else Digits(x)
  }

  /** The rating `rate` records: keyed by the signer followed by the book id. */
  function RatingOf(signer: string, id: int, valor: int): BookModels.Rate {
    BookModels.Rate(signer + Decimal(id), valor)
  }

  /** `rate` as evidently intended: the book's ratings vector is rebuilt from its
      record (as `Vector.deserialize` does), the rating pushed onto it, and the
      book document, with the grown vector's record, written back in place.
      A document without a ratings record is handled as the code is written. */
  function RateFixed(c: Contract, st: Store, signer: string, id: int, valor: int): (r: Result<Returned>)
    ensures id >= c.books.length ==> r == Err(AssertionFailed(NO_SUCH_BOOK))
    ensures r.Ok? ==> id < c.books.length && r.value.value.Obj?
  {
    var _ :- Require(id < c.books.length, NO_SUCH_BOOK);
    var book :- Vectors.Get(c.books, st, id);
    if RatesOf(book).None? then Rate(c, st, signer, id, valor)
    else
      var pushed := Vectors.Push(RatesOf(book).value, st, RateDocument(RatingOf(signer, id, valor)));
      var updated := SetMember(book, "rates", Vectors.Document(pushed.vec));
      var replaced :- Vectors.Replace(c.books, pushed.store, id, updated);
      Ok(Returned(updated, replaced.store))
  }

  /** The grown ratings vector of a rated book. */
  function Rated(b: BookInformation): BookInformation {
    b.(rates := Vectors.Vector(b.rates.prefix, b.rates.length + 1))
  }

  /** Rating a stored book (corrected): the call returns, and stores in the book's
      slot, the document of the book with one more rating; the rating lands in
      the next slot of the book's ratings vector; no other book and no other key
      changes. */
  lemma RateFixedRecords(c: Contract, st: Store, signer: string, id: int, valor: int, b: BookInformation)
    requires Vectors.Valid(c.books, st) && 0 <= id < c.books.length
    requires Vectors.View(c.books, st)[id] == BookDocument(b)
    requires b.rates.prefix != c.books.prefix
    ensures var r := RateFixed(c, st, signer, id, valor);
      && r.Ok?
      && r.value.value == BookDocument(Rated(b))
      && Vectors.Valid(c.books, r.value.store)
      && Vectors.View(c.books, r.value.store) == Vectors.View(c.books, st)[id := BookDocument(Rated(b))]
      && Read(r.value.store, Vectors.IndexToKey(b.rates.prefix, b.rates.length)) == Some(Text(RateDocument(RatingOf(signer, id, valor))))
      && SameExcept(st, r.value.store, {Vectors.IndexToKey(c.books.prefix, id), Vectors.IndexToKey(b.rates.prefix, b.rates.length)})
  {
    var rating := RateDocument(RatingOf(signer, id, valor));
    var replaced := RatedBookStored(c, st, id, b, rating);
    RateFixedUnfolds(c, st, signer, id, valor, b);
  }

  /** The store work of a corrected rating, apart from the call that does it: the
      rating is pushed onto the book's ratings vector, then the book slot is
      overwritten with the grown book's document. */
  lemma RatedBookStored(c: Contract, st: Store, id: int, b: BookInformation, rating: Json) returns (replaced: Vectors.Taken)
    requires Vectors.Valid(c.books, st) && 0 <= id < c.books.length
    requires b.rates.prefix != c.books.prefix
    ensures var pushed := Vectors.Push(b.rates, st, rating);
      && Vectors.Replace(c.books, pushed.store, id, BookDocument(Rated(b))) == Ok(replaced)
      && Vectors.Valid(c.books, replaced.store)
      && Vectors.View(c.books, replaced.store) == Vectors.View(c.books, st)[id := BookDocument(Rated(b))]
      && Read(replaced.store, Vectors.IndexToKey(b.rates.prefix, b.rates.length)) == Some(Text(rating))
      && SameExcept(st, replaced.store, {Vectors.IndexToKey(c.books.prefix, id), Vectors.IndexToKey(b.rates.prefix, b.rates.length)})
  {
    var rslot := Vectors.IndexToKey(b.rates.prefix, b.rates.length);
    var bslot := Vectors.IndexToKey(c.books.prefix, id);
    var pushed := Vectors.Push(b.rates, st, rating);
    forall i | 0 <= i < c.books.length
      ensures Vectors.IndexToKey(c.books.prefix, i) !in {rslot}
    {
      SlotsOfOtherPrefix(c.books.prefix, b.rates.prefix, i, b.rates.length);
    }
    Vectors.ViewUntouched(c.books, st, pushed.store, {rslot});
    Vectors.ReplaceUpdates(c.books, pushed.store, id, BookDocument(Rated(b)));
    replaced := Vectors.Replace(c.books, pushed.store, id, BookDocument(Rated(b))).value;
    SlotsOfOtherPrefix(c.books.prefix, b.rates.prefix, id, b.rates.length);
    SameExceptTrans(st, pushed.store, replaced.store, {rslot}, {bslot});
  }

  /** On a stored book document, the corrected rating pushes onto the book's own
      ratings vector and writes back the document of the grown book. */
  lemma RateFixedUnfolds(c: Contract, st: Store, signer: string, id: int, valor: int, b: BookInformation)
    requires Vectors.Valid(c.books, st) && 0 <= id < c.books.length
    requires Vectors.View(c.books, st)[id] == BookDocument(b)
    requires var pushed := Vectors.Push(b.rates, st, RateDocument(RatingOf(signer, id, valor)));
      Vectors.Replace(c.books, pushed.store, id, BookDocument(Rated(b))).Ok?
    ensures var pushed := Vectors.Push(b.rates, st, RateDocument(RatingOf(signer, id, valor)));
      RateFixed(c, st, signer, id, valor)
        == Ok(Returned(BookDocument(Rated(b)), Vectors.Replace(c.books, pushed.store, id, BookDocument(Rated(b))).value.store))
  {
    BookDocumentRates(b);
    assert Vectors.Get(c.books, st, id) == Ok(BookDocument(b));
    var pushed := Vectors.Push(b.rates, st, RateDocument(RatingOf(signer, id, valor)));
    assert pushed.vec == Rated(b).rates;
    BookDocumentWithRates(b, pushed.vec);
  }

  /** Rating a stored book (corrected) whose ratings vector is intact grows that
      vector by exactly the new rating. */
  lemma RateFixedGrowsRatings(c: Contract, st: Store, signer: string, id: int, valor: int, b: BookInformation)
    requires Vectors.Valid(c.books, st) && 0 <= id < c.books.length
    requires Vectors.View(c.books, st)[id] == BookDocument(b)
    requires b.rates.prefix != c.books.prefix
    requires Vectors.Valid(b.rates, st) && b.rates.length < U32_LIMIT
    ensures var r := RateFixed(c, st, signer, id, valor);
      && r.Ok?
      && Vectors.Valid(Rated(b).rates, r.value.store)
      && Vectors.View(Rated(b).rates, r.value.store) == Vectors.View(b.rates, st) + [RateDocument(RatingOf(signer, id, valor))]
  {
    RateFixedRecords(c, st, signer, id, valor, b);
    forall i | 0 <= i < b.rates.length
      ensures Vectors.IndexToKey(b.rates.prefix, i) != Vectors.IndexToKey(c.books.prefix, id)
    {
      SlotsOfOtherPrefix(c.books.prefix, b.rates.prefix, id, i);
    }
    RatingsGrow(b.rates, st, RateFixed(c, st, signer, id, valor).value.store,
                Vectors.IndexToKey(c.books.prefix, id), RateDocument(RatingOf(signer, id, valor)));
  }

  /** A ratings vector grows by `e` in a store that changes only its next slot,
      which now holds `e`, and one key that is no slot of it. */
  lemma RatingsGrow(rates: Vectors.Vector, st: Store, after: Store, other: string, e: Json)
    requires Vectors.Valid(rates, st) && rates.length < U32_LIMIT
    requires SameExcept(st, after, {other, Vectors.IndexToKey(rates.prefix, rates.length)})
    requires forall i | 0 <= i < rates.length :: Vectors.IndexToKey(rates.prefix, i) != other
    requires Read(after, Vectors.IndexToKey(rates.prefix, rates.length)) == Some(Text(e))
    ensures Vectors.Valid(Vectors.Vector(rates.prefix, rates.length + 1), after)
    ensures Vectors.View(Vectors.Vector(rates.prefix, rates.length + 1), after) == Vectors.View(rates, st) + [e]
  {
    forall i | 0 <= i < rates.length
      ensures Read(after, Vectors.IndexToKey(rates.prefix, i)) == Read(st, Vectors.IndexToKey(rates.prefix, i))
    {
      Vectors.IndexToKeyInjective(rates.prefix, rates.prefix, i, rates.length);
    }
    Vectors.ViewExtended(rates, st, after, e);
  }

  /** Slots under different prefixes never coincide: a slot key is its prefix
      followed by exactly four bytes. */
  lemma SlotsOfOtherPrefix(p: string, q: string, i: int, j: int)
    requires p != q
    ensures Vectors.IndexToKey(p, i) != Vectors.IndexToKey(q, j)
  {
    var x := Vectors.IndexToKey(p, i);
    var y := Vectors.IndexToKey(q, j);
    if |p| == |q| {
      assert x[..|p|] == p && y[..|q|] == q;
    }
  }

  /** `getRateBook` as written: past the guards, `rates` of the parsed document is a
      vector's record without a `toArray` method, so the view always ends in a
      type error. */
  function GetRateBook(c: Contract, st: Store, id: int): (r: Result<seq<Json>>)
    ensures c.books.length == 0 ==> r == Err(AssertionFailed(NO_BOOKS))
    ensures 0 < c.books.length <= id ==> r == Err(AssertionFailed(NO_SUCH_BOOK))
    ensures Vectors.Valid(c.books, st) && 0 <= id < c.books.length ==> r == Err(TypeError)
    ensures r.Err?
  {
    var _ :- Require(c.books.length > 0, NO_BOOKS);
    var _ :- Require(id <= c.books.length - 1, NO_SUCH_BOOK);
    var book :- Vectors.Get(c.books, st, id);
    Err(TypeError)
  }

  /** `getRateBook` as evidently intended: the ratings of book `id`, read through
      its ratings vector rebuilt from the stored record. */
  method GetRateBookFixed(c: Contract, st: Store, id: int) returns (r: Result<seq<Json>>)
    ensures c.books.length == 0 ==> r == Err(AssertionFailed(NO_BOOKS))
    ensures 0 < c.books.length <= id ==> r == Err(AssertionFailed(NO_SUCH_BOOK))
    ensures Vectors.Valid(c.books, st) && 0 <= id < c.books.length ==>
      var rates := RatesOf(Vectors.View(c.books, st)[id]);
      && (rates.None? ==> r == Err(TypeError))
      && (rates.Some? && Vectors.Valid(rates.value, st) ==> r == Ok(Vectors.View(rates.value, st)))
  {
    if c.books.length <= 0 {
      return Err(AssertionFailed(NO_BOOKS));
    }
    if id > c.books.length - 1 {
      return Err(AssertionFailed(NO_SUCH_BOOK));
    }
    var book := Vectors.Get(c.books, st, id);
    if book.Err? {
      return Err(book.error);
    }
    var rates := RatesOf(book.value);
    if rates.None? {
      return Err(TypeError);
    }
    r := Vectors.ToArray(rates.value, st);
  }
}
