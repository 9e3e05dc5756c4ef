/** The Rust version of the catalogue contract: the books are one vector held
    in the contract's state. A failed `assert!` or `unwrap` panics and aborts the
    call, so an `Err` leaves the state as it was. */
module RustContract {
  import opened Outcomes
  import opened TextLengths
  import opened RustModel

  const MAX_DESCRIPTION_LENGTH: int := 255
  const MAX_BOOKPAGE_LENGTH: int := 1200

  const ISBN_REQUIRED: string := "The ISBN is required."
  const NAME_REQUIRED: string := "The name is required."
  const DESCRIPTION_REQUIRED: string := "The description is required."
  const DESCRIPTION_TOO_LONG: string := "Exceeded character's number."
  const NUMPAGE_REQUIRED: string := "The numpage is required."
  const NUMPAGE_TOO_LARGE: string := "Exceeded page quantity."
  const AUTHOR_REQUIRED: string := "The author is required."
  const DATEPUBLISHED_REQUIRED: string := "The datepublished is required."
  const EDITIONS_REQUIRED: string := "The editions is required."
  const NO_BOOKS: string := "We haven't any Books"
  const NEGATIVE_ID: string := "ID must be positive"
  const NO_SUCH_BOOK: string := "We Haven't that Book"
  /** The panic message of `Option::unwrap` on `None`. */
  const UNWRAP_NONE: string := "called `Option::unwrap()` on a `None` value"

  const I32_MIN: int := -0x8000_0000
  const I32_LIMIT: int := 0x8000_0000

  type i32 = x: int | I32_MIN <= x < I32_LIMIT

  datatype Contract = Contract(books: seq<BookInformation>)

  /** The derived `Default`: no books. */
  function Default(): (r: Contract)
    ensures GetNBooks(r) == 0
    ensures forall id: i32 :: GetBook(r, id) == Err(Panic(NO_BOOKS))
  {
    Contract([])
  }

  /** The arguments of `AddBook`. */
  datatype BookArgs = BookArgs(
    isbn: string,
    name: string,
    description: string,
    numpage: u64,
    author: string,
    datepublished: string,
    editions: u64)

  /** `assert!`: a panic carrying the message when the condition fails. */
  function Require(cond: bool, message: string): (r: Result<()>)
    ensures r.Ok? <==> cond
    ensures r.Err? ==> r.error == Panic(message)
  {
    if cond then Ok(()) else Err(Panic(message))
  }

  /** The description guards pass: lengths are Rust's, in UTF-8 bytes. */
  predicate DescriptionFits(a: BookArgs) {
    0 < Utf8Length(a.description) < MAX_DESCRIPTION_LENGTH
  }

  predicate PagesFit(a: BookArgs) {
    0 < a.numpage < MAX_BOOKPAGE_LENGTH
  }

  /** The fields `AddBook` accepts. */
  predicate Admissible(a: BookArgs) {
    && |a.isbn| > 0
    && |a.name| > 0
    && DescriptionFits(a)
    && PagesFit(a)
    && |a.author| > 0
    && |a.datepublished| > 0
    && a.editions > 0
  }

  /** The nine guards of `AddBook`, in order: the first that fails is the panic. */
  function CheckBook(a: BookArgs): (r: Result<()>)
    ensures r.Ok? <==> Admissible(a)
    ensures |a.isbn| == 0 ==> r == Err(Panic(ISBN_REQUIRED))
    ensures |a.isbn| > 0 && |a.name| == 0 ==> r == Err(Panic(NAME_REQUIRED))
    ensures (|a.isbn| > 0 && |a.name| > 0 && |a.description| == 0) ==> r == Err(Panic(DESCRIPTION_REQUIRED))
    ensures (|a.isbn| > 0 && |a.name| > 0 && |a.description| > 0 && Utf8Length(a.description) >= MAX_DESCRIPTION_LENGTH) ==>
              r == Err(Panic(DESCRIPTION_TOO_LONG))
    ensures (|a.isbn| > 0 && |a.name| > 0 && DescriptionFits(a) && a.numpage == 0) ==> r == Err(Panic(NUMPAGE_REQUIRED))
    ensures (|a.isbn| > 0 && |a.name| > 0 && DescriptionFits(a) && a.numpage >= MAX_BOOKPAGE_LENGTH) ==>
              r == Err(Panic(NUMPAGE_TOO_LARGE))
    ensures (|a.isbn| > 0 && |a.name| > 0 && DescriptionFits(a) && PagesFit(a) && |a.author| == 0) ==>
              r == Err(Panic(AUTHOR_REQUIRED))
    ensures (|a.isbn| > 0 && |a.name| > 0 && DescriptionFits(a) && PagesFit(a) && |a.author| > 0
             && |a.datepublished| == 0) ==> r == Err(Panic(DATEPUBLISHED_REQUIRED))
    ensures (|a.isbn| > 0 && |a.name| > 0 && DescriptionFits(a) && PagesFit(a) && |a.author| > 0
             && |a.datepublished| > 0 && a.editions == 0) ==> r == Err(Panic(EDITIONS_REQUIRED))
  {
    var _ :- Require(Utf8Length(a.isbn) > 0, ISBN_REQUIRED);
    var _ :- Require(Utf8Length(a.name) > 0, NAME_REQUIRED);
    var _ :- Require(Utf8Length(a.description) > 0, DESCRIPTION_REQUIRED);
    var _ :- Require(Utf8Length(a.description) < MAX_DESCRIPTION_LENGTH, DESCRIPTION_TOO_LONG);
    var _ :- Require(a.numpage > 0, NUMPAGE_REQUIRED);
    var _ :- Require(a.numpage < MAX_BOOKPAGE_LENGTH, NUMPAGE_TOO_LARGE);
    var _ :- Require(Utf8Length(a.author) > 0, AUTHOR_REQUIRED);
    var _ :- Require(Utf8Length(a.datepublished) > 0, DATEPUBLISHED_REQUIRED);
    Require(a.editions > 0, EDITIONS_REQUIRED)
  }

  /** The book `AddBook` appends: id the current count, owned by the signer. */
  function Appended(c: Contract, signer: string, timestamp: u64, a: BookArgs): BookInformation
    requires |c.books| < U64_LIMIT
  {
    NewBook(signer, |c.books|, a.isbn, a.name, a.description, a.numpage, a.author, a.datepublished, a.editions, timestamp)
  }

  /** `AddBook`: after the guards, appends a new book whose id is the number of
      books before it. The count of books is taken to fit a `u64`. */
  function AddBook(c: Contract, signer: string, timestamp: u64, a: BookArgs): (r: Result<Contract>)
    requires |c.books| < U64_LIMIT
    ensures r.Ok? <==> Admissible(a)
    ensures r.Err? ==> r == Err(CheckBook(a).error)
    ensures r.Ok? ==> |r.value.books| == |c.books| + 1 && r.value.books[..|c.books|] == c.books
  {
    var _ :- CheckBook(a);
    Ok(Contract(c.books + [Appended(c, signer, timestamp, a)]))
  }

  /** Every book `AddBook` stores has its position as its id. */
  ghost predicate IdsArePositions(c: Contract) {
    forall i | 0 <= i < |c.books| :: c.books[i].id == i
  }

  /** `AddBook` keeps ids equal to positions, and the new book is found at its id
      with the caller's fields, the signer as owner, and nothing rated or said. */
  lemma AddBookKeepsIds(c: Contract, signer: string, timestamp: u64, a: BookArgs)
    requires |c.books| < U64_LIMIT && IdsArePositions(c) && Admissible(a)
    ensures var r := AddBook(c, signer, timestamp, a);
      && r.Ok?
      && IdsArePositions(r.value)
      && var b := r.value.books[|c.books|];
      && b.id == |c.books| && b.owner == signer && b.timestamp == timestamp
      && (b.isbn, b.name, b.description, b.numpage) == (a.isbn, a.name, a.description, a.numpage)
      && (b.author, b.datepublished, b.editions) == (a.author, a.datepublished, a.editions)
      && b.rates == [] && b.comments == map[]
      && (|c.books| < I32_LIMIT ==> GetBook(r.value, |c.books| as i32) == Ok(b))
  {
    var r := AddBook(c, signer, timestamp, a).value;
    assert r.books == c.books + [Appended(c, signer, timestamp, a)];
    forall i | 0 <= i < |r.books|
      ensures r.books[i].id == i
    {
      if i < |c.books| {
        assert r.books[i] == c.books[i];
      }
    }
  }

  /** `getBooks`: a copy of every book, in order, built by cloning one at a time. */
  method GetBooks(c: Contract) returns (result: seq<BookInformation>)
    ensures result == c.books
  {
    result := [];
    var i := 0;
    while i < |c.books|
      invariant 0 <= i <= |c.books|
      invariant result == c.books[..i]
    {
      result := result + [c.books[i]];
      i := i + 1;
    }
  }

  /** `getBook` as written: the third guard admits an id equal to the number of
      books, and that id panics in the `unwrap` instead. */
  function GetBook(c: Contract, id: i32): (r: Result<BookInformation>)
    ensures |c.books| == 0 ==> r == Err(Panic(NO_BOOKS))
    ensures |c.books| > 0 && id < 0 ==> r == Err(Panic(NEGATIVE_ID))
    ensures r.Ok? <==> 0 <= id < |c.books|
    ensures r.Ok? ==> r.value == c.books[id]
    ensures |c.books| > 0 && id > |c.books| ==> r == Err(Panic(NO_SUCH_BOOK))
  {
    var _ :- Require(|c.books| > 0, NO_BOOKS);
    var _ :- Require(id >= 0, NEGATIVE_ID);
    var _ :- Require(id <= |c.books|, NO_SUCH_BOOK);
    if id < |c.books| then Ok(c.books[id]) else Err(Panic(UNWRAP_NONE))
  }

  /** The off-by-one of `getBook`: with `n` books, id `n` passes the guard meant to
      reject it and panics in the `unwrap`, not with the guard's message. */
  lemma GetBookPastEnd(c: Contract)
    requires 0 < |c.books| < I32_LIMIT
    ensures GetBook(c, |c.books| as i32) == Err(Panic(UNWRAP_NONE))
    ensures GetBookFixed(c, |c.books| as i32) == Err(Panic(NO_SUCH_BOOK))
  {
  }

  /** `getBook` with the third guard as evidently intended, `id < len`: every id
      out of range is refused by a guard, with that guard's message. */
  function GetBookFixed(c: Contract, id: i32): (r: Result<BookInformation>)
    ensures |c.books| == 0 ==> r == Err(Panic(NO_BOOKS))
    ensures |c.books| > 0 && id < 0 ==> r == Err(Panic(NEGATIVE_ID))
    ensures 0 < |c.books| <= id ==> r == Err(Panic(NO_SUCH_BOOK))
    ensures 0 <= id < |c.books| ==> r == Ok(c.books[id])
  {
    var _ :- Require(|c.books| > 0, NO_BOOKS);
    var _ :- Require(id >= 0, NEGATIVE_ID);
    var _ :- Require(id < |c.books|, NO_SUCH_BOOK);
    Ok(c.books[id])
  }

  /** `getNBooks`: the count of books, which are exactly the ids `getBook` serves. */
  function GetNBooks(c: Contract): (n: nat)
    ensures forall id: i32 :: GetBook(c, id).Ok? <==> 0 <= id < n
  {
    |c.books|
  }
}
