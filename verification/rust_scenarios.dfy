/** The unit tests of the Rust catalogue, as calls on a default contract signed
    by "robert.testnet" at block timestamp 0. */
module RustScenarios {
  import opened Outcomes
  import opened RustModel
  import opened RustContract
  import TextLengths

  const SIGNER: string := "robert.testnet"

  /** The fields every unit test submits unless it empties one. */
  function TestArgs(): BookArgs {
    BookArgs("123-4564-54-4", "Test", "Description test", 123, "juan perez", "marzo 2099", 1)
  }

  lemma TestArgsAdmissible()
    ensures Admissible(TestArgs())
  {
    TextLengths.AsciiLengths(TestArgs().description);
  }

  /** "add_book_correct": the call succeeds and stores one book, id 0, owned by
      the signer. */
  lemma AddBookCorrect()
    ensures var r := AddBook(Default(), SIGNER, 0, TestArgs());
      && r.Ok?
      && GetNBooks(r.value) == 1
      && r.value.books[0].id == 0 && r.value.books[0].owner == SIGNER
  {
    TestArgsAdmissible();
    AddBookKeepsIds(Default(), SIGNER, 0, TestArgs());
  }

  /** The four `should_panic` tests of `AddBook`, each with the message of the
      guard that stops it. */
  lemma AddBookEmptyFields()
    ensures AddBook(Default(), SIGNER, 0, TestArgs().(isbn := "")) == Err(Panic(ISBN_REQUIRED))
    ensures AddBook(Default(), SIGNER, 0, TestArgs().(name := "")) == Err(Panic(NAME_REQUIRED))
    ensures AddBook(Default(), SIGNER, 0, TestArgs().(description := "")) == Err(Panic(DESCRIPTION_REQUIRED))
    ensures AddBook(Default(), SIGNER, 0, TestArgs().(numpage := 0)) == Err(Panic(NUMPAGE_REQUIRED))
  {
    TextLengths.AsciiLengths(TestArgs().description);
  }

  /** "get_book": after two books, id 1 is the second one. */
  lemma GetBookSecond()
    ensures var r1 := AddBook(Default(), SIGNER, 0, TestArgs());
      && r1.Ok?
      && var r2 := AddBook(r1.value, SIGNER, 0, TestArgs());
      && r2.Ok?
      && GetBook(r2.value, 1) == Ok(r2.value.books[1])
      && GetBook(r2.value, 1).value.id == 1
  {
    TestArgsAdmissible();
    AddBookKeepsIds(Default(), SIGNER, 0, TestArgs());
    var c1 := AddBook(Default(), SIGNER, 0, TestArgs()).value;
    AddBookKeepsIds(c1, SIGNER, 0, TestArgs());
  }

  /** "get_book_negative_id" and "get_book_out_of_bounds": on a contract with no
      books both panic, and with the first guard's message, not the one their
      names suggest. */
  lemma GetBookOnEmpty()
    ensures GetBook(Default(), -1) == Err(Panic(NO_BOOKS))
    ensures GetBook(Default(), 1600) == Err(Panic(NO_BOOKS))
  {
  }

  /** The off-by-one on one book: id 1 gets through the guard meant for it. */
  lemma GetBookOneTooFar()
    ensures var r := AddBook(Default(), SIGNER, 0, TestArgs());
      && r.Ok?
      && GetBook(r.value, 1) == Err(Panic(UNWRAP_NONE))
      && GetBookFixed(r.value, 1) == Err(Panic(NO_SUCH_BOOK))
  {
    TestArgsAdmissible();
    GetBookPastEnd(AddBook(Default(), SIGNER, 0, TestArgs()).value);
  }
}
