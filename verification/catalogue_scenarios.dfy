/** Whole invocations of the catalogue contract from a freshly deployed state, as
    the repository's integration tests drive it, and what the shared storage
    prefixes of its books do across several calls. */
module CatalogueScenarios {
  import opened Outcomes
  import opened JsonValues
  import opened Storage
  import Vectors
  import UnorderedMaps
  import opened BookModels
  import opened Catalogue
  import TextLengths

  /** The fields the integration tests submit. */
  function DefaultArgs(): BookArgs {
    BookArgs("123-4564-54-4", "Test", "Description test", 123, "juan perez", "marzo 2099", 1)
  }

  lemma DefaultArgsAdmissible()
    ensures Admissible(DefaultArgs())
  {
    TextLengths.AsciiLengths(DefaultArgs().description);
  }

  /** A deployed contract starts with no books and an empty store. */
  function Deployed(): Contract {
    Init()
  }

  const EMPTY: Store := map[]

  lemma EmptyStore()
    ensures Vectors.Valid(Deployed().books, EMPTY) && Vectors.View(Deployed().books, EMPTY) == []
    ensures UnorderedMaps.Inv(FreshComments(), EMPTY)
  {
    assert UnorderedMaps.KeyList(FreshComments(), EMPTY) == [];
  }

  /** The one consistent comments map with a single entry: its key is the only
      commenter with a lookup entry, at index 0. */
  lemma SoleCommenter(st: Store, s: string, v: Json)
    requires UnorderedMaps.Inv(FirstComments(), st)
    requires UnorderedMaps.Entries(FirstComments(), st) == map[s := v]
    ensures UnorderedMaps.KeyList(FirstComments(), st) == [s]
    ensures Read(st, CommentLookup(s)) == Some(Raw(UnorderedMaps.SerializeIndex(0)))
    ensures forall x | x != s :: Read(st, CommentLookup(x)) == None
  {
    var m := FirstComments();
    var ks := UnorderedMaps.KeyList(m, st);
    assert ks[0] in UnorderedMaps.Entries(m, st);
    forall x
      ensures CommentLookup(x) == UnorderedMaps.LookupKey(m, x)
    {
    }
  }

  /** "AddBook should run fine with these parameters". */
  lemma AddBookRunsFine(signer: string, timestamp: int)
    ensures AddBook(Deployed(), EMPTY, signer, timestamp, DefaultArgs()).Ok?
  {
    EmptyStore();
    DefaultArgsAdmissible();
    AddBookAppends(Deployed(), EMPTY, signer, timestamp, DefaultArgs());
  }

  /** The four rejected submissions of the integration tests, each with the
      message of the guard that stops it. */
  lemma AddBookRejectsEmptyFields(signer: string, timestamp: int)
    ensures AddBook(Deployed(), EMPTY, signer, timestamp, DefaultArgs().(isbn := "")) == Err(AssertionFailed(ISBN_REQUIRED))
    ensures AddBook(Deployed(), EMPTY, signer, timestamp, DefaultArgs().(name := "")) == Err(AssertionFailed(NAME_REQUIRED))
    ensures AddBook(Deployed(), EMPTY, signer, timestamp, DefaultArgs().(description := "")) == Err(AssertionFailed(DESCRIPTION_INVALID))
    ensures AddBook(Deployed(), EMPTY, signer, timestamp, DefaultArgs().(numpage := 0)) == Err(AssertionFailed(NUMPAGE_INVALID))
  {
  }

  /** "getBook should return inserted book", and the two out-of-range ids. */
  lemma GetBookAfterAddBook(signer: string, timestamp: int)
    ensures var r := AddBook(Deployed(), EMPTY, signer, timestamp, DefaultArgs());
      && r.Ok?
      && GetBook(r.value.contract, r.value.store, 0) == Ok(BookDocument(FreshBook(0, signer, DefaultArgs(), timestamp)))
      && Truthy(GetBook(r.value.contract, r.value.store, 0).value)
      && GetBook(r.value.contract, r.value.store, -1) == Err(AssertionFailed(NEGATIVE_ID))
      && GetBook(r.value.contract, r.value.store, 1600) == Err(AssertionFailed(NO_SUCH_BOOK))
  {
    EmptyStore();
    DefaultArgsAdmissible();
    AddBookAppends(Deployed(), EMPTY, signer, timestamp, DefaultArgs());
  }

  /** The state the first `AddBook` leaves on a fresh deployment: one book, and
      only the signer has a lookup entry in the shared comments map, at index 0. */
  lemma FirstBook(signer: string, t: int)
    ensures var r := AddBook(Deployed(), EMPTY, signer, t, DefaultArgs());
      && r.Ok?
      && r.value.contract.books == Vectors.Vector(BOOKS_PREFIX, 1)
      && Vectors.Valid(r.value.contract.books, r.value.store)
      && Vectors.View(r.value.contract.books, r.value.store) == [BookDocument(FreshBook(0, signer, DefaultArgs(), t))]
      && Read(r.value.store, CommentLookup(signer)) == Some(Raw(UnorderedMaps.SerializeIndex(0)))
      && forall x | x != signer :: Read(r.value.store, CommentLookup(x)) == None
  {
    EmptyStore();
    DefaultArgsAdmissible();
    AddBookAppends(Deployed(), EMPTY, signer, t, DefaultArgs());
    AddBookFirstComments(Deployed(), EMPTY, signer, t, DefaultArgs());
    var r := AddBook(Deployed(), EMPTY, signer, t, DefaultArgs()).value;
    SoleCommenter(r.store, signer, Str(FIRST_COMMENT));
  }

  /** The same signer cannot add a second book: every book's comments map lives
      under the one prefix "v", the signer's lookup entry from the first book is
      found, and the second book's empty values vector has no index 0. */
  lemma SecondBookOfSameSignerFails(signer: string, t1: int, t2: int, a: BookArgs)
    requires Admissible(a)
    ensures var r := AddBook(Deployed(), EMPTY, signer, t1, DefaultArgs());
      && r.Ok?
      && AddBook(r.value.contract, r.value.store, signer, t2, a) == Err(IndexOutOfBounds)
  {
    FirstBook(signer, t1);
    var r := AddBook(Deployed(), EMPTY, signer, t1, DefaultArgs()).value;
    AddBookRepeatedSigner(r.contract, r.store, signer, t2, a, 0);
  }

  /** A second signer's book succeeds, but its first comment lands in the same
      slots as the first book's: both documents hold the same comments record,
      whose only key is now the second signer, while the first signer's lookup
      entry is left behind, so the map no longer satisfies its invariant. */
  lemma SecondSignerTakesOverComments(s1: string, s2: string, t1: int, t2: int)
    requires s1 != s2
    ensures var r1 := AddBook(Deployed(), EMPTY, s1, t1, DefaultArgs());
      && r1.Ok?
      && var r2 := AddBook(r1.value.contract, r1.value.store, s2, t2, DefaultArgs());
      && r2.Ok?
      && Vectors.Valid(r2.value.contract.books, r2.value.store)
      && Vectors.View(r2.value.contract.books, r2.value.store)
           == [BookDocument(FreshBook(0, s1, DefaultArgs(), t1)), BookDocument(FreshBook(1, s2, DefaultArgs(), t2))]
      && Read(r2.value.store, Vectors.IndexToKey(COMMENTS_PREFIX + "k", 0)) == Some(Text(Str(s2)))
      && Read(r2.value.store, CommentLookup(s1)) == Some(Raw(UnorderedMaps.SerializeIndex(0)))
      && !UnorderedMaps.Inv(FirstComments(), r2.value.store)
  {
    FirstBook(s1, t1);
    var r1 := AddBook(Deployed(), EMPTY, s1, t1, DefaultArgs()).value;
    SecondBookWrites(r1.contract, r1.store, s1, s2, t2);
  }

  /** The second book's writes, from the store the first book left. */
  lemma SecondBookWrites(c: Contract, st: Store, s1: string, s2: string, t2: int)
    requires s1 != s2 && c.books == Vectors.Vector(BOOKS_PREFIX, 1) && Vectors.Valid(c.books, st)
    requires Read(st, CommentLookup(s1)) == Some(Raw(UnorderedMaps.SerializeIndex(0)))
    requires Read(st, CommentLookup(s2)) == None
    ensures var r2 := AddBook(c, st, s2, t2, DefaultArgs());
      && r2.Ok?
      && Vectors.Valid(r2.value.contract.books, r2.value.store)
      && Vectors.View(r2.value.contract.books, r2.value.store)
           == Vectors.View(c.books, st) + [BookDocument(FreshBook(1, s2, DefaultArgs(), t2))]
      && Read(r2.value.store, Vectors.IndexToKey(COMMENTS_PREFIX + "k", 0)) == Some(Text(Str(s2)))
      && Read(r2.value.store, CommentLookup(s1)) == Some(Raw(UnorderedMaps.SerializeIndex(0)))
      && !UnorderedMaps.Inv(FirstComments(), r2.value.store)
  {
    DefaultArgsAdmissible();
    AddBookAppends(c, st, s2, t2, DefaultArgs());
    AddBookCommentWrites(c, st, s2, t2, DefaultArgs());
    var st2 := AddBook(c, st, s2, t2, DefaultArgs()).value.store;
    var bslot := Vectors.IndexToKey(BOOKS_PREFIX, 1);
    UnorderedMaps.LookupKeyInjective(FirstComments(), s1, s2);
    assert CommentLookup(s1) !in AddBookTouches(s2, 1) by {
      UnorderedMaps.KeySpaces(FreshComments(), s1, 0, 0);
      assert bslot[..5] == BOOKS_PREFIX && CommentLookup(s1)[0] == 'v';
    }
    StaleLookup(st2, s1, s2);
  }

  /** A comments map whose only key slot names someone else than a commenter
      with a lookup entry breaks the invariant. */
  lemma StaleLookup(st: Store, s1: string, s2: string)
    requires s1 != s2
    requires Read(st, Vectors.IndexToKey(COMMENTS_PREFIX + "k", 0)) == Some(Text(Str(s2)))
    requires Read(st, CommentLookup(s1)).Some?
    ensures !UnorderedMaps.Inv(FirstComments(), st)
  {
    var m := FirstComments();
    assert Vectors.Valid(m.keys, st) && Vectors.View(m.keys, st)[0] == Str(s2);
    assert UnorderedMaps.KeyList(m, st) == [s2];
    assert UnorderedMaps.LookupKey(m, s1) in st;
    assert !UnorderedMaps.NoStrayLookups(m, st, [s2]);
  }

  /** The rating the integration tests never exercise: on the first book, `rate`
      as written fails, while the corrected call stores the rating in the ratings
      vector's first slot and returns the book with one rating. */
  lemma RateOnFirstBook(signer: string, timestamp: int, valor: int)
    ensures var r := AddBook(Deployed(), EMPTY, signer, timestamp, DefaultArgs());
      && r.Ok?
      && Catalogue.Rate(r.value.contract, r.value.store, signer, 0, valor) == Err(TypeError)
      && var fixed := RateFixed(r.value.contract, r.value.store, signer, 0, valor);
      && fixed.Ok?
      && fixed.value.value == BookDocument(Rated(FreshBook(0, signer, DefaultArgs(), timestamp)))
      && Read(fixed.value.store, Vectors.IndexToKey(RATES_PREFIX, 0)) == Some(Text(RateDocument(RatingOf(signer, 0, valor))))
  {
    EmptyStore();
    DefaultArgsAdmissible();
    AddBookAppends(Deployed(), EMPTY, signer, timestamp, DefaultArgs());
    var r := AddBook(Deployed(), EMPTY, signer, timestamp, DefaultArgs()).value;
    var b := FreshBook(0, signer, DefaultArgs(), timestamp);
    assert Vectors.View(r.contract.books, r.store)[0] == BookDocument(b);
    assert b.rates.prefix[0] != r.contract.books.prefix[0];
    RateOnStoredBook(r.contract, r.store, signer, 0, valor, b);
    RateFixedRecords(r.contract, r.store, signer, 0, valor, b);
  }
}
