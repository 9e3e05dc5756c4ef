/** The catalogue's records: a book, which owns a ratings vector and a comments
    map in the store, and a rating. */
module BookModels {
  import opened Encoding
  import opened Outcomes
  import opened JsonValues
  import opened Storage
  import Vectors
  import UnorderedMaps
  import UnorderedMapLaws

  /** `RateEnum`, a numeric enum: each member stands for its position. Its last
      member, `none`, is called `Unrated` here. */
  datatype RateEnum = Bad | Regular | Awesome | Unrated

  function Ordinal(r: RateEnum): (n: nat)
    ensures n < 4
  {
    match r
    case Bad => 0
    case Regular => 1
    case Awesome => 2
    case Unrated => 3
  }

  /** The enum's reverse mapping `RateEnum[n]`: defined for the four ordinals only. */
  function RateOf(n: int): (r: Option<RateEnum>)
    ensures r.Some? <==> 0 <= n < 4
  {
    if n == 0 then Some(Bad)
    else if n == 1 then Some(Regular)
    else if n == 2 then Some(Awesome)
    else if n == 3 then Some(Unrated)
    else None
  }

  /** The two directions of the enum agree: members and ordinals correspond one to one. */
  lemma OrdinalRoundTrip(r: RateEnum, n: int)
    ensures RateOf(Ordinal(r)) == Some(r)
    ensures RateOf(n).Some? ==> Ordinal(RateOf(n).value) == n
  {
  }

  /** `Rate`: who rated, and the rating as the number the caller sent (the
      contract never checks that it is one of the enum's ordinals). */
  datatype Rate = Rate(owner: string, rate: int)

  function RateDocument(r: Rate): Json {
    Obj([("owner", Str(r.owner)), ("rate", Num(r.rate))])
  }

  /** The fields a caller supplies for a new book. */
  datatype BookArgs = BookArgs(
    isbn: string,
    name: string,
    description: string,
    numpage: int,
    author: string,
    datepublished: string,
    editions: int)

  /** `BookInformation`: the caller's fields, the id and owner, the timestamp,
      and the records of the book's ratings vector and comments map. */
  datatype BookInformation = BookInformation(
    id: int,
    owner: string,
    args: BookArgs,
    rates: Vectors.Vector,
    comments: UnorderedMaps.UnorderedMap,
    timestamp: int)

  /** A constructed book and the store after its constructor's writes. */
  datatype BookCreated = BookCreated(book: BookInformation, store: Store)

  const RATES_PREFIX: string := "rating"
  const COMMENTS_PREFIX: string := "v"
  const FIRST_COMMENT: string := "no comments yet"

  /** Every book's comments map starts out as this record, whatever its id. */
  function FreshComments(): UnorderedMaps.UnorderedMap {
    UnorderedMaps.New(COMMENTS_PREFIX)
  }

  /** Where the lookup entry of a commenter lives, for every book alike. */
  function CommentLookup(commenter: string): string {
    UnorderedMaps.LookupKey(FreshComments(), commenter)
  }

  /** The `BookInformation` constructor. The owner is the signer of the call,
      not the `owner` argument; the argument is only the key of the first comment,
      which the constructor writes into a map under the fixed prefix "v". */
  function NewBook(st: Store, signer: string, id: int, owner: string, a: BookArgs, timestamp: int): (r: Result<BookCreated>)
    ensures r.Ok? ==> var b := r.value.book;
      && b.id == id && b.owner == signer && b.args == a && b.timestamp == timestamp
      && b.rates == Vectors.Vector(RATES_PREFIX, 0)
      && b.comments.prefix == COMMENTS_PREFIX
    ensures r.Ok? <==> !UnorderedMaps.IndexPresent(Read(st, CommentLookup(owner)))
    ensures r.Err? ==> r.error == IndexOutOfBounds || r.error == Malformed
  {
    var comments :- UnorderedMaps.Set(FreshComments(), st, owner, Str(FIRST_COMMENT));
    Ok(BookCreated(BookInformation(id, signer, a, Vectors.New(RATES_PREFIX), comments.um, timestamp), comments.store))
  }

  /** The comments map of a constructed book, when no map under the prefix "v"
      was in the store before: it holds exactly the first comment. */
  function FirstComments(): UnorderedMaps.UnorderedMap {
    UnorderedMaps.UnorderedMap(COMMENTS_PREFIX, Vectors.Vector(COMMENTS_PREFIX + "k", 1), Vectors.Vector(COMMENTS_PREFIX + "v", 1))
  }

  /** The keys the constructor's first comment writes. */
  function FirstCommentKeys(owner: string): set<string> {
    {CommentLookup(owner), Vectors.IndexToKey(COMMENTS_PREFIX + "k", 0), Vectors.IndexToKey(COMMENTS_PREFIX + "v", 0)}
  }

  /** When the `owner` argument has no lookup entry under "v", the constructor
      writes the first comment at index 0 of the map, whatever the store held
      before: the lookup entry, the key slot and the value slot, and nothing else. */
  lemma NewBookWrites(st: Store, signer: string, id: int, owner: string, a: BookArgs, timestamp: int)
    requires !UnorderedMaps.IndexPresent(Read(st, CommentLookup(owner)))
    ensures var r := NewBook(st, signer, id, owner, a, timestamp);
      && r.Ok?
      && r.value.book.comments == FirstComments()
      && Read(r.value.store, CommentLookup(owner)) == Some(Raw(UnorderedMaps.SerializeIndex(0)))
      && Read(r.value.store, Vectors.IndexToKey(COMMENTS_PREFIX + "k", 0)) == Some(Text(Str(owner)))
      && Read(r.value.store, Vectors.IndexToKey(COMMENTS_PREFIX + "v", 0)) == Some(Text(Str(FIRST_COMMENT)))
      && SameExcept(st, r.value.store, FirstCommentKeys(owner))
  {
    var m := FreshComments();
    var st0 := Write(st, CommentLookup(owner), Raw(UnorderedMaps.SerializeIndex(0))).store;
    var pushedKey := Vectors.Push(m.keys, st0, Str(owner));
    var pushedValue := Vectors.Push(m.values, pushedKey.store, Str(FIRST_COMMENT));
    assert UnorderedMaps.Set(m, st, owner, Str(FIRST_COMMENT)) == Ok(UnorderedMaps.MapTaken(FirstComments(), pushedValue.store, Null));
    UnorderedMaps.KeySpaces(m, owner, 0, 0);
  }

  /** Over a store without comments, the constructor succeeds, and the new book's
      comments map is consistent and maps the `owner` argument to the first comment;
      only that map's three entries are written. */
  lemma NewBookComments(st: Store, signer: string, id: int, owner: string, a: BookArgs, timestamp: int)
    requires UnorderedMaps.Inv(FreshComments(), st)
    ensures var r := NewBook(st, signer, id, owner, a, timestamp);
      && r.Ok?
      && r.value.book.comments == FirstComments()
      && UnorderedMaps.Inv(FirstComments(), r.value.store)
      && UnorderedMaps.Entries(FirstComments(), r.value.store) == map[owner := Str(FIRST_COMMENT)]
      && SameExcept(st, r.value.store, FirstCommentKeys(owner))
  {
    var m := FreshComments();
    assert UnorderedMaps.Entries(m, st) == map[];
    UnorderedMapLaws.SetNew(m, st, owner, Str(FIRST_COMMENT));
  }

  /** A second book constructed with an `owner` argument the map "v" already
      knows finds the lookup entry and replaces at that index in the fresh,
      empty values vector, which is out of bounds. */
  lemma NewBookRepeatedOwner(st: Store, signer: string, id: int, owner: string, a: BookArgs, timestamp: int, i: u32)
    requires Read(st, CommentLookup(owner)) == Some(Raw(UnorderedMaps.SerializeIndex(i)))
    ensures NewBook(st, signer, id, owner, a, timestamp) == Err(IndexOutOfBounds)
  {
    UnorderedMaps.IndexRoundTrip(i);
  }

  /** `JSON.stringify` of a book: its fields in the order the constructor assigns
      them, the ratings vector and comments map as their own records. */
  function BookDocument(b: BookInformation): Json {
    Obj(LeadingFields(b) + [("rates", Vectors.Document(b.rates))] + TrailingFields(b))
  }

  /** The fields assigned before `rates`. */
  function LeadingFields(b: BookInformation): seq<(string, Json)> {
    [("id", Num(b.id)),
     ("owner", Str(b.owner)),
     ("isbn", Str(b.args.isbn)),
     ("name", Str(b.args.name)),
     ("description", Str(b.args.description)),
     ("numpage", Num(b.args.numpage)),
     ("author", Str(b.args.author))]
  }

  /** The fields assigned after `rates`. */
  function TrailingFields(b: BookInformation): seq<(string, Json)> {
    [("comments", UnorderedMaps.Document(b.comments)),
     ("datepublished", Str(b.args.datepublished)),
     ("editions", Num(b.args.editions)),
     ("timestamp", Num(b.timestamp))]
  }

  /** The ratings vector a parsed book document records, rebuilt with
      `Vector.deserialize`; nothing when the document has no vector record there. */
  function RatesOf(doc: Json): Option<Vectors.Vector> {
    var data :- Member(doc, "rates");
    Vectors.Deserialize(data)
  }

  /** The `rates` field is the eighth of a book document, and the first of its name. */
  lemma RatesField(b: BookInformation)
    ensures var fields := BookDocument(b).fields;
      && fields[7] == ("rates", Vectors.Document(b.rates))
      && forall j | 0 <= j < 7 :: fields[j].0 != fields[7].0
  {
    var fields := BookDocument(b).fields;
    forall j | 0 <= j < 7
      ensures fields[j].0 != fields[7].0
    {
      assert fields[j].0[0] != 'r';
    }
  }

  /** The document of a rating carries who rated and the rating. */
  lemma RateDocumentFields(r: Rate)
    ensures Member(RateDocument(r), "owner") == Some(Str(r.owner))
    ensures Member(RateDocument(r), "rate") == Some(Num(r.rate))
  {
    var fields := RateDocument(r).fields;
    assert fields[0].0[0] != fields[1].0[0];
    FieldAt(fields, 0);
    FieldAt(fields, 1);
  }

  /** The document of a book carries its id, its owner and its comments map's record. */
  lemma BookDocumentFields(b: BookInformation)
    ensures Member(BookDocument(b), "id") == Some(Num(b.id))
    ensures Member(BookDocument(b), "owner") == Some(Str(b.owner))
    ensures Member(BookDocument(b), "comments") == Some(UnorderedMaps.Document(b.comments))
  {
    var fields := BookDocument(b).fields;
    assert fields[0].0[0] != fields[1].0[0];
    assert forall j | 0 <= j < 8 :: fields[j].0[0] != fields[8].0[0];
    FieldAt(fields, 0);
    FieldAt(fields, 1);
    FieldAt(fields, 8);
  }

  /** A book document records the book's own ratings vector. */
  lemma BookDocumentRates(b: BookInformation)
    ensures Member(BookDocument(b), "rates") == Some(Vectors.Document(b.rates))
    ensures RatesOf(BookDocument(b)) == Some(b.rates)
  {
    var fields := BookDocument(b).fields;
    RatesField(b);
    FieldAt(fields, 7);
    Vectors.DeserializeDocument(b.rates);
  }

  /** Assigning a vector record to the `rates` member of a book document gives the
      document of the book with that ratings vector; every other field stays put. */
  lemma BookDocumentWithRates(b: BookInformation, rates: Vectors.Vector)
    ensures SetMember(BookDocument(b), "rates", Vectors.Document(rates)) == BookDocument(b.(rates := rates))
  {
    var fields := BookDocument(b).fields;
    var d := Vectors.Document(rates);
    RatesField(b);
    WithFieldAt(fields, 7, d);
    assert SetMember(BookDocument(b), "rates", d) == Obj(fields[7 := ("rates", d)]);
    var b' := b.(rates := rates);
    assert LeadingFields(b') == LeadingFields(b) && TrailingFields(b') == TrailingFields(b);
    SpliceAt(LeadingFields(b), ("rates", Vectors.Document(b.rates)), ("rates", d), TrailingFields(b));
  }

  lemma SpliceAt<T>(head: seq<T>, x: T, y: T, tail: seq<T>)
    ensures (head + [x] + tail)[|head| := y] == head + [y] + tail
  {
  }
}
