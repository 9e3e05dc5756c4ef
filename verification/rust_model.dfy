/** The records of the Rust version of the catalogue: a book that owns its
    ratings and comments in memory, and a rating. */
module RustModel {

  const U64_LIMIT: int := 0x1_0000_0000_0000_0000

  type u64 = x: int | 0 <= x < U64_LIMIT

  /** `RateEnum`; its last member, `None`, is called `Unrated` here. */
  datatype RateEnum = Bad | Regular | Awesome | Unrated

  /** `impl Default for RateEnum`: a rating defaults to none given. */
  function DefaultRate(): (r: RateEnum)
    ensures r != Bad && r != Regular && r != Awesome
  {
    Unrated
  }

  /** `Rate`: who rated, and the rating. */
  datatype Rate = Rate(owner: string, rate: RateEnum)

  /** `BookInformation`: the Rust version keeps the ratings and comments inside
      the record, as a list and a map from account id to comment. */
  datatype BookInformation = BookInformation(
    id: u64,
    owner: string,
    isbn: string,
    name: string,
    description: string,
    numpage: u64,
    author: string,
    datepublished: string,
    editions: u64,
    rates: seq<Rate>,
    comments: map<string, string>,
    timestamp: u64)

  /** `BookInformation::new`: the owner is the signer of the call; a new book has
      no ratings and no comments. */
  function NewBook(signer: string, id: u64, isbn: string, name: string, description: string, numpage: u64,
                   author: string, datepublished: string, editions: u64, timestamp: u64): (b: BookInformation)
    ensures b.owner == signer && b.rates == [] && b.comments == map[]
    ensures (b.id, b.numpage, b.editions, b.timestamp) == (id, numpage, editions, timestamp)
    ensures (b.isbn, b.name, b.description, b.author, b.datepublished) == (isbn, name, description, author, datepublished)
  {
    BookInformation(id, signer, isbn, name, description, numpage, author, datepublished, editions, [], map[], timestamp)
  }
}
