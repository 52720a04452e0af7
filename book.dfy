/** The book catalog (book.py): an insertion-ordered list of validated books
    that is written to storage in full after every addition.  Storage is
    represented by `saved`, the last list of records handed to it, and by
    the data a load receives. */
module BookCatalog {
  import opened Wrappers
  import opened Models

  /** Every book in the list passed validation. */
  predicate AllValid(books: seq<Book>) {
    forall k :: 0 <= k < |books| ==> ValidBook(books[k])
  }

  /** Position of the first book with ISBN `isbn`, if any. */
  function FirstIsbn(books: seq<Book>, isbn: string): (r: Option<nat>)
    ensures r.Some? ==>
      r.value < |books| && books[r.value].isbn == isbn &&
      forall j :: 0 <= j < r.value ==> books[j].isbn != isbn
    ensures r.None? ==> forall j :: 0 <= j < |books| ==> books[j].isbn != isbn
  {
    FirstIsbnFrom(books, isbn, 0)
  }

  /** The linear scan from position `from` on. */
  function FirstIsbnFrom(books: seq<Book>, isbn: string, from: nat): (r: Option<nat>)
    requires from <= |books|
    ensures r.Some? ==>
      from <= r.value < |books| && books[r.value].isbn == isbn &&
      forall j :: from <= j < r.value ==> books[j].isbn != isbn
    ensures r.None? ==> forall j :: from <= j < |books| ==> books[j].isbn != isbn
    decreases |books| - from
  {
    if from == |books| then None
    else if books[from].isbn == isbn then Some(from)
    else FirstIsbnFrom(books, isbn, from + 1)
  }

  /** The overwrite of the first matching book's quantity (`update_book_quantity`). */
  function WithQuantity(books: seq<Book>, isbn: string, quantity: int): seq<Book> {
    match FirstIsbn(books, isbn)
    case None => books
    case Some(i) => books[i := books[i].(quantity := quantity)]
  }

  /** An overwrite changes only the quantity of the first book with that ISBN. */
  lemma WithQuantityEffect(books: seq<Book>, isbn: string, quantity: int)
    ensures var r := WithQuantity(books, isbn, quantity);
      && |r| == |books|
      && (forall k :: 0 <= k < |books| ==> r[k].(quantity := books[k].quantity) == books[k])
      && (forall k :: 0 <= k < |books| && Some(k) != FirstIsbn(books, isbn) ==> r[k] == books[k])
      && (FirstIsbn(books, isbn).Some? ==> r[FirstIsbn(books, isbn).value].quantity == quantity)
  {
  }

  /** Overwriting a quantity leaves every lookup where it was. */
  lemma WithQuantityKeepsLookup(books: seq<Book>, isbn: string, quantity: int, other: string)
    ensures FirstIsbn(WithQuantity(books, isbn, quantity), other) == FirstIsbn(books, other)
  {
  }

  /** After an overwrite the same book is found, now holding the new quantity. */
  lemma WithQuantityFound(books: seq<Book>, isbn: string, quantity: int)
    requires FirstIsbn(books, isbn).Some?
    ensures FirstIsbn(WithQuantity(books, isbn, quantity), isbn) == FirstIsbn(books, isbn)
    ensures WithQuantity(books, isbn, quantity)[FirstIsbn(books, isbn).value].quantity == quantity
  {
  }

  /** The second of two overwrites of the same ISBN wins. */
  lemma WithQuantityTwice(books: seq<Book>, isbn: string, x: int, y: int)
    ensures WithQuantity(WithQuantity(books, isbn, x), isbn, y) == WithQuantity(books, isbn, y)
  {
  }

  /** Writing back the quantity a book already has changes nothing. */
  lemma WithQuantityUnchanged(books: seq<Book>, isbn: string)
    requires FirstIsbn(books, isbn).Some?
    ensures WithQuantity(books, isbn, books[FirstIsbn(books, isbn).value].quantity) == books
  {
  }

  /** A non-negative overwrite keeps every book valid. */
  lemma WithQuantityValid(books: seq<Book>, isbn: string, quantity: int)
    requires AllValid(books) && quantity >= 0
    ensures AllValid(WithQuantity(books, isbn, quantity))
  {
  }

  /** ISBNs are not unique: a book added under an ISBN the list already holds is
      never the one a lookup finds. */
  lemma {:induction false} DuplicateIsShadowed(books: seq<Book>, b: Book)
    requires FirstIsbn(books, b.isbn).Some?
    ensures FirstIsbn(books + [b], b.isbn) == FirstIsbn(books, b.isbn)
  {
    if books[0].isbn != b.isbn {
      assert (books + [b])[1..] == books[1..] + [b];
      DuplicateIsShadowed(books[1..], b);
    }
  }

  /** `[book.to_dict() for book in books]` */
  function BookRecords(books: seq<Book>): (rs: seq<BookRecord>)
    ensures |rs| == |books|
  {
    seq(|books|, k requires 0 <= k < |books| => books[k].ToRecord())
  }

  /** `[Book.from_dict(item) for item in data]`: the first record that fails
      validation raises, otherwise every record becomes a book, in order. */
  function BooksFromRecords(rs: seq<BookRecord>): (r: Result<seq<Book>, BookError>)
    ensures r.Ok? <==> forall k :: 0 <= k < |rs| ==> BookFromRecord(rs[k]).Ok?
    ensures r.Ok? ==>
      |r.value| == |rs| && forall k :: 0 <= k < |rs| ==> BookFromRecord(rs[k]) == Ok(r.value[k])
    ensures r.Err? ==>
      exists k :: 0 <= k < |rs| && BookFromRecord(rs[k]) == Err(r.error) &&
        forall j :: 0 <= j < k ==> BookFromRecord(rs[j]).Ok?
  {
    if rs == [] then Ok([])
    else match BookFromRecord(rs[0])
      case Err(e) => Err(e)
      case Ok(b) =>
        match BooksFromRecords(rs[1..])
        case Err(e) => Err(e)
        case Ok(bs) => Ok([b] + bs)
  }

  /** What the catalog saves, it loads back unchanged. */
  lemma SaveLoadRoundTrip(books: seq<Book>)
    requires AllValid(books)
    ensures BooksFromRecords(BookRecords(books)) == Ok(books)
  {
    var rs := BookRecords(books);
    forall k | 0 <= k < |rs| ensures BookFromRecord(rs[k]) == Ok(books[k]) {
      BookRoundTrip(books[k]);
    }
    var r := BooksFromRecords(rs);
    assert r.value == books;
  }

  /** Everything a load accepts is valid. */
  lemma LoadedBooksValid(rs: seq<BookRecord>)
    requires BooksFromRecords(rs).Ok?
    ensures AllValid(BooksFromRecords(rs).value)
  {
  }

  class BookManager {
    var books: seq<Book>
    /** The list of records last written to storage by this catalog, if any. */
    var saved: Option<seq<BookRecord>>

    /** The catalog invariant: only valid books are ever stored. */
    predicate Valid()
      reads this
    {
      AllValid(books)
    }

    constructor ()
      ensures Valid() && books == [] && saved == None
    {
      books := [];
      saved := None;
    }

    /** `add_book`: construct the book (which may raise), append it, save the whole list. */
    method AddBook(title: string, author: string, isbn: string, publication: string,
                   genre: string, shelfNumber: string, quantity: int) returns (r: Outcome<BookError>)
      modifies this
      ensures var b := Book(title, author, isbn, publication, genre, shelfNumber, quantity);
        && (r.Pass? <==> ValidBook(b))
        && (r.Pass? ==> books == old(books) + [b] && saved == Some(BookRecords(books)))
        && (r.Fail? ==> NewBook(title, author, isbn, publication, genre, shelfNumber, quantity) == Err(r.error))
        && (r.Fail? ==> books == old(books) && saved == old(saved))
      ensures old(Valid()) ==> Valid()
    {
      var created := NewBook(title, author, isbn, publication, genre, shelfNumber, quantity);
      if created.Err? {
        return Fail(created.error);
      }
      books := books + [created.value];
      SaveBooks();
      return Pass;
    }

    /** `list_books`: the books in the order they are printed. */
    method ListBooks() returns (listed: seq<Book>)
      ensures listed == books
    {
      listed := [];
      for i := 0 to |books|
        invariant listed == books[..i]
      {
        listed := listed + [books[i]];
      }
    }

    /** `_save_books`: overwrite storage with the whole list. */
    method SaveBooks()
      modifies this
      ensures books == old(books) && saved == Some(BookRecords(books))
    {
      saved := Some(BookRecords(books));
    }

    /** `load_books`: `data` is what storage returned (`None` for a missing file).
        Non-empty data replaces the list unless one of its records fails validation. */
    method LoadBooks(data: Option<seq<BookRecord>>) returns (r: Outcome<BookError>)
      modifies this
      ensures saved == old(saved)
      ensures (data.None? || data.value == []) ==> r.Pass? && books == old(books)
      ensures data.Some? && data.value != [] ==>
        match BooksFromRecords(data.value)
        case Ok(bs) => r.Pass? && books == bs
        case Err(e) => r == Fail(e) && books == old(books)
      ensures old(Valid()) ==> Valid()
    {
      if data.None? || data.value == [] {
        return Pass;
      }
      var loaded := BooksFromRecords(data.value);
      if loaded.Err? {
        return Fail(loaded.error);
      }
      LoadedBooksValid(data.value);
      books := loaded.value;
      return Pass;
    }

    /** `get_book_by_isbn` (called by the ledger, not defined in book.py):
        the first book with that ISBN, or nothing. */
    function GetBookByIsbn(isbn: string): (r: Option<Book>)
      reads this
      ensures r.None? <==> forall k :: 0 <= k < |books| ==> books[k].isbn != isbn
      ensures r.Some? ==> FirstIsbn(books, isbn).Some? && r.value == books[FirstIsbn(books, isbn).value]
    {
      match FirstIsbn(books, isbn)
      case None => None
      case Some(i) => Some(books[i])
    }

    /** `update_book_quantity` (called by the ledger, not defined in book.py):
        overwrite the first matching book's quantity; storage is not written. */
    method UpdateBookQuantity(isbn: string, quantity: int)
      modifies this
      ensures books == WithQuantity(old(books), isbn, quantity) && saved == old(saved)
      ensures old(Valid()) && quantity >= 0 ==> Valid()
    {
      books := WithQuantity(books, isbn, quantity);
    }
  }
}
