/** The record types of the library (models.py): books with their field
    validators, users with the process-wide id counter, and checkouts with
    their two-state returned flag. */
module Models {
  import opened Wrappers

  // ---------------------------------------------------------------------
  // Character classes and the anchored validation patterns
  // ---------------------------------------------------------------------

  predicate IsDigit(c: char) { '0' <= c <= '9' }

  predicate IsLetter(c: char) { 'A' <= c <= 'Z' || 'a' <= c <= 'z' }

  /** The character classes the validation patterns are built from. */
  datatype CharClass =
    | Digit      // \d, ASCII digits only
    | NameChar   // [A-Za-z .]
    | GenreChar  // [A-Za-z ]
    | ShelfChar  // [a-zA-Z0-9-]

  predicate InClass(k: CharClass, c: char) {
    match k
    case Digit => IsDigit(c)
    case NameChar => IsLetter(c) || c == ' ' || c == '.'
    case GenreChar => IsLetter(c) || c == ' '
    case ShelfChar => IsLetter(c) || IsDigit(c) || c == '-'
  }

  /** Every character of `s` belongs to class `k`. */
  predicate AllIn(k: CharClass, s: string) {
    forall i :: 0 <= i < |s| ==> InClass(k, s[i])
  }

  /** The shape of the validation patterns, each anchored at both ends:
      `^k{n}$`, `^k+$` and the alternation `p|q`. */
  datatype Pattern =
    | Exactly(k: CharClass, n: nat)
    | OneOrMore(k: CharClass)
    | Either(left: Pattern, right: Pattern)

  /** The whole of `s` matches `p`, consumed one character at a time. */
  predicate FullMatch(p: Pattern, s: string)
    decreases |s|, p
  {
    match p
    case Exactly(k, n) =>
      if n == 0 then s == []
      else s != [] && InClass(k, s[0]) && FullMatch(Exactly(k, n - 1), s[1..])
    case OneOrMore(k) =>
      s != [] && InClass(k, s[0]) && (|s| == 1 || FullMatch(OneOrMore(k), s[1..]))
    case Either(l, r) =>
      FullMatch(l, s) || FullMatch(r, s)
  }

  lemma AllInCons(k: CharClass, s: string)
    requires s != []
    ensures AllIn(k, s) <==> InClass(k, s[0]) && AllIn(k, s[1..])
  {
  }

  /** `^k{n}$` matches exactly the strings of length n drawn from k. */
  lemma {:induction false} ExactlyMatches(k: CharClass, n: nat, s: string)
    ensures FullMatch(Exactly(k, n), s) <==> |s| == n && AllIn(k, s)
  {
    if n > 0 && s != [] {
      ExactlyMatches(k, n - 1, s[1..]);
      AllInCons(k, s);
    }
  }

  /** `^k+$` matches exactly the non-empty strings drawn from k. */
  lemma {:induction false} OneOrMoreMatches(k: CharClass, s: string)
    ensures FullMatch(OneOrMore(k), s) <==> |s| > 0 && AllIn(k, s)
  {
    if |s| > 1 {
      OneOrMoreMatches(k, s[1..]);
    }
    if s != [] {
      AllInCons(k, s);
    }
  }

  const IsbnPattern: Pattern := Either(Exactly(Digit, 10), Exactly(Digit, 13))
  const AuthorPattern: Pattern := OneOrMore(NameChar)
  const PublicationPattern: Pattern := OneOrMore(NameChar)
  const GenrePattern: Pattern := OneOrMore(GenreChar)
  const ShelfPattern: Pattern := OneOrMore(ShelfChar)

  predicate ValidIsbn(isbn: string) { FullMatch(IsbnPattern, isbn) }
  predicate ValidAuthor(author: string) { FullMatch(AuthorPattern, author) }
  predicate ValidPublication(publication: string) { FullMatch(PublicationPattern, publication) }
  predicate ValidGenre(genre: string) { FullMatch(GenrePattern, genre) }
  predicate ValidShelfNumber(shelf: string) { FullMatch(ShelfPattern, shelf) }
  /** Once the value is an integer, the only check left is that it is not negative. */
  predicate ValidQuantity(quantity: int) { quantity >= 0 }

  lemma IsbnAccepted(isbn: string)
    ensures ValidIsbn(isbn) <==>
      (|isbn| == 10 || |isbn| == 13) && forall i :: 0 <= i < |isbn| ==> IsDigit(isbn[i])
  {
    ExactlyMatches(Digit, 10, isbn);
    ExactlyMatches(Digit, 13, isbn);
  }

  lemma AuthorAccepted(author: string)
    ensures ValidAuthor(author) <==>
      |author| > 0 &&
      forall i :: 0 <= i < |author| ==> IsLetter(author[i]) || author[i] == ' ' || author[i] == '.'
  {
    OneOrMoreMatches(NameChar, author);
  }

  lemma PublicationAccepted(publication: string)
    ensures ValidPublication(publication) <==>
      |publication| > 0 &&
      forall i :: 0 <= i < |publication| ==>
        IsLetter(publication[i]) || publication[i] == ' ' || publication[i] == '.'
  {
    OneOrMoreMatches(NameChar, publication);
  }

  lemma GenreAccepted(genre: string)
    ensures ValidGenre(genre) <==>
      |genre| > 0 && forall i :: 0 <= i < |genre| ==> IsLetter(genre[i]) || genre[i] == ' '
  {
    OneOrMoreMatches(GenreChar, genre);
  }

  lemma ShelfNumberAccepted(shelf: string)
    ensures ValidShelfNumber(shelf) <==>
      |shelf| > 0 &&
      forall i :: 0 <= i < |shelf| ==> IsLetter(shelf[i]) || IsDigit(shelf[i]) || shelf[i] == '-'
  {
    OneOrMoreMatches(ShelfChar, shelf);
  }

  // ---------------------------------------------------------------------
  // Book
  // ---------------------------------------------------------------------

  datatype Book = Book(
    title: string,
    author: string,
    isbn: string,
    publication: string,
    genre: string,
    shelfNumber: string,
    quantity: int)
  {
    function ToRecord(): BookRecord {
      BookRecord(title, author, isbn, publication, genre, shelfNumber, quantity)
    }
  }

  /** The stored form of a book: the dictionary `to_dict` writes, one entry per key. */
  datatype BookRecord = BookRecord(
    title: string,
    author: string,
    isbn: string,
    publication: string,
    genre: string,
    shelfNumber: string,
    quantity: int)

  /** The validated fields, in the order the constructor checks them. */
  datatype Field = Isbn | Author | Publication | Genre | ShelfNumber | Quantity

  function Rank(f: Field): nat {
    match f
    case Isbn => 0
    case Author => 1
    case Publication => 2
    case Genre => 3
    case ShelfNumber => 4
    case Quantity => 5
  }

  predicate FieldValid(b: Book, f: Field) {
    match f
    case Isbn => ValidIsbn(b.isbn)
    case Author => ValidAuthor(b.author)
    case Publication => ValidPublication(b.publication)
    case Genre => ValidGenre(b.genre)
    case ShelfNumber => ValidShelfNumber(b.shelfNumber)
    case Quantity => ValidQuantity(b.quantity)
  }

  /** Every validated field of `b` passes its check (the title is free text). */
  predicate ValidBook(b: Book) {
    ValidIsbn(b.isbn) && ValidAuthor(b.author) && ValidPublication(b.publication) &&
    ValidGenre(b.genre) && ValidShelfNumber(b.shelfNumber) && ValidQuantity(b.quantity)
  }

  /** The `ValueError` the constructor raises, naming the field that failed. */
  datatype BookError = Invalid(field: Field)

  /** Book construction: the fields are validated in a fixed order and the
      first one that fails is reported. */
  function NewBook(title: string, author: string, isbn: string, publication: string,
                   genre: string, shelfNumber: string, quantity: int): (r: Result<Book, BookError>)
    ensures var b := Book(title, author, isbn, publication, genre, shelfNumber, quantity);
      && (r.Ok? <==> ValidBook(b))
      && (r.Ok? ==> r.value == b)
      && (r.Err? ==> !FieldValid(b, r.error.field) &&
                     forall f :: Rank(f) < Rank(r.error.field) ==> FieldValid(b, f))
  {
    var b := Book(title, author, isbn, publication, genre, shelfNumber, quantity);
    if !ValidIsbn(isbn) then Err(Invalid(Isbn))
    else if !ValidAuthor(author) then Err(Invalid(Author))
    else if !ValidPublication(publication) then Err(Invalid(Publication))
    else if !ValidGenre(genre) then Err(Invalid(Genre))
    else if !ValidShelfNumber(shelfNumber) then Err(Invalid(ShelfNumber))
    else if !ValidQuantity(quantity) then Err(Invalid(Quantity))
    else Ok(b)
  }

  /** `Book.from_dict`: the stored fields go through the constructor again. */
  function BookFromRecord(d: BookRecord): Result<Book, BookError> {
    NewBook(d.title, d.author, d.isbn, d.publication, d.genre, d.shelfNumber, d.quantity)
  }

  /** A valid book survives the trip through its stored form unchanged. */
  lemma BookRoundTrip(b: Book)
    requires ValidBook(b)
    ensures BookFromRecord(b.ToRecord()) == Ok(b)
  {
  }

  /** A stored record that loads is written back exactly as it was. */
  lemma BookRecordRoundTrip(d: BookRecord)
    requires BookFromRecord(d).Ok?
    ensures ValidBook(BookFromRecord(d).value)
    ensures BookFromRecord(d).value.ToRecord() == d
  {
  }

  // ---------------------------------------------------------------------
  // User
  // ---------------------------------------------------------------------

  function DigitChar(d: nat): (c: char)
    requires d < 10
    ensures IsDigit(c) && c as int - '0' as int == d
  {
    ('0' as int + d) as char
  }

  function DigitValue(c: char): nat
    requires IsDigit(c)
  {
    c as int - '0' as int
  }

  /** The decimal digits of `n`, as an f-string renders it. */
  function Decimal(n: nat): (s: string)
    ensures |s| > 0 && AllIn(Digit, s)
    ensures n > 0 ==> s[0] != '0'
    decreases n
  {
    if n < 10 then [DigitChar(n)] else Decimal(n / 10) + [DigitChar(n % 10)]
  }

  /** The number a string of decimal digits denotes. */
  function DigitsValue(s: string): nat
    requires AllIn(Digit, s)
  {
    if s == [] then 0 else DigitsValue(s[..|s| - 1]) * 10 + DigitValue(s[|s| - 1])
  }

  lemma {:induction false} DecimalValue(n: nat)
    ensures DigitsValue(Decimal(n)) == n
    decreases n
  {
    if n >= 10 {
      var s := Decimal(n);
      assert s[..|s| - 1] == Decimal(n / 10);
      DecimalValue(n / 10);
    }
  }

  const UserIdPrefix: string := "LIB_USER_"

  /** The id the constructor assigns for counter value `n`. */
  function UserId(n: nat): string {
    UserIdPrefix + Decimal(n)
  }

  /** The counter value encoded in a user id, if it has the `LIB_USER_<digits>` shape. */
  function UserNumber(id: string): Option<nat> {
    if |id| > |UserIdPrefix| && id[..|UserIdPrefix|] == UserIdPrefix && AllIn(Digit, id[|UserIdPrefix|..])
    then Some(DigitsValue(id[|UserIdPrefix|..]))
    else None
  }

  /** The numeric suffix of an assigned id is the counter value it was made from. */
  lemma UserIdNumber(n: nat)
    ensures UserNumber(UserId(n)) == Some(n)
  {
    var id := UserId(n);
    assert id[..|UserIdPrefix|] == UserIdPrefix;
    assert id[|UserIdPrefix|..] == Decimal(n);
    DecimalValue(n);
  }

  /** Distinct counter values give distinct ids. */
  lemma UserIdInjective(m: nat, n: nat)
    ensures UserId(m) == UserId(n) <==> m == n
  {
    UserIdNumber(m);
    UserIdNumber(n);
  }

  datatype User = User(name: string, userId: string) {
    function ToRecord(): UserRecord {
      UserRecord(name, userId)
    }
  }

  /** The stored form of a user: the dictionary `to_dict` writes. */
  datatype UserRecord = UserRecord(name: string, userId: string)

  /** The `TypeError` raised by `User.from_dict`, which passes a name and an id
      to a constructor that takes only a name. */
  datatype UserError = ConstructorArity

  /** `User.from_dict`: no stored user can be rebuilt. */
  function UserFromRecord(d: UserRecord): (r: Result<User, UserError>)
    ensures r.Err?
  {
    Err(ConstructorArity)
  }

  /** The class attribute `User.last_user_number`: one counter shared by every
      construction of a user in the process. */
  class UserCounter {
    var lastUserNumber: nat

    constructor ()
      ensures lastUserNumber == 0
    {
      lastUserNumber := 0;
    }

    /** `User(name)`: raise the counter by one and take the new value as the id. */
    method NewUser(name: string) returns (u: User)
      modifies this
      ensures lastUserNumber == old(lastUserNumber) + 1
      ensures u.name == name && u.userId == UserId(lastUserNumber)
    {
      lastUserNumber := lastUserNumber + 1;
      u := User(name, UserId(lastUserNumber));
    }
  }

  // ---------------------------------------------------------------------
  // Checkout
  // ---------------------------------------------------------------------

  /** The stored form of a checkout, which is also its observable state. */
  datatype CheckoutRecord = CheckoutRecord(userId: string, isbn: string, returned: bool)

  /** The `ValueError` for an ISBN whose length is neither 10 nor 13. */
  datatype CheckoutError = IsbnLength

  /** The only check left once both arguments are strings. */
  predicate CheckoutIsbnOk(isbn: string) { |isbn| == 10 || |isbn| == 13 }

  /** A book accepted by the modelled validator has an ISBN a checkout accepts. */
  lemma ValidIsbnFitsCheckout(isbn: string)
    requires ValidIsbn(isbn)
    ensures CheckoutIsbnOk(isbn)
  {
    IsbnAccepted(isbn);
  }

  class Checkout {
    const userId: string
    const isbn: string
    var returned: bool

    /** The field assignments of the constructor, reached once the ISBN check has passed. */
    constructor Init(userId: string, isbn: string, returned: bool)
      ensures this.userId == userId && this.isbn == isbn && this.returned == returned
    {
      this.userId := userId;
      this.isbn := isbn;
      this.returned := returned;
    }

    /** `Checkout(user_id, isbn, returned)`: fails unless the ISBN has length 10 or 13. */
    static method New(userId: string, isbn: string, returned: bool) returns (r: Result<Checkout, CheckoutError>)
      ensures r.Ok? <==> CheckoutIsbnOk(isbn)
      ensures r.Ok? ==> fresh(r.value) && r.value.ToRecord() == CheckoutRecord(userId, isbn, returned)
    {
      if !CheckoutIsbnOk(isbn) {
        return Err(IsbnLength);
      }
      var c := new Checkout.Init(userId, isbn, returned);
      return Ok(c);
    }

    /** `Checkout.from_dict`: the stored fields go through the constructor again. */
    static method FromRecord(d: CheckoutRecord) returns (r: Result<Checkout, CheckoutError>)
      ensures r.Ok? <==> CheckoutIsbnOk(d.isbn)
      ensures r.Ok? ==> fresh(r.value) && r.value.ToRecord() == d
    {
      r := New(d.userId, d.isbn, d.returned);
    }

    function ToRecord(): CheckoutRecord
      reads this
    {
      CheckoutRecord(userId, isbn, returned)
    }

    /** Sets `returned`; user and ISBN are fixed, so a second call changes nothing. */
    method MarkReturned()
      modifies this
      ensures ToRecord() == old(ToRecord()).(returned := true)
    {
      returned := true;
    }
  }
}
