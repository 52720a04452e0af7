/** The checkout ledger (checkout.py): a list of loan records, each on loan
    and then returned, whose checkout and return move the quantity of the
    book in the catalog down and up.  The ledger is written to storage in
    full after each successful checkout and return.

    `CheckoutStep` and `ReturnStep` say what one call does to the catalog's
    books and the ledger's records; the methods of `CheckoutManager` are
    proved to do exactly that, and the lemmas below are about the steps. */
module CheckoutLedger {
  import opened Wrappers
  import opened Models
  import opened BookCatalog

  predicate Matches(r: CheckoutRecord, userId: string, isbn: string) {
    r.userId == userId && r.isbn == isbn
  }

  /** Position of the first record of this user and ISBN, returned or not. */
  function FirstMatch(records: seq<CheckoutRecord>, userId: string, isbn: string): (r: Option<nat>)
    ensures r.Some? ==>
      r.value < |records| && Matches(records[r.value], userId, isbn) &&
      forall j :: 0 <= j < r.value ==> !Matches(records[j], userId, isbn)
    ensures r.None? ==> forall j :: 0 <= j < |records| ==> !Matches(records[j], userId, isbn)
  {
    FirstMatchFrom(records, userId, isbn, 0)
  }

  /** The linear scan from position `from` on. */
  function FirstMatchFrom(records: seq<CheckoutRecord>, userId: string, isbn: string, from: nat): (r: Option<nat>)
    requires from <= |records|
    ensures r.Some? ==>
      from <= r.value < |records| && Matches(records[r.value], userId, isbn) &&
      forall j :: from <= j < r.value ==> !Matches(records[j], userId, isbn)
    ensures r.None? ==> forall j :: from <= j < |records| ==> !Matches(records[j], userId, isbn)
    decreases |records| - from
  {
    if from == |records| then None
    else if Matches(records[from], userId, isbn) then Some(from)
    else FirstMatchFrom(records, userId, isbn, from + 1)
  }

  /** What the books of the catalog and the records of the ledger are. */
  datatype State = State(books: seq<Book>, records: seq<CheckoutRecord>)

  /** The outcomes of `checkout_book`: success, the two reported refusals, and
      the `ValueError` a checkout's construction can raise. */
  datatype CheckoutOutcome = CheckedOut | BookNotFound | NotAvailable | Rejected(error: CheckoutError)

  /** The outcomes of `return_book`: success, the reported miss, and the crash
      when the record's book is no longer in the catalog. */
  datatype ReturnOutcome = Returned | NotInCheckoutList | BookMissing

  /** One call of `checkout_book`. */
  function CheckoutStep(s: State, userId: string, isbn: string): (CheckoutOutcome, State) {
    match FirstIsbn(s.books, isbn)
    case None => (BookNotFound, s)
    case Some(i) =>
      if s.books[i].quantity <= 0 then (NotAvailable, s)
      else if !CheckoutIsbnOk(isbn) then (Rejected(IsbnLength), s)
      else (CheckedOut, State(WithQuantity(s.books, isbn, s.books[i].quantity - 1),
                              s.records + [CheckoutRecord(userId, isbn, false)]))
  }

  /** One call of `return_book`.  When the book has left the catalog, the record
      has already been marked when the lookup fails. */
  function ReturnStep(s: State, userId: string, isbn: string): (ReturnOutcome, State) {
    match FirstMatch(s.records, userId, isbn)
    case None => (NotInCheckoutList, s)
    case Some(m) =>
      var marked := s.records[m := s.records[m].(returned := true)];
      match FirstIsbn(s.books, isbn)
      case None => (BookMissing, State(s.books, marked))
      case Some(i) => (Returned, State(WithQuantity(s.books, isbn, s.books[i].quantity + 1), marked))
  }

  // ---------------------------------------------------------------------
  // What one checkout does
  // ---------------------------------------------------------------------

  /** A checkout of an ISBN the catalog lacks, or of a book with no copy left, changes nothing. */
  lemma CheckoutRefusals(s: State, userId: string, isbn: string)
    ensures var (outcome, t) := CheckoutStep(s, userId, isbn);
      && (outcome == BookNotFound <==> forall k :: 0 <= k < |s.books| ==> s.books[k].isbn != isbn)
      && (outcome == NotAvailable <==>
            exists k :: 0 <= k < |s.books| && s.books[k].isbn == isbn && s.books[k].quantity <= 0 &&
              forall j :: 0 <= j < k ==> s.books[j].isbn != isbn)
      && (outcome != CheckedOut ==> t == s)
  {
  }

  /** A successful checkout appends one on-loan record and lowers exactly one
      book's quantity by exactly one: the first book with that ISBN. */
  lemma CheckoutSuccess(s: State, userId: string, isbn: string)
    requires CheckoutStep(s, userId, isbn).0 == CheckedOut
    ensures var t := CheckoutStep(s, userId, isbn).1;
      var i := FirstIsbn(s.books, isbn).value;
      && t.records == s.records + [CheckoutRecord(userId, isbn, false)]
      && |t.books| == |s.books|
      && s.books[i].quantity > 0
      && t.books[i] == s.books[i].(quantity := s.books[i].quantity - 1)
      && forall k :: 0 <= k < |s.books| && k != i ==> t.books[k] == s.books[k]
  {
  }

  /** With a catalog valid under the modelled validator a found book's ISBN fits a checkout, so
      construction never raises, and no quantity goes below zero. */
  lemma CheckoutKeepsCatalogValid(s: State, userId: string, isbn: string)
    requires AllValid(s.books)
    ensures CheckoutStep(s, userId, isbn).0 != Rejected(IsbnLength)
    ensures AllValid(CheckoutStep(s, userId, isbn).1.books)
  {
    match FirstIsbn(s.books, isbn)
    case None =>
    case Some(i) =>
      ValidIsbnFitsCheckout(s.books[i].isbn);
      if s.books[i].quantity > 0 {
        WithQuantityValid(s.books, isbn, s.books[i].quantity - 1);
      }
  }

  // ---------------------------------------------------------------------
  // What one return does
  // ---------------------------------------------------------------------

  /** A return marks the first record of the pair, whatever its state, and
      raises the book's quantity by one; it never changes the ledger's length
      or any other record, and without a matching record it changes nothing. */
  lemma ReturnEffect(s: State, userId: string, isbn: string)
    ensures var (outcome, t) := ReturnStep(s, userId, isbn);
      && |t.records| == |s.records|
      && (outcome == NotInCheckoutList <==>
            forall k :: 0 <= k < |s.records| ==> !Matches(s.records[k], userId, isbn))
      && (outcome == NotInCheckoutList ==> t == s)
      && (outcome != NotInCheckoutList ==>
            var m := FirstMatch(s.records, userId, isbn).value;
            && t.records[m] == s.records[m].(returned := true)
            && forall k :: 0 <= k < |s.records| && k != m ==> t.records[k] == s.records[k])
      && (outcome == BookMissing ==> t.books == s.books)
      && (outcome == Returned ==>
            var i := FirstIsbn(s.books, isbn).value;
            && |t.books| == |s.books|
            && t.books[i] == s.books[i].(quantity := s.books[i].quantity + 1)
            && forall k :: 0 <= k < |s.books| && k != i ==> t.books[k] == s.books[k])
  {
  }

  lemma ReturnKeepsCatalogValid(s: State, userId: string, isbn: string)
    requires AllValid(s.books)
    ensures AllValid(ReturnStep(s, userId, isbn).1.books)
  {
  }

  /** Marking a record keeps it the first match of its pair. */
  lemma MarkKeepsMatch(records: seq<CheckoutRecord>, m: nat, userId: string, isbn: string)
    requires FirstMatch(records, userId, isbn) == Some(m)
    ensures FirstMatch(records[m := records[m].(returned := true)], userId, isbn) == Some(m)
  {
    var marked := records[m := records[m].(returned := true)];
    var r := FirstMatch(marked, userId, isbn);
    assert Matches(marked[m], userId, isbn);
    if r.Some? {
      assert !(r.value < m) && !(m < r.value);
    }
  }

  /** Returning a pair twice raises the quantity twice: the record matched the
      first time is matched again although it is already returned. */
  lemma RepeatedReturnRaisesAgain(s: State, userId: string, isbn: string)
    requires ReturnStep(s, userId, isbn).0 == Returned
    ensures var t := ReturnStep(s, userId, isbn).1;
      var i := FirstIsbn(s.books, isbn).value;
      && ReturnStep(t, userId, isbn).0 == Returned
      && ReturnStep(t, userId, isbn).1.records == t.records
      && ReturnStep(t, userId, isbn).1.books == WithQuantity(s.books, isbn, s.books[i].quantity + 2)
  {
    var m := FirstMatch(s.records, userId, isbn).value;
    var i := FirstIsbn(s.books, isbn).value;
    var t := ReturnStep(s, userId, isbn).1;
    MarkKeepsMatch(s.records, m, userId, isbn);
    WithQuantityKeepsLookup(s.books, isbn, s.books[i].quantity + 1, isbn);
    WithQuantityEffect(s.books, isbn, s.books[i].quantity + 1);
    WithQuantityTwice(s.books, isbn, s.books[i].quantity + 1, s.books[i].quantity + 2);
    assert t.records[m := t.records[m].(returned := true)] == t.records;
  }

  // ---------------------------------------------------------------------
  // Records only move forward
  // ---------------------------------------------------------------------

  /** `after` keeps every record of `before`, with the same user and ISBN, and
      no record goes from returned back to on loan. */
  predicate RecordsAdvance(before: seq<CheckoutRecord>, after: seq<CheckoutRecord>) {
    && |before| <= |after|
    && forall k :: 0 <= k < |before| ==>
         after[k].userId == before[k].userId && after[k].isbn == before[k].isbn &&
         (before[k].returned ==> after[k].returned)
  }

  lemma StepsAdvanceRecords(s: State, userId: string, isbn: string)
    ensures RecordsAdvance(s.records, CheckoutStep(s, userId, isbn).1.records)
    ensures RecordsAdvance(s.records, ReturnStep(s, userId, isbn).1.records)
    ensures var t := CheckoutStep(s, userId, isbn).1.records;
      forall k :: |s.records| <= k < |t| ==> !t[k].returned
  {
  }

  // ---------------------------------------------------------------------
  // Checking out and returning restores the quantity
  // ---------------------------------------------------------------------

  /** A checkout of an available book with an acceptable ISBN succeeds. */
  lemma CheckoutStepFound(s: State, userId: string, isbn: string)
    requires FirstIsbn(s.books, isbn).Some? && CheckoutIsbnOk(isbn)
    requires s.books[FirstIsbn(s.books, isbn).value].quantity > 0
    ensures var (outcome, t) := CheckoutStep(s, userId, isbn);
      && outcome == CheckedOut
      && t.books == WithQuantity(s.books, isbn, s.books[FirstIsbn(s.books, isbn).value].quantity - 1)
      && t.records == s.records + [CheckoutRecord(userId, isbn, false)]
      && FirstMatch(t.records, userId, isbn).Some?
  {
    var t := CheckoutStep(s, userId, isbn).1;
    assert Matches(t.records[|t.records| - 1], userId, isbn);
  }

  /** A return of a pair the ledger holds, for a book the catalog holds, succeeds
      and leaves the same record first for the pair. */
  lemma ReturnStepFound(s: State, userId: string, isbn: string)
    requires FirstIsbn(s.books, isbn).Some? && FirstMatch(s.records, userId, isbn).Some?
    ensures var (outcome, t) := ReturnStep(s, userId, isbn);
      && outcome == Returned
      && t.books == WithQuantity(s.books, isbn, s.books[FirstIsbn(s.books, isbn).value].quantity + 1)
      && FirstMatch(t.records, userId, isbn) == FirstMatch(s.records, userId, isbn)
  {
    MarkKeepsMatch(s.records, FirstMatch(s.records, userId, isbn).value, userId, isbn);
  }

  /** A successful checkout followed by a return of the same pair succeeds and
      leaves every book as it was before the checkout. */
  lemma CheckoutThenReturnRestores(s: State, userId: string, isbn: string)
    requires CheckoutStep(s, userId, isbn).0 == CheckedOut
    ensures var t := CheckoutStep(s, userId, isbn).1;
      ReturnStep(t, userId, isbn).0 == Returned && ReturnStep(t, userId, isbn).1.books == s.books
  {
    var i := FirstIsbn(s.books, isbn).value;
    var q := s.books[i].quantity;
    CheckoutStepFound(s, userId, isbn);
    var t := CheckoutStep(s, userId, isbn).1;
    WithQuantityFound(s.books, isbn, q - 1);
    ReturnStepFound(t, userId, isbn);
    WithQuantityTwice(s.books, isbn, q - 1, q);
    WithQuantityUnchanged(s.books, isbn);
  }

  /** `n` checkouts of the same pair, one after the other. */
  function CheckoutTimes(s: State, userId: string, isbn: string, n: nat): State {
    if n == 0 then s else CheckoutStep(CheckoutTimes(s, userId, isbn, n - 1), userId, isbn).1
  }

  /** `n` returns of the same pair, one after the other. */
  function ReturnTimes(s: State, userId: string, isbn: string, n: nat): State
    decreases n
  {
    if n == 0 then s else ReturnTimes(ReturnStep(s, userId, isbn).1, userId, isbn, n - 1)
  }

  /** `n` checkouts of a book with at least `n` copies lower its quantity by `n`. */
  lemma {:induction false} CheckoutTimesEffect(s: State, userId: string, isbn: string, n: nat)
    requires FirstIsbn(s.books, isbn).Some? && CheckoutIsbnOk(isbn)
    requires s.books[FirstIsbn(s.books, isbn).value].quantity >= n
    ensures var t := CheckoutTimes(s, userId, isbn, n);
      && t.books == WithQuantity(s.books, isbn, s.books[FirstIsbn(s.books, isbn).value].quantity - n)
      && (n > 0 ==> FirstMatch(t.records, userId, isbn).Some?)
  {
    var q := s.books[FirstIsbn(s.books, isbn).value].quantity;
    if n == 0 {
      WithQuantityUnchanged(s.books, isbn);
    } else {
      CheckoutTimesEffect(s, userId, isbn, n - 1);
      var p := CheckoutTimes(s, userId, isbn, n - 1);
      WithQuantityFound(s.books, isbn, q - (n - 1));
      CheckoutStepFound(p, userId, isbn);
      WithQuantityTwice(s.books, isbn, q - (n - 1), q - n);
    }
  }

  /** `n` returns of a pair the ledger holds raise the book's quantity by `n`,
      and the same record stays the pair's first match throughout. */
  lemma {:induction false} ReturnTimesEffect(s: State, userId: string, isbn: string, n: nat)
    requires FirstIsbn(s.books, isbn).Some? && FirstMatch(s.records, userId, isbn).Some?
    ensures var t := ReturnTimes(s, userId, isbn, n);
      && t.books == WithQuantity(s.books, isbn, s.books[FirstIsbn(s.books, isbn).value].quantity + n)
      && FirstMatch(t.records, userId, isbn) == FirstMatch(s.records, userId, isbn)
    decreases n
  {
    var q := s.books[FirstIsbn(s.books, isbn).value].quantity;
    if n == 0 {
      WithQuantityUnchanged(s.books, isbn);
    } else {
      ReturnStepFound(s, userId, isbn);
      var next := ReturnStep(s, userId, isbn).1;
      WithQuantityFound(s.books, isbn, q + 1);
      ReturnTimesEffect(next, userId, isbn, n - 1);
      WithQuantityTwice(s.books, isbn, q + 1, q + n);
    }
  }

  /** After `n` checkouts and then `n` returns of the same pair, every book is
      as it was, provided the book had `n` copies to lend. */
  lemma CheckoutsThenReturnsRestore(s: State, userId: string, isbn: string, n: nat)
    requires FirstIsbn(s.books, isbn).Some? && CheckoutIsbnOk(isbn)
    requires s.books[FirstIsbn(s.books, isbn).value].quantity >= n
    ensures ReturnTimes(CheckoutTimes(s, userId, isbn, n), userId, isbn, n).books == s.books
  {
    if n > 0 {
      var q := s.books[FirstIsbn(s.books, isbn).value].quantity;
      CheckoutTimesEffect(s, userId, isbn, n);
      var t := CheckoutTimes(s, userId, isbn, n);
      WithQuantityFound(s.books, isbn, q - n);
      ReturnTimesEffect(t, userId, isbn, n);
      WithQuantityTwice(s.books, isbn, q - n, q);
      WithQuantityUnchanged(s.books, isbn);
    }
  }

  // ---------------------------------------------------------------------
  // The ledger object
  // ---------------------------------------------------------------------

  /** `[checkout.to_dict() for checkout in checkouts]` */
  function RecordsOf(cs: seq<Checkout>): (rs: seq<CheckoutRecord>)
    reads cs
    ensures |rs| == |cs| && forall k :: 0 <= k < |cs| ==> rs[k] == cs[k].ToRecord()
  {
    seq(|cs|, k reads cs requires 0 <= k < |cs| => cs[k].ToRecord())
  }

  class CheckoutManager {
    /** The catalog whose quantities checkouts and returns adjust; not owned. */
    const catalog: BookManager
    var checkouts: seq<Checkout>
    /** The list of records last written to storage by this ledger, if any. */
    var saved: Option<seq<CheckoutRecord>>

    /** No checkout object appears twice in the ledger, so marking one marks one
        record; and every checkout passed the constructor's ISBN-length check,
        since each was built by `Checkout(...)` or `Checkout.from_dict`. */
    ghost predicate Valid()
      reads this
    {
      && (forall i, j :: 0 <= i < j < |checkouts| ==> checkouts[i] != checkouts[j])
      && (forall k :: 0 <= k < |checkouts| ==> CheckoutIsbnOk(checkouts[k].isbn))
    }

    /** Everything a valid ledger saves passes the length check a load applies. */
    lemma RecordsLoadable()
      requires Valid()
      ensures forall k :: 0 <= k < |Records()| ==> CheckoutIsbnOk(Records()[k].isbn)
    {
      forall k | 0 <= k < |Records()| ensures CheckoutIsbnOk(Records()[k].isbn) {
        assert Records()[k] == checkouts[k].ToRecord();
      }
    }

    function Records(): seq<CheckoutRecord>
      reads this, checkouts
    {
      RecordsOf(checkouts)
    }

    constructor (catalog: BookManager)
      ensures Valid() && this.catalog == catalog && checkouts == [] && saved == None
    {
      this.catalog := catalog;
      checkouts := [];
      saved := None;
    }

    /** `checkout_book`.  The new quantity is not written to the catalog's storage. */
    method CheckoutBook(userId: string, isbn: string) returns (outcome: CheckoutOutcome)
      requires Valid()
      modifies this, catalog
      ensures Valid()
      ensures (outcome, State(catalog.books, Records())) ==
              CheckoutStep(State(old(catalog.books), old(Records())), userId, isbn)
      ensures saved == if outcome == CheckedOut then Some(Records()) else old(saved)
      ensures catalog.saved == old(catalog.saved)
      ensures outcome == CheckedOut ==>
        |checkouts| == |old(checkouts)| + 1 && checkouts[..|old(checkouts)|] == old(checkouts) &&
        fresh(checkouts[|old(checkouts)|])
      ensures outcome != CheckedOut ==> checkouts == old(checkouts)
    {
      var found := catalog.GetBookByIsbn(isbn);
      if found.None? {
        return BookNotFound;
      }
      var book := found.value;
      if book.quantity <= 0 {
        return NotAvailable;
      }
      var created := Checkout.New(userId, isbn, false);
      if created.Err? {
        assert created.error == IsbnLength;
        return Rejected(created.error);
      }
      Lend(created.value, book.quantity - 1);
      return CheckedOut;
    }

    /** `return_book`: the loop stops at the first record of the pair. */
    method ReturnBook(userId: string, isbn: string) returns (outcome: ReturnOutcome)
      requires Valid()
      modifies this, catalog, checkouts
      ensures Valid() && checkouts == old(checkouts)
      ensures (outcome, State(catalog.books, Records())) ==
              ReturnStep(State(old(catalog.books), old(Records())), userId, isbn)
      ensures saved == if outcome == Returned then Some(Records()) else old(saved)
      ensures catalog.saved == old(catalog.saved)
    {
      var i := 0;
      while i < |checkouts|
        invariant 0 <= i <= |checkouts|
        invariant checkouts == old(checkouts) && Records() == old(Records())
        invariant catalog.books == old(catalog.books) && catalog.saved == old(catalog.saved)
        invariant saved == old(saved)
        invariant forall k :: 0 <= k < i ==> !Matches(Records()[k], userId, isbn)
      {
        var c := checkouts[i];
        if c.userId == userId && c.isbn == isbn {
          assert FirstMatch(Records(), userId, isbn) == Some(i);
          outcome := ReturnAt(i, userId, isbn);
          return;
        }
        i := i + 1;
      }
      return NotInCheckoutList;
    }

    /** The body of `return_book`'s loop once it reaches the first checkout of
        the pair, at position `i`: mark it, then give the copy back to the
        catalog (which raises when the book is gone) and save the ledger. */
    method ReturnAt(i: nat, userId: string, isbn: string) returns (outcome: ReturnOutcome)
      requires Valid() && i < |checkouts| && FirstMatch(Records(), userId, isbn) == Some(i)
      modifies this, catalog, checkouts[i]
      ensures Valid() && checkouts == old(checkouts)
      ensures (outcome, State(catalog.books, Records())) ==
              ReturnStep(State(old(catalog.books), old(Records())), userId, isbn)
      ensures saved == if outcome == Returned then Some(Records()) else old(saved)
      ensures catalog.saved == old(catalog.saved)
    {
      MarkAt(i);
      ghost var marked := Records();
      var found := catalog.GetBookByIsbn(isbn);
      if found.None? {
        return BookMissing;
      }
      catalog.UpdateBookQuantity(isbn, found.value.quantity + 1);
      SaveCheckouts();
      assert Records() == marked;
      return Returned;
    }

    /** `checkout.mark_returned()` on the checkout at position `i`: only its record changes. */
    method MarkAt(i: nat)
      requires Valid() && i < |checkouts|
      modifies checkouts[i]
      ensures Records() == old(Records())[i := old(Records())[i].(returned := true)]
    {
      checkouts[i].MarkReturned();
    }

    /** The tail of a successful `checkout_book`: record the new checkout, write
        the lowered quantity back to the catalog and save the ledger. */
    method Lend(c: Checkout, quantity: int)
      requires Valid() && c !in checkouts && CheckoutIsbnOk(c.isbn)
      modifies this, catalog
      ensures Valid() && checkouts == old(checkouts) + [c]
      ensures Records() == old(Records()) + [c.ToRecord()] && saved == Some(Records())
      ensures catalog.books == WithQuantity(old(catalog.books), c.isbn, quantity)
      ensures catalog.saved == old(catalog.saved)
    {
      Append(c);
      catalog.UpdateBookQuantity(c.isbn, quantity);
      SaveCheckouts();
    }

    /** `self.checkouts.append(checkout)` for a checkout not yet in the ledger. */
    method Append(c: Checkout)
      requires Valid() && c !in checkouts && CheckoutIsbnOk(c.isbn)
      modifies this
      ensures Valid() && checkouts == old(checkouts) + [c] && saved == old(saved)
      ensures Records() == old(Records()) + [c.ToRecord()]
    {
      checkouts := checkouts + [c];
      assert checkouts[..|checkouts| - 1] == old(checkouts);
    }

    /** `_save_checkouts`: overwrite storage with the whole ledger. */
    method SaveCheckouts()
      modifies this
      ensures checkouts == old(checkouts) && saved == Some(Records())
    {
      saved := Some(Records());
    }

    /** `load_checkouts`: `data` is what storage returned (`None` for a missing
        file).  Non-empty data replaces the ledger with fresh checkouts unless
        one of its records has an ISBN of the wrong length. */
    method LoadCheckouts(data: Option<seq<CheckoutRecord>>) returns (r: Outcome<CheckoutError>)
      requires Valid()
      modifies this
      ensures Valid() && saved == old(saved)
      ensures (data.None? || data.value == []) ==> r.Pass? && checkouts == old(checkouts)
      ensures data.Some? && data.value != [] ==>
        (r.Pass? <==> forall k :: 0 <= k < |data.value| ==> CheckoutIsbnOk(data.value[k].isbn))
      ensures r.Pass? && data.Some? && data.value != [] ==>
        Records() == data.value && forall k :: 0 <= k < |checkouts| ==> fresh(checkouts[k])
      ensures r.Fail? ==> checkouts == old(checkouts)
    {
      if data.None? || data.value == [] {
        return Pass;
      }
      var items := data.value;
      var loaded: seq<Checkout> := [];
      var i := 0;
      while i < |items|
        invariant 0 <= i <= |items| && |loaded| == i
        invariant forall k :: 0 <= k < i ==> fresh(loaded[k]) && loaded[k].ToRecord() == items[k]
        invariant forall k :: 0 <= k < i ==> CheckoutIsbnOk(items[k].isbn)
        invariant forall j, k :: 0 <= j < k < i ==> loaded[j] != loaded[k]
        invariant checkouts == old(checkouts) && saved == old(saved)
      {
        var c := Checkout.FromRecord(items[i]);
        if c.Err? {
          return Fail(c.error);
        }
        loaded := loaded + [c.value];
        i := i + 1;
      }
      checkouts := loaded;
      assert Records() == items;
      return Pass;
    }
  }

  // ---------------------------------------------------------------------
  // Calls in sequence on the live objects
  // ---------------------------------------------------------------------

  /** A checkout followed by a return of the same pair, on the ledger and
      catalog objects: when the checkout succeeds the return succeeds too, and
      every book of the catalog is back where it was. */
  method CheckoutThenReturn(m: CheckoutManager, userId: string, isbn: string)
    returns (lent: CheckoutOutcome, back: ReturnOutcome)
    requires m.Valid()
    modifies m, m.catalog, m.checkouts
    ensures m.Valid()
    ensures lent == CheckoutStep(State(old(m.catalog.books), old(m.Records())), userId, isbn).0
    ensures lent == CheckedOut ==> back == Returned && m.catalog.books == old(m.catalog.books)
  {
    lent := m.CheckoutBook(userId, isbn);
    if lent == CheckedOut {
      CheckoutThenReturnRestores(State(old(m.catalog.books), old(m.Records())), userId, isbn);
    }
    back := m.ReturnBook(userId, isbn);
  }

  /** Saving a valid ledger and loading what was saved succeeds and gives back
      the same records. */
  method SaveThenLoad(m: CheckoutManager) returns (r: Outcome<CheckoutError>)
    requires m.Valid()
    modifies m
    ensures r.Pass? && m.Valid() && m.Records() == old(m.Records()) && m.saved == Some(m.Records())
  {
    m.SaveCheckouts();
    m.RecordsLoadable();
    r := m.LoadCheckouts(m.saved);
  }
}
