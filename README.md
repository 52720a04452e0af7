# Library catalog: a verified model of its in-memory bookkeeping

The library keeps three lists: a catalog of books, a directory of users and
a ledger of checkouts. Each list lives in a manager object that appends to
it and then writes the whole list to storage. The checkout ledger also moves
the quantity of the catalog's books down on a checkout and up on a return.

This project models those managers and the record types they hold, and it
proves what each operation does to the lists, to the saved snapshots and to
the quantities.

- `wrappers.dfy`, module `Wrappers`: `Option`, `Result` and `Outcome`, which carry the error paths that raise in the source.
- `models.dfy`, module `Models`:
  - the six field validators of a book, written as anchored patterns (`Pattern`, `FullMatch`), with lemmas that give each pattern its plain character-class meaning;
  - the book constructor, which reports the first field that fails;
  - the stored forms of books, users and checkouts;
  - the decimal rendering behind the `LIB_USER_<n>` ids;
  - the process-wide user counter, as a class `UserCounter`;
  - `Checkout`, a class whose `returned` flag is updated in place.
- `book.py` is modelled by `book.dfy`, module `BookCatalog`:
  - class `BookManager`, with a `books` sequence and a `saved` snapshot;
  - the lookup by ISBN and the quantity overwrite that the ledger calls, with their laws.
- `user.py` is modelled by `user.dfy`, module `UserDirectory`: class `UserManager`, which shares one `UserCounter`.
- `checkout.py` is modelled by `checkout.dfy`, module `CheckoutLedger`:
  - the pure step functions `CheckoutStep` and `ReturnStep` over the pair (catalog books, ledger records);
  - lemmas about one step and about many steps;
  - class `CheckoutManager`, whose methods are proved to perform exactly those steps on the live objects;
  - two call sequences on the live objects: a checkout followed by a return, and a save followed by a load.

Storage appears only as data:
- Each manager has a `saved` field: the list of records it last handed to storage, or `None` before the first write.
- Each load takes `data`: what storage returned, with `None` for a missing file.

## Design decisions

- **Values and classes.**
  - Book and User are values: the source never updates one in place.
  - Checkout is a class: `mark_returned` sets its flag in place.
  - The ledger's invariant `Valid()` says two things. Its checkout objects are pairwise distinct, so marking one object changes exactly one record. Every checkout's ISBN has length 10 or 13, because each one was built by the checkout constructor (checkout.py:39, checkout.py:83) and so passed its check (models.py:203-204). This is why a saved ledger always loads back.
- **Assumed catalog operations.**
  - `get_book_by_isbn` and `update_book_quantity` are called by `checkout.py` but are not defined in `book.py`.
  - They are modelled as `BookManager.GetBookByIsbn` and `BookManager.UpdateBookQuantity`.
  - The lookup returns the first book with the ISBN, or nothing.
  - The update overwrites that book's quantity and writes nothing to storage.
  - Both are assumptions made from how the ledger uses them.
- **Reloading users fails.**
  - `load_users` would replace the list with the users rebuilt from storage (user.py:48-50).
  - But `User.from_dict` passes a name and an id to a constructor that takes only a name (models.py:184 against models.py:147), so it raises for every stored user.
  - So loading a non-empty user file fails. `LoadUsers` returns `Fail(ConstructorArity)` and leaves the list as it was.
  - Nothing restores `last_user_number` from stored ids, and loading never touches the counter.
- **Missing book on return.**
  - `return_book` marks the record, then reads the quantity of a book the catalog may no longer hold.
  - That crash is the outcome `BookMissing`.
  - In that outcome the mark stays in place, the quantities are unchanged and nothing is saved, as in the source.
- **Failed checkout construction.**
  - The ISBN-length `ValueError` raised inside `checkout_book` is the outcome `Rejected(IsbnLength)`.
  - `CheckoutKeepsCatalogValid` proves that it cannot happen for a catalog of books accepted by the modelled book validator. The source's own validator also accepts 10 or 13 digits followed by a newline, and for such a book it does happen (see "## Left out").
- **Integers.** Quantities are unbounded `int`s, like Python's.

## Model

| member | source | states |
|---|---|---|
| Models.FullMatch | models.py:49-90 | definition of an anchored match of the validation patterns; its meaning is stated by `ExactlyMatches` and `OneOrMoreMatches` |
| Models.ExactlyMatches | models.py:49 | `^k{n}$` accepts a string exactly when it has length n and every character is in class k |
| Models.OneOrMoreMatches | models.py:59-90 | `^k+$` accepts a string exactly when it is non-empty and every character is in class k |
| Models.IsbnAccepted | models.py:49-50 | an ISBN is accepted iff its length is 10 or 13 and every character is an ASCII digit |
| Models.AuthorAccepted | models.py:59-60 | an author is accepted iff it is non-empty and made of letters, spaces and periods |
| Models.PublicationAccepted | models.py:69-70 | a publication is accepted iff it is non-empty and made of letters, spaces and periods |
| Models.GenreAccepted | models.py:79-80 | a genre is accepted iff it is non-empty and made of letters and spaces only (no periods) |
| Models.ShelfNumberAccepted | models.py:89-90 | a shelf number is accepted iff it is non-empty and made of letters, digits and hyphens |
| Models.NewBook | models.py:29-40 | construction succeeds iff every field is valid (quantity at least 0, as in models.py:99-103) and then yields exactly the given fields; on failure the reported field is invalid and every field checked before it is valid, in the order isbn, author, publication, genre, shelf, quantity |
| Models.BookFromRecord | models.py:132-142 | definition of `Book.from_dict`; its meaning is stated by `BookRoundTrip`, `BookRecordRoundTrip` and `NewBook` |
| Models.BookRoundTrip | models.py:121-142 | for a valid book, rebuilding it from the dictionary `to_dict` writes gives back the same book |
| Models.BookRecordRoundTrip | models.py:142 | a stored record that loads gives a valid book whose stored form is that same record |
| Models.Decimal | models.py:159 | the rendering of a counter value is a non-empty string of digits with no leading zero |
| Models.DecimalValue | models.py:159 | the digits rendered for n denote n |
| Models.UserId | models.py:159 | definition of the id for a counter value; its meaning is stated by `UserIdNumber` and `UserIdInjective` |
| Models.UserIdNumber | models.py:158-159 | the id made from counter value n is `LIB_USER_` followed by digits that read back as n |
| Models.UserIdInjective | models.py:158-159 | two ids are equal exactly when they were made from the same counter value |
| Models.UserFromRecord | models.py:184 | rebuilding a user from its stored form always fails (the constructor takes only a name) |
| Models.UserCounter.constructor | models.py:145 | the counter starts at 0 |
| Models.UserCounter.NewUser | models.py:157-159 | a user construction raises the counter by exactly 1, keeps the name, and takes `UserId` of the new counter value as the id |
| Models.ValidIsbnFitsCheckout | models.py:203-204 | an ISBN the modelled book validator accepts always has the length a checkout requires |
| Models.Checkout.Init | models.py:206-208 | the fields hold the user id, ISBN and flag given |
| Models.Checkout.New | models.py:203-208 | construction succeeds iff the ISBN length is 10 or 13, and then yields a fresh checkout whose state is exactly the arguments given |
| Models.Checkout.FromRecord | models.py:243 | a stored checkout loads iff its ISBN length is 10 or 13, and then yields a fresh checkout whose stored form is that record |
| Models.Checkout.MarkReturned | models.py:217 | sets `returned` to true and changes nothing else, so a second call changes nothing |
| BookCatalog.FirstIsbn | checkout.py:28 | the lookup finds the first position holding the ISBN, or reports that no book holds it |
| BookCatalog.WithQuantity | checkout.py:43 | definition of the assumed `update_book_quantity`; its meaning is stated by `WithQuantityEffect`, `WithQuantityKeepsLookup`, `WithQuantityFound`, `WithQuantityTwice`, `WithQuantityUnchanged` and `WithQuantityValid` |
| BookCatalog.WithQuantityEffect | checkout.py:43 | the quantity overwrite keeps the length and changes nothing but the quantity of the first book with the ISBN, which becomes the given value |
| BookCatalog.WithQuantityKeepsLookup | checkout.py:43 | after an overwrite every ISBN is found where it was before |
| BookCatalog.WithQuantityFound | checkout.py:43 | after an overwrite the same book is found and holds the new quantity |
| BookCatalog.WithQuantityTwice | checkout.py:66 | of two overwrites of the same ISBN the second wins |
| BookCatalog.WithQuantityUnchanged | checkout.py:66 | writing back the quantity the found book already has changes nothing |
| BookCatalog.WithQuantityValid | checkout.py:43 | a non-negative overwrite keeps every book of a valid catalog valid |
| BookCatalog.DuplicateIsShadowed | book.py:32-34 | a book appended under an ISBN the list already holds is never the one the lookup finds |
| BookCatalog.BooksFromRecords | book.py:52 | loading succeeds iff every record builds a valid book, and then gives those books in order; a failure carries the error of the first record that does not build |
| BookCatalog.SaveLoadRoundTrip | book.py:45-52 | loading the records the catalog saves gives back the same list of books |
| BookCatalog.LoadedBooksValid | book.py:52 | every book a load accepts is valid |
| BookCatalog.BookManager.constructor | book.py:12-13 | a new catalog is empty, valid and has saved nothing |
| BookCatalog.BookManager.AddBook | book.py:32-36 | succeeds iff the book is valid, with no check against existing ISBNs; on success the list is the old list plus the one new book at the end and the snapshot is the whole new list; on failure it reports the constructor's error and leaves list and snapshot untouched; the catalog stays valid |
| BookCatalog.BookManager.ListBooks | book.py:40-41 | visits exactly the books in insertion order and changes nothing |
| BookCatalog.BookManager.SaveBooks | book.py:45-46 | the snapshot becomes the stored form of the whole list, in order |
| BookCatalog.BookManager.LoadBooks | book.py:50-52 | missing or empty data leaves the list as it was; other data replaces the list iff every record loads, otherwise the first failure is reported and the list is kept; the snapshot is never touched and validity is kept |
| BookCatalog.BookManager.GetBookByIsbn | checkout.py:28 | gives nothing exactly when no book holds the ISBN, and otherwise the first book that does |
| BookCatalog.BookManager.UpdateBookQuantity | checkout.py:43 | the list becomes the overwrite of the first matching book's quantity; storage is not written; a non-negative quantity keeps the catalog valid |
| UserDirectory.IdsDistinct | models.py:158-159 | ids drawn from the counter in list order are pairwise distinct |
| UserDirectory.UsersFromRecords | user.py:50 | loading users succeeds only for an empty list of records |
| UserDirectory.UserManager.constructor | user.py:14-15 | a new directory is empty and has saved nothing |
| UserDirectory.UserManager.AddUser | user.py:27-29 | appends exactly one user with the name as given and the id of the raised counter, whose number exceeds that of every earlier user; the snapshot is the whole new list; the ids stay drawn from the counter in increasing order |
| UserDirectory.UserManager.SaveUsers | user.py:38-39 | the snapshot becomes the stored form of the whole list, in order |
| UserDirectory.UserManager.LoadUsers | user.py:48-50 | succeeds iff the data is missing or empty; the list and the snapshot are unchanged either way, and the counter is not touched |
| CheckoutLedger.FirstMatch | checkout.py:61-62 | the first record with both the user id and the ISBN, or none |
| CheckoutLedger.CheckoutStep | checkout.py:16-47 | definition of one `checkout_book` call; its meaning is stated by `CheckoutRefusals`, `CheckoutSuccess`, `CheckoutKeepsCatalogValid` and `CheckoutStepFound` |
| CheckoutLedger.ReturnStep | checkout.py:49-72 | definition of one `return_book` call; its meaning is stated by `ReturnEffect`, `ReturnKeepsCatalogValid`, `RepeatedReturnRaisesAgain` and `ReturnStepFound` |
| CheckoutLedger.CheckoutRefusals | checkout.py:28-36 | "not found" happens exactly when no book holds the ISBN and "not available" exactly when the first such book has quantity at most 0; both change nothing |
| CheckoutLedger.CheckoutSuccess | checkout.py:39-43 | a successful checkout appends exactly the on-loan record (user, isbn, false) and lowers only the found book's quantity, by exactly 1, from a positive value |
| CheckoutLedger.CheckoutKeepsCatalogValid | checkout.py:34-43 | with a catalog valid under the modelled book validator, checkout construction never fails and no quantity goes below 0 |
| CheckoutLedger.ReturnEffect | checkout.py:61-72 | a return marks the first matching record, returned or not, and keeps the ledger's length and every other record; with no match it changes nothing; otherwise it raises the found book's quantity by exactly 1 and changes no other book, or leaves the books alone when the catalog lacks the ISBN |
| CheckoutLedger.ReturnKeepsCatalogValid | checkout.py:66 | a return keeps a valid catalog valid |
| CheckoutLedger.MarkKeepsMatch | checkout.py:62-64 | marking a record keeps it the first match for its user and ISBN |
| CheckoutLedger.RepeatedReturnRaisesAgain | checkout.py:61-66 | returning the same pair twice succeeds twice and raises the quantity by 2, and the second return leaves the records as they were |
| CheckoutLedger.StepsAdvanceRecords | checkout.py:39-64 | checkouts and returns keep every existing record's user and ISBN, never turn a returned record back into a loan, and add records only as on loan |
| CheckoutLedger.CheckoutStepFound | checkout.py:39-43 | a checkout of an available book succeeds, appends the on-loan record and lowers the quantity by 1 |
| CheckoutLedger.ReturnStepFound | checkout.py:61-66 | a return of a held pair for a catalogued book succeeds, raises the quantity by 1 and keeps the same first match |
| CheckoutLedger.CheckoutThenReturnRestores | checkout.py:43-66 | a successful checkout followed by a return of the same pair succeeds and restores every book |
| CheckoutLedger.CheckoutTimesEffect | checkout.py:43 | n checkouts of a book with at least n copies lower its quantity by exactly n |
| CheckoutLedger.ReturnTimesEffect | checkout.py:66 | n returns of a held pair raise the quantity by exactly n and keep the same first match |
| CheckoutLedger.CheckoutsThenReturnsRestore | checkout.py:43-66 | n checkouts of a pair and then n returns of it restore every book |
| CheckoutLedger.CheckoutManager.constructor | checkout.py:12-14 | a new ledger is empty and has saved nothing |
| CheckoutLedger.CheckoutManager.RecordsLoadable | checkout.py:76-83 | every record a valid ledger saves has an ISBN of length 10 or 13, so a load accepts it |
| CheckoutLedger.CheckoutManager.CheckoutBook | checkout.py:16-47 | outcome, catalog books and ledger records are exactly one `CheckoutStep`; after a success the ledger holds its old checkout objects plus one fresh one at the end, and otherwise the same objects; the ledger snapshot is the whole ledger after a success and untouched otherwise; the catalog's snapshot is untouched; the ledger stays valid |
| CheckoutLedger.CheckoutManager.ReturnBook | checkout.py:61-72 | outcome, catalog books and ledger records are exactly one `ReturnStep`; no checkout object is added or removed; the ledger snapshot is the whole ledger after a success and untouched otherwise |
| CheckoutLedger.CheckoutManager.ReturnAt | checkout.py:64-70 | the loop body at the first match: mark, adjust the quantity, save, as `ReturnStep` says |
| CheckoutLedger.CheckoutManager.MarkAt | checkout.py:64 | marking the checkout at position i changes exactly that record of the ledger |
| CheckoutLedger.CheckoutManager.Lend | checkout.py:40-46 | appends exactly the new checkout object and its record, overwrites the quantity and saves the whole ledger |
| CheckoutLedger.CheckoutManager.Append | checkout.py:40 | the ledger gains exactly the given checkout and its record at its end, and stays valid |
| CheckoutLedger.CheckoutManager.SaveCheckouts | checkout.py:76-77 | the snapshot becomes the stored form of the whole ledger, in order |
| CheckoutLedger.CheckoutManager.LoadCheckouts | checkout.py:81-83 | missing or empty data leaves the ledger as it was; other data replaces it iff every record's ISBN has length 10 or 13, with fresh, distinct checkouts whose records are exactly the data; on failure the ledger is kept; the snapshot is never touched |
| CheckoutLedger.CheckoutThenReturn | checkout.py:16-72 | on the live objects, a successful checkout followed by a return of the same pair returns successfully and leaves every book of the catalog as it was |
| CheckoutLedger.SaveThenLoad | checkout.py:74-83 | saving a valid ledger and loading what was saved succeeds and gives back the same records |

## Left out

- storage.py (file access and JSON encoding) is not part of this model. It is replaced by the `saved` fields and by the `data` argument of the loads.
- main.py (the interactive menu) is not part of this model. It calls `add_book` and `add_user` with argument counts the managers do not accept.
- library.py is not part of this model; it only wires the three managers to file names.
- Printed status messages and `Book.__str__` are left out. Each printed message is an outcome value instead.
- Python's regular expressions are modelled with ASCII character classes only. `\d` matching other Unicode digits and `$` matching before a trailing newline are not modelled. So the source accepts an ISBN of 10 or 13 digits followed by a newline (models.py:49-50), and `checkout_book` then raises the ISBN-length `ValueError` (models.py:203-204, called at checkout.py:39). `ValidIsbnFitsCheckout` and `CheckoutKeepsCatalogValid` hold for the modelled patterns only.
- `int(...)` parsing of the quantity and the `isinstance` checks of the checkout constructor are left out: Dafny's types already guarantee an integer quantity and string ids.
- Stored data with missing keys or values of the wrong JSON type is left out: records are typed.
- `update_book_quantity` is assumed not to write the catalog to storage. So, after a checkout or return, the catalog's snapshot keeps the old quantity, which is what `catalog.saved == old(catalog.saved)` states.
- Concurrency and several processes sharing the same files are left out; the managers are used sequentially.
