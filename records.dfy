/** The catalog's entities and the per-copy effect of the three loan transitions. */
module Records {
  import opened Tables

  /** Dates are day numbers; "today" is always passed in. */
  type Date = int
  type UserId = int

  /** `datetime.timedelta(weeks=4)`, in days. */
  const LOAN_PERIOD: int := 28

  /** Status of a copy. Only the codes 'a' and 'o' appear in the views; every
      other code (maintenance, reserved, ...) is `Other`. */
  datatype Status = Available | OnLoan | Other(code: char)

  /** A status whose `Other` code is not one of the two named codes. */
  predicate WellFormedStatus(s: Status) {
    s.Other? ==> s.code != 'a' && s.code != 'o'
  }

  /** The one-character code stored in the `status` column. */
  function Code(s: Status): char {
    match s
    case Available => 'a'
    case OnLoan => 'o'
    case Other(c) => c
  }

  /** The status a stored code stands for. */
  function StatusOf(c: char): (s: Status)
    ensures WellFormedStatus(s)
  {
    if c == 'a' then Available else if c == 'o' then OnLoan else Other(c)
  }

  /** Codes and statuses correspond one to one, so `status__exact='a'` selects
      exactly the available copies and `status__exact='o'` exactly the loaned ones. */
  lemma CodeRoundTrip(s: Status, c: char)
    ensures WellFormedStatus(s) ==> StatusOf(Code(s)) == s
    ensures Code(StatusOf(c)) == c
    ensures WellFormedStatus(s) ==> (Code(s) == 'a' <==> s == Available)
    ensures WellFormedStatus(s) ==> (Code(s) == 'o' <==> s == OnLoan)
  {
  }

  datatype Book = Book(title: string, author: Option<int>, summary: string, isbn: string,
                       genres: set<int>, language: Option<int>)
  datatype Author = Author(firstName: string, lastName: string,
                           dateOfBirth: Option<Date>, dateOfDeath: Option<Date>)
  datatype Genre = Genre(name: string)
  datatype Language = Language(name: string)

  /** One physical copy of a book. */
  datatype BookInstance = BookInstance(book: int, imprint: string, dueBack: Option<Date>,
                                       status: Status, borrower: Option<UserId>)

  /** The loan invariant, which nothing in the views enforces: a borrower and a
      due date are recorded exactly when the copy is on loan. */
  predicate LoanConsistent(c: BookInstance) {
    && (c.borrower.Some? <==> c.status == OnLoan)
    && (c.dueBack.Some? <==> c.status == OnLoan)
  }

  /** The assignments of a borrow POST: on loan to `user`, due four weeks from today. */
  function BorrowCopy(c: BookInstance, user: UserId, today: Date): BookInstance {
    c.(status := OnLoan, borrower := Some(user), dueBack := Some(today + LOAN_PERIOD))
  }

  /** The assignments of a return POST: available, no borrower, no due date. */
  function ReturnCopy(c: BookInstance): BookInstance {
    c.(status := Available, borrower := None, dueBack := None)
  }

  /** The assignment of a renewal with a valid form: the validated due date. */
  function RenewCopy(c: BookInstance, dueBack: Date): BookInstance {
    c.(dueBack := Some(dueBack))
  }

  /** Every stored status code decodes to its status: no copy holds `Other('a')`
      or `Other('o')`, so the code stored is the status the model sees. */
  predicate WellFormedCopies(copies: seq<Row<BookInstance>>) {
    forall k :: 0 <= k < |copies| ==> WellFormedStatus(copies[k].rec.status)
  }

  /** Deleting a row keeps every remaining status well formed. */
  lemma RemoveKeepsWellFormed(copies: seq<Row<BookInstance>>, pk: int)
    requires WellFormedCopies(copies)
    ensures WellFormedCopies(RemovePk(copies, pk))
  {
    var r := RemovePk(copies, pk);
    forall k | 0 <= k < |r| ensures WellFormedStatus(r[k].rec.status) {
      assert r[k] in copies;
      var j :| 0 <= j < |copies| && copies[j] == r[k];
    }
  }

  /** The entity kinds that have a delete view. */
  datatype Table = Books | Authors | Genres | Languages | BookInstances

  /** The whole relational store. */
  datatype Db = Db(books: seq<Row<Book>>, authors: seq<Row<Author>>, genres: seq<Row<Genre>>,
                   languages: seq<Row<Language>>, copies: seq<Row<BookInstance>>)
  {
    predicate Valid() {
      UniquePks(books) && UniquePks(authors) && UniquePks(genres)
      && UniquePks(languages) && UniquePks(copies) && WellFormedCopies(copies)
    }

    /** Whether table `t` holds a row with key `pk`. */
    predicate Has(t: Table, pk: int) {
      match t
      case Books => IndexOf(books, pk).Some?
      case Authors => IndexOf(authors, pk).Some?
      case Genres => IndexOf(genres, pk).Some?
      case Languages => IndexOf(languages, pk).Some?
      case BookInstances => IndexOf(copies, pk).Some?
    }

    /** The number of rows of table `t`. */
    function Size(t: Table): nat {
      match t
      case Books => |books|
      case Authors => |authors|
      case Genres => |genres|
      case Languages => |languages|
      case BookInstances => |copies|
    }

    /** The store after deleting the row with key `pk` from table `t`. */
    function Without(t: Table, pk: int): Db {
      match t
      case Books => this.(books := RemovePk(books, pk))
      case Authors => this.(authors := RemovePk(authors, pk))
      case Genres => this.(genres := RemovePk(genres, pk))
      case Languages => this.(languages := RemovePk(languages, pk))
      case BookInstances => this.(copies := RemovePk(copies, pk))
    }
  }

  /** Deleting by key keeps every table's keys unique and every stored code
      well formed. */
  lemma WithoutKeepsValid(db: Db, t: Table, pk: int)
    requires db.Valid()
    ensures db.Without(t, pk).Valid()
  {
    match t {
      case BookInstances =>
        RemoveKeepsWellFormed(db.copies, pk);
      case _ =>
        assert db.Without(t, pk).copies == db.copies;
    }
  }

  /** After a delete, every other (table, key) pair is present exactly as before. */
  lemma WithoutKeepsOtherKeys(db: Db, t: Table, pk: int)
    ensures forall u: Table, k: int :: (u, k) != (t, pk) ==> (db.Without(t, pk).Has(u, k) <==> db.Has(u, k))
    ensures !db.Without(t, pk).Has(t, pk)
  {
    var after := db.Without(t, pk);
    RemovePkKeys(db.books, pk, pk);
    RemovePkKeys(db.authors, pk, pk);
    RemovePkKeys(db.genres, pk, pk);
    RemovePkKeys(db.languages, pk, pk);
    RemovePkKeys(db.copies, pk, pk);
    forall u: Table, k: int | (u, k) != (t, pk)
      ensures after.Has(u, k) <==> db.Has(u, k)
    {
      match u {
        case Books => RemovePkKeys(db.books, pk, k);
        case Authors => RemovePkKeys(db.authors, pk, k);
        case Genres => RemovePkKeys(db.genres, pk, k);
        case Languages => RemovePkKeys(db.languages, pk, k);
        case BookInstances => RemovePkKeys(db.copies, pk, k);
      }
    }
  }

  /** A delete of a present key shrinks its table by one and no other table. */
  lemma WithoutSizes(db: Db, t: Table, pk: int)
    requires db.Valid() && db.Has(t, pk)
    ensures db.Without(t, pk).Size(t) == db.Size(t) - 1
    ensures forall u: Table :: u != t ==> db.Without(t, pk).Size(u) == db.Size(u)
  {
    match t {
      case Books => RemoveOnlyThatRow(db.books, pk, IndexOf(db.books, pk).value);
      case Authors => RemoveOnlyThatRow(db.authors, pk, IndexOf(db.authors, pk).value);
      case Genres => RemoveOnlyThatRow(db.genres, pk, IndexOf(db.genres, pk).value);
      case Languages => RemoveOnlyThatRow(db.languages, pk, IndexOf(db.languages, pk).value);
      case BookInstances => RemoveOnlyThatRow(db.copies, pk, IndexOf(db.copies, pk).value);
    }
  }

  /** A delete of a present key cuts just that row out of its table, keeping
      the other rows in order, and leaves every other table as it was. */
  lemma WithoutRows(db: Db, t: Table, pk: int)
    requires db.Valid() && db.Has(t, pk)
    ensures t == Books ==> var i := IndexOf(db.books, pk).value;
      db.Without(t, pk).books == db.books[..i] + db.books[i + 1..]
    ensures t == Authors ==> var i := IndexOf(db.authors, pk).value;
      db.Without(t, pk).authors == db.authors[..i] + db.authors[i + 1..]
    ensures t == Genres ==> var i := IndexOf(db.genres, pk).value;
      db.Without(t, pk).genres == db.genres[..i] + db.genres[i + 1..]
    ensures t == Languages ==> var i := IndexOf(db.languages, pk).value;
      db.Without(t, pk).languages == db.languages[..i] + db.languages[i + 1..]
    ensures t == BookInstances ==> var i := IndexOf(db.copies, pk).value;
      db.Without(t, pk).copies == db.copies[..i] + db.copies[i + 1..]
    ensures t != Books ==> db.Without(t, pk).books == db.books
    ensures t != Authors ==> db.Without(t, pk).authors == db.authors
    ensures t != Genres ==> db.Without(t, pk).genres == db.genres
    ensures t != Languages ==> db.Without(t, pk).languages == db.languages
    ensures t != BookInstances ==> db.Without(t, pk).copies == db.copies
  {
    match t {
      case Books => RemoveOnlyThatRow(db.books, pk, IndexOf(db.books, pk).value);
      case Authors => RemoveOnlyThatRow(db.authors, pk, IndexOf(db.authors, pk).value);
      case Genres => RemoveOnlyThatRow(db.genres, pk, IndexOf(db.genres, pk).value);
      case Languages => RemoveOnlyThatRow(db.languages, pk, IndexOf(db.languages, pk).value);
      case BookInstances => RemoveOnlyThatRow(db.copies, pk, IndexOf(db.copies, pk).value);
    }
  }

  /** A successful delete removes that one record and nothing else: the store
      stays valid, the key is gone, its table shrinks by one and keeps its other
      rows in order, every other table is unchanged, and every other
      (table, key) pair is present exactly as before. */
  lemma DeleteRemovesOnlyThatRecord(db: Db, t: Table, pk: int)
    requires db.Valid() && db.Has(t, pk)
    ensures t == Books ==> var i := IndexOf(db.books, pk).value;
      db.Without(t, pk).books == db.books[..i] + db.books[i + 1..]
    ensures t == Authors ==> var i := IndexOf(db.authors, pk).value;
      db.Without(t, pk).authors == db.authors[..i] + db.authors[i + 1..]
    ensures t == Genres ==> var i := IndexOf(db.genres, pk).value;
      db.Without(t, pk).genres == db.genres[..i] + db.genres[i + 1..]
    ensures t == Languages ==> var i := IndexOf(db.languages, pk).value;
      db.Without(t, pk).languages == db.languages[..i] + db.languages[i + 1..]
    ensures t == BookInstances ==> var i := IndexOf(db.copies, pk).value;
      db.Without(t, pk).copies == db.copies[..i] + db.copies[i + 1..]
    ensures t != Books ==> db.Without(t, pk).books == db.books
    ensures t != Authors ==> db.Without(t, pk).authors == db.authors
    ensures t != Genres ==> db.Without(t, pk).genres == db.genres
    ensures t != Languages ==> db.Without(t, pk).languages == db.languages
    ensures t != BookInstances ==> db.Without(t, pk).copies == db.copies
    ensures db.Without(t, pk).Valid()
    ensures !db.Without(t, pk).Has(t, pk)
    ensures db.Without(t, pk).Size(t) == db.Size(t) - 1
    ensures forall u: Table :: u != t ==> db.Without(t, pk).Size(u) == db.Size(u)
    ensures forall u: Table, k: int :: (u, k) != (t, pk) ==> (db.Without(t, pk).Has(u, k) <==> db.Has(u, k))
  {
    WithoutKeepsValid(db, t, pk);
    WithoutRows(db, t, pk);
    WithoutSizes(db, t, pk);
    WithoutKeepsOtherKeys(db, t, pk);
  }
}
