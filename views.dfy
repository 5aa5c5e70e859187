/** The request handlers of the catalog: the borrow, return and renew views,
    the delete-with-fallback rule of every delete view, and the home page. */
module Views {
  import opened Tables
  import opened Records
  import opened Queries
  import opened Loans

  /** The HTTP method of a request: POST, GET, or any method other than those two.
      Every method but POST takes the display branch. */
  datatype RequestMethod = Get | Post | OtherMethod

  /** What `RenewBookModelForm(request.POST)` decides: valid with its cleaned
      `due_back`, or invalid. Its rules are not part of this model. */
  datatype RenewForm = ValidForm(dueBack: Date) | InvalidForm

  /** The form shown on the renewal page: the rejected bound form, or a fresh
      form proposing a due date. */
  datatype RenewFormView = Rejected | Initial(proposedDueBack: Date)

  /** A rendered page, with the context the template receives. */
  datatype Page =
    | BorrowConfirm(copy: Copy)
    | ReturnConfirm(copy: Copy)
    | RenewPage(copy: Copy, form: RenewFormView)

  /** The named destinations of the redirects. */
  datatype Route = Borrowed | MyBorrowed | ListOf(table: Table) | DeleteConfirm(table: Table, pk: int)

  datatype Response = NotFound | Redirect(to: Route) | Render(page: Page)

  /** The relational store as the views see it: one table per entity. */
  class Catalog {
    var books: seq<Row<Book>>
    var authors: seq<Row<Author>>
    var genres: seq<Row<Genre>>
    var languages: seq<Row<Language>>
    var copies: seq<Row<BookInstance>>

    function State(): Db
      reads this
    {
      Db(books, authors, genres, languages, copies)
    }

    predicate Valid()
      reads this
    {
      State().Valid()
    }

    constructor (db: Db)
      requires db.Valid()
      ensures Valid() && State() == db
    {
      books, authors, genres, languages, copies := db.books, db.authors, db.genres, db.languages, db.copies;
    }

    /** `book_borrow`: a POST lends the copy to the acting user for four weeks,
        whatever its prior state, and redirects to the user's list; any other
        method shows the confirmation page. */
    method BookBorrow(pk: int, verb: RequestMethod, user: UserId, today: Date) returns (resp: Response)
      requires Valid()
      modifies this
      ensures Valid()
      ensures IndexOf(old(copies), pk).None? ==> resp == NotFound && State() == old(State())
      ensures IndexOf(old(copies), pk).Some? && verb == Post ==>
        var i := IndexOf(old(copies), pk).value;
        && resp == Redirect(MyBorrowed)
        && State() == old(State()).(copies := BorrowAt(old(copies), i, user, today))
      ensures IndexOf(old(copies), pk).Some? && verb != Post ==>
        && resp == Render(BorrowConfirm(old(copies)[IndexOf(old(copies), pk).value]))
        && State() == old(State())
    {
      var found := IndexOf(copies, pk);
      if found.None? {
        return NotFound;
      }
      var i := found.value;
      if verb == Post {
        UpdateKeepsUnique(copies, i, BorrowCopy(copies[i].rec, user, today));
        TransitionsKeepCodes(copies, i, user, today, today);
        copies := BorrowAt(copies, i, user, today);
        resp := Redirect(MyBorrowed);
      } else {
        resp := Render(BorrowConfirm(copies[i]));
      }
    }

    /** `book_return_librarian`: a POST makes the copy available with no borrower
        and no due date, whatever its prior state, and redirects to the loaned
        list; any other method shows the confirmation page. */
    method BookReturnLibrarian(pk: int, verb: RequestMethod) returns (resp: Response)
      requires Valid()
      modifies this
      ensures Valid()
      ensures IndexOf(old(copies), pk).None? ==> resp == NotFound && State() == old(State())
      ensures IndexOf(old(copies), pk).Some? && verb == Post ==>
        var i := IndexOf(old(copies), pk).value;
        && resp == Redirect(Borrowed)
        && State() == old(State()).(copies := ReturnAt(old(copies), i))
      ensures IndexOf(old(copies), pk).Some? && verb != Post ==>
        && resp == Render(ReturnConfirm(old(copies)[IndexOf(old(copies), pk).value]))
        && State() == old(State())
    {
      var found := IndexOf(copies, pk);
      if found.None? {
        return NotFound;
      }
      var i := found.value;
      if verb == Post {
        UpdateKeepsUnique(copies, i, ReturnCopy(copies[i].rec));
        TransitionsKeepCodes(copies, i, 0, 0, 0);
        copies := ReturnAt(copies, i);
        resp := Redirect(Borrowed);
      } else {
        resp := Render(ReturnConfirm(copies[i]));
      }
    }

    /** `renew_book_librarian`: a POST with a valid form sets the due date to the
        validated one and redirects to the loaned list; a POST with an invalid
        form shows the form again and changes nothing; any other method shows a
        fresh form proposing a due date four weeks from today. */
    method RenewBookLibrarian(pk: int, verb: RequestMethod, posted: RenewForm, today: Date)
      returns (resp: Response)
      requires Valid()
      modifies this
      ensures Valid()
      ensures IndexOf(old(copies), pk).None? ==> resp == NotFound && State() == old(State())
      ensures IndexOf(old(copies), pk).Some? && verb == Post && posted.ValidForm? ==>
        var i := IndexOf(old(copies), pk).value;
        && resp == Redirect(Borrowed)
        && State() == old(State()).(copies := RenewAt(old(copies), i, posted.dueBack))
      ensures IndexOf(old(copies), pk).Some? && verb == Post && posted.InvalidForm? ==>
        && resp == Render(RenewPage(old(copies)[IndexOf(old(copies), pk).value], Rejected))
        && State() == old(State())
      ensures IndexOf(old(copies), pk).Some? && verb != Post ==>
        var i := IndexOf(old(copies), pk).value;
        && resp == Render(RenewPage(old(copies)[i], Initial(today + LOAN_PERIOD)))
        && State() == old(State())
    {
      var found := IndexOf(copies, pk);
      if found.None? {
        return NotFound;
      }
      var i := found.value;
      var form: RenewFormView;
      if verb == Post {
        if posted.ValidForm? {
          UpdateKeepsUnique(copies, i, RenewCopy(copies[i].rec, posted.dueBack));
          TransitionsKeepCodes(copies, i, 0, 0, posted.dueBack);
          copies := RenewAt(copies, i, posted.dueBack);
          return Redirect(Borrowed);
        }
        form := Rejected;
      } else {
        form := Initial(today + LOAN_PERIOD);
      }
      resp := Render(RenewPage(copies[i], form));
    }

    /** `form_valid` of every delete view: when the store accepts the deletion the
        record is gone and the response redirects to the list; when it refuses,
        nothing changes and the response redirects back to the same record's
        delete page. `accepted` is the store's verdict on `self.object.delete()`. */
    method DeleteFormValid(t: Table, pk: int, accepted: bool) returns (resp: Response)
      requires Valid()
      modifies this
      ensures Valid()
      ensures !old(State()).Has(t, pk) ==> resp == NotFound && State() == old(State())
      ensures old(State()).Has(t, pk) && accepted ==>
        resp == Redirect(ListOf(t)) && State() == old(State()).Without(t, pk)
      ensures old(State()).Has(t, pk) && !accepted ==>
        resp == Redirect(DeleteConfirm(t, pk)) && State() == old(State())
    {
      if !State().Has(t, pk) {
        return NotFound;
      }
      if !accepted {
        return Redirect(DeleteConfirm(t, pk));
      }
      WithoutKeepsValid(State(), t, pk);
      match t {
        case Books => books := RemovePk(books, pk);
        case Authors => authors := RemovePk(authors, pk);
        case Genres => genres := RemovePk(genres, pk);
        case Languages => languages := RemovePk(languages, pk);
        case BookInstances => copies := RemovePk(copies, pk);
      }
      resp := Redirect(ListOf(t));
    }
  }

  /** The per-session key/value store of the framework. */
  class Session {
    var data: map<string, int>

    constructor (data: map<string, int>)
      ensures this.data == data
    {
      this.data := data;
    }
  }

  const VISITS_KEY: string := "num_visits"

  /** `dict.get(key, default)`. */
  function Get(data: map<string, int>, key: string, default: int): int {
    if key in data then data[key] else default
  }

  /** The context of the home page. */
  datatype IndexContext = IndexContext(numBooks: nat, numInstances: nat, numInstancesAvailable: nat,
                                       numAuthors: nat, numGenres: nat, numBooksWithThe: nat,
                                       numVisits: int)

  /** `index`: the dashboard counts, and the session's visit count before this
      visit; the session's count goes up by exactly one and nothing else in the
      session changes. */
  method Index(catalog: Catalog, session: Session) returns (ctx: IndexContext)
    requires catalog.Valid()
    modifies session
    ensures ctx.numBooks == |catalog.books| && ctx.numInstances == |catalog.copies|
    ensures ctx.numAuthors == |catalog.authors| && ctx.numGenres == |catalog.genres|
    ensures ctx.numInstancesAvailable == AvailableCount(catalog.copies)
    ensures ctx.numInstancesAvailable == |Filter(HasCode('a'), catalog.copies)|
    ensures ctx.numBooksWithThe == BooksWithTheCount(catalog.books)
    ensures ctx.numVisits == old(Get(session.data, VISITS_KEY, 0))
    ensures session.data == old(session.data)[VISITS_KEY := ctx.numVisits + 1]
  {
    StatusCodeFilters(catalog.copies);
    var numVisits := Get(session.data, VISITS_KEY, 0);
    session.data := session.data[VISITS_KEY := numVisits + 1];
    ctx := IndexContext(|catalog.books|, |catalog.copies|, AvailableCount(catalog.copies),
                        |catalog.authors|, |catalog.genres|, BooksWithTheCount(catalog.books),
                        numVisits);
  }
}
