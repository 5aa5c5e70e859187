# Library catalog: the book-copy loan workflow

This project models the loan workflow of a library-catalog web application (a Django project) and proves properties of that model. A library holds books, authors, genres, languages and physical copies of books ("book instances"). A copy has a status, an optional borrower and an optional due-back date. The views in `catalog/views.py` act on these copies:

- **Borrow (`book_borrow`).** On POST the copy goes on loan to the acting user, due four weeks from today. The view redirects to the user's own list.
- **Return (`book_return_librarian`).** On POST the copy becomes available and its borrower and due date are cleared. The view redirects to the list of loaned copies.
- **Renew (`renew_book_librarian`).** On POST with a valid renewal form, the copy's due date is set to the validated date. An invalid form is shown again. Any other method shows a fresh form that proposes today + 4 weeks.
- **Two read-only lists.** One shows every copy on loan; the other shows the current user's copies on loan. Both are sorted by due date.
- **Home page (`index`).** It shows dashboard counts and a per-session visit counter.
- **Delete views.** Each one deletes its record and redirects to the list. If the store refuses the deletion, it redirects back to that record's delete page instead.

Layout, one module per file:

- `tables.dfy` (`Tables`) has the tables. A table is a sequence of rows, each a primary key plus a record. The module also defines the ORM operations the views use and their lemmas: filter, key lookup (`get_object_or_404`) and delete-by-key.
- `records.dfy` (`Records`) has the entities, the status codes, the per-copy effect of each transition, the loan invariant and the whole store `Db`.
- `queries.dfy` (`Queries`) has the loaned lists, the stable sort by due date, the dashboard counts and the case-insensitive substring match.
- `loans.dfy` (`Loans`) applies each transition to the table of copies. It proves what each transition does to the lists, the counts and the loan invariant.
- `views.dfy` (`Views`) holds the `Catalog` class, whose fields are the five tables. Its methods are the borrow, return, renew and delete handlers. The module also has the `Session` class and the `Index` handler.

Modelling decisions:

- Dates are integer day numbers. "Today" is a parameter. `timedelta(weeks=4)` is the constant `LOAN_PERIOD = 28`.
- The status codes are defined in `catalog/models.py`, which is not part of this model. Only `'a'` (available) and `'o'` (on loan) appear in the views. Every other code is `Other(code)`. `CodeRoundTrip` proves that codes and well-formed statuses correspond one to one. A valid store holds only well-formed statuses (`WellFormedCopies`: no `Other('a')` or `Other('o')`). Every transition and every delete keeps this. On such a store, `StatusCodeFilters` proves that `status__exact='a'` and `status__exact='o'` select exactly the available and the on-loan copies.
- The renewal form's verdict is an input, `RenewForm`: either `ValidForm(dueBack)` or `InvalidForm`. The form's validation rules live in `catalog/forms.py`, which is not part of this model.
- Whether the store accepts a deletion is an input (`accepted`).
- A delete request for a key that does not exist yields `NotFound`. This is what the framework's delete view does before `form_valid` runs.
- `order_by('due_back')` is modelled as a stable sort in stored order. A copy with no due date sorts first, as NULL does on SQLite. Ties keep their stored order. The database promises no particular order for ties, so this is one admissible choice.
- `icontains` folds letter case for ASCII only, as SQLite's `LIKE` does.

Where the code does less than its names and comments suggest, the model follows the code:

- A natural data invariant is that a copy has a borrower and a due date exactly when it is on loan (`LoanConsistent`). Nothing in the views enforces it, and no view checks the prior status of a copy.
  - Borrowing a copy that is already on loan silently reassigns it (`BorrowIgnoresPriorLoan`). This is the behaviour written in the source.
  - Returning a copy that was never loaned is accepted.
  - Renewing a copy that is not on loan gives it a due date but no borrower. This breaks the invariant (`RenewConsistency`).
- The comment above the return view's POST branch (views.py:322) describes the borrow view. The model follows the assignments at lines 324-326.
- The comment at line 25 says "(title = 'a')". The code counts titles that contain "the" in any letter case. That includes titles such as "Brothers" (`TheMatchExamples`).

## Model

| member | source | states |
|---|---|---|
| Tables.Filter | catalog/views.py:92 | a `.filter(...)` result is no longer than the table and every row in it passes the filter |
| Tables.FilterMembership | catalog/views.py:92 | a row is in the filtered result exactly when it is stored and passes the filter |
| Tables.FilterMultiset | catalog/views.py:92 | filtering loses and duplicates nothing: each passing row keeps its multiplicity, every other row has none |
| Tables.FilterCommute | catalog/views.py:105-106 | `.filter(borrower=...).filter(status='o')` selects the same rows in the same order as the filters taken the other way round |
| Tables.FilterCardinality | catalog/views.py:23 | the length of a filtered table equals the number of positions whose row passes, an independent account of `.count()` |
| Tables.IndexOf | catalog/views.py:289 | the lookup finds the first row with the key, and reports absence exactly when no row has that key (the 404 case) |
| Tables.IndexOfUnique | catalog/views.py:320 | with unique keys, looking up a stored row's key finds exactly that row |
| Tables.RemovePk | catalog/views.py:175 | deleting by key keeps exactly the rows with other keys and keeps keys unique |
| Tables.RemoveOnlyThatRow | catalog/views.py:201 | in a table with unique keys, deleting a present key removes just that row and keeps the others in order |
| Records.StatusOf | catalog/views.py:23 | decoding a stored status code always gives a well-formed status. The decoding stands for the status choices of `catalog/models.py`, which is not part of this model; views.py:23 filters on the code it decodes |
| Records.CodeRoundTrip | catalog/views.py:324 | codes and statuses round-trip, so `status__exact='a'` / `'o'` select exactly available / on-loan copies |
| Records.RemoveKeepsWellFormed | catalog/views.py:175 | deleting a row keeps every remaining copy's status code well formed |
| Records.WithoutKeepsValid | catalog/views.py:173-180 | a delete from any table keeps every table's keys unique and every stored status code well formed |
| Records.DeleteRemovesOnlyThatRecord | catalog/views.py:173-180 | a successful delete keeps the store valid and removes the key. Its table becomes the old table with just that row cut out, the other rows unchanged and in order, so it shrinks by one. Every other table is unchanged, and every other (table, key) pair is present exactly as before |
| Queries.InsertByDue | catalog/views.py:93 | inserting by due date adds exactly the one copy to the list's contents |
| Queries.InsertSorted | catalog/views.py:93 | inserting into a due-date-sorted list keeps it sorted |
| Queries.SortByDue | catalog/views.py:93 | `order_by('due_back')` gives a list sorted by ascending due date that is a permutation of its input |
| Queries.FilterSorted | catalog/views.py:106 | filtering a list sorted by due date leaves it sorted |
| Queries.FilterInsert | catalog/views.py:107 | filtering after inserting a copy equals inserting the copy (if it passes) after filtering |
| Queries.SortFilterCommute | catalog/views.py:103-108 | the stable sort commutes with any filter: sorting then filtering keeps the filtered rows in the same order as filtering then sorting |
| Queries.LoanedBooks | catalog/views.py:90-94 | the loaned list is sorted by due date and holds exactly the copies on loan, each as often as it is stored |
| Queries.LoanedBooksByUser | catalog/views.py:103-108 | the user's list is the loaned list restricted to that user in the same order, sorted, holding exactly the on-loan copies borrowed by that user |
| Queries.StatusCodeFilters | catalog/views.py:23 | on a store with well-formed codes, `filter(status__exact='a')` and `filter(status__exact='o')` select the same rows, in the same order, as the Available and OnLoan filters |
| Queries.AvailableCount | catalog/views.py:23 | the available count equals the number of stored copies whose status is Available |
| Queries.LowerAll | catalog/views.py:26 | case folding keeps the length and folds each character |
| Queries.ContainsIgnoringCaseIff | catalog/views.py:26 | the case-insensitive scan finds "the" exactly when it occurs at some position, ignoring letter case |
| Queries.BooksWithTheCount | catalog/views.py:26 | the "the" count equals the number of books whose title contains "the" in any letter case |
| Queries.TheMatchExamples | catalog/views.py:25-26 | "The Hobbit" and "Brothers" both match "the": the match is on letters, not words |
| Queries.TheNoMatchExample | catalog/views.py:26 | a title without "the" in it, such as "Dune", does not match |
| Loans.LoanedBooksLength | catalog/views.py:90-94 | the loaned list is exactly as long as the set of copies on loan |
| Loans.UserListLength | catalog/views.py:103-108 | the user's list is exactly as long as the set of copies on loan to that user |
| Loans.BorrowListsCopy | catalog/views.py:342-346 | after a borrow the copy is on the acting user's list once and on no other user's list; the available count drops by one exactly when it was available; the loaned list grows by one exactly when it was not on loan |
| Loans.BorrowIgnoresPriorLoan | catalog/views.py:343-345 | a borrow's outcome does not depend on the copy's prior status, borrower or due date, so a copy on loan to someone else is reassigned |
| Loans.ReturnUnlistsCopy | catalog/views.py:323-327 | after a return the copy is on no loaned list; the available count grows by one exactly when it was not available; the loaned list shrinks by one exactly when it was on loan |
| Loans.RenewKeepsLoans | catalog/views.py:298-301 | a renewal changes only that copy's due date: the table keeps its length, the renewed row equals the old row with the new due date, every other row is unchanged, and the counts and list lengths are unchanged |
| Loans.TransitionsKeepConsistency | catalog/views.py:324-326 | borrow and return keep every copy's borrower and due date set exactly when it is on loan |
| Loans.TransitionsKeepCodes | catalog/views.py:298-346 | borrow, return and renewal each keep every stored status code well formed |
| Loans.RenewConsistency | catalog/views.py:300 | renewal keeps the loan invariant exactly when the renewed copy is on loan |
| Views.Catalog.BookBorrow | catalog/views.py:338-354 | unknown key: NotFound and no change; POST: the copies table becomes `BorrowAt`, which applies `BorrowCopy` (on loan to the user, due today + 28) to that copy only, then redirect to my-borrowed, nothing else changes; other methods: confirmation page, no change |
| Views.Catalog.BookReturnLibrarian | catalog/views.py:319-335 | unknown key: NotFound and no change; POST: the copies table becomes `ReturnAt`, which applies `ReturnCopy` (available, no borrower, no due date) to that copy only, then redirect to borrowed, nothing else changes; other methods: confirmation page, no change |
| Views.Catalog.RenewBookLibrarian | catalog/views.py:288-316 | unknown key: NotFound and no change; POST with a valid form: the copies table becomes `RenewAt`, which applies `RenewCopy` (the validated due date) to that copy only, then redirect to borrowed; POST with an invalid form: the form again, no change; other methods: a fresh form proposing today + 28, no change |
| Views.Catalog.DeleteFormValid | catalog/views.py:277-284 | present key and accepted deletion: the record is removed and the response redirects to the list; refused deletion: no change and redirect to the same record's delete page; unknown key: NotFound |
| Views.Index | catalog/views.py:14-46 | on a valid store, the context holds the table sizes, the available count (equal to the number of copies whose stored code is 'a') and the "the" count; it reports the visit count before this visit, and the session counter goes up by exactly one |

## Left out

- Rendering is not modelled. Templates, `render`, `reverse`/`reverse_lazy` and `HttpResponseRedirect` appear only as tagged values: `Render(page)` and `Redirect(route)`. A route names its URL pattern, which is not turned into a URL.
- Pagination (`paginate_by`) is not modelled. It splits the lists into pages and is framework behaviour.
- The permission checks of the create, update and delete views (`PermissionRequiredMixin` with `permission_required`, views.py:160-275) and the login check of the two loaned lists (`LoginRequiredMixin`, views.py:84, 97) are not modelled. The framework runs them before the view body.
- `book_borrow`, `book_return_librarian` and `renew_book_librarian` (views.py:288, 319, 338) check no permission and no login at all. Any visitor can POST a return or a renewal, and the model accepts these from anyone too.
- Views.Catalog.BookBorrow: the model assumes the acting user is authenticated (`user: UserId`). An anonymous POST makes views.py:344 assign an anonymous user to the borrower field, which the framework rejects with a server error. That error path is not modelled.
- The ORM itself is not modelled: `save()`, `delete()`, and the referential rules that make a delete fail. A delete's success is an input, and each table is a sequence with unique keys.
- Views.Catalog.DeleteFormValid: the effect of a successful delete on related rows is not modelled. Deleting a genre also deletes its links to books (`Book.genre`). The `on_delete` actions of the foreign keys (`Book.author`, `Book.language`, `BookInstance.book`) live in `catalog/models.py`, which is not part of this model. The model removes only the one row. A book's `author`, `genres` and `language` and a copy's `book` may keep pointing at a deleted key. They are data that nothing in the model reads.
- The rules of `RenewBookModelForm` (a date not in the past and at most four weeks ahead) are not modelled. `catalog/forms.py` is not part of this model, so the form's verdict is an input.
- The list, detail, create and update views (`BookListView`, `BookCreate`, `BookUpdate`, ...) are not modelled. They are generic framework views with no logic of their own.
- The detail views' `get_context_data` (views.py:72-76, 119-153) is not modelled. It only looks up related records. `LanguageDetailView` is defined twice (lines 69 and 136), and the second definition replaces the first.
- The URL routing table (`catalog/urls.py`) is not modelled. It refers to generic views that `catalog/views.py` does not define.
- Concurrent requests are not modelled. Each handler is one sequential step on the store.
- The real clock and calendar arithmetic are not modelled. Dates are day numbers and today is passed in.
- Copy keys are UUIDs in the source and integers in the model. Only their uniqueness matters.
- Views.Index: session values are integers only. A session holding a non-integer under `num_visits` is not modelled.
- Queries.ContainsIgnoringCase: case folding covers ASCII letters only. This matches SQLite's `LIKE`, not the Unicode folding of other database backends.
- Queries.SortByDue: the model fixes one order, the stored order, for copies with equal due dates. The database leaves that order unspecified.
