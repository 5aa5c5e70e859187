/** The three loan transitions applied to the table of copies, and what each one
    does to the loaned lists, the dashboard count and the loan invariant. */
module Loans {
  import opened Tables
  import opened Records
  import opened Queries

  /** The table after a borrow POST on the copy at position `i`. */
  function BorrowAt(copies: seq<Copy>, i: nat, user: UserId, today: Date): seq<Copy>
    requires i < |copies|
  {
    copies[i := Row(copies[i].pk, BorrowCopy(copies[i].rec, user, today))]
  }

  /** The table after a return POST on the copy at position `i`. */
  function ReturnAt(copies: seq<Copy>, i: nat): seq<Copy>
    requires i < |copies|
  {
    copies[i := Row(copies[i].pk, ReturnCopy(copies[i].rec))]
  }

  /** The table after a renewal with a valid form on the copy at position `i`. */
  function RenewAt(copies: seq<Copy>, i: nat, dueBack: Date): seq<Copy>
    requires i < |copies|
  {
    copies[i := Row(copies[i].pk, RenewCopy(copies[i].rec, dueBack))]
  }

  /** Every copy satisfies the loan invariant. */
  predicate StoreConsistent(copies: seq<Copy>) {
    forall k :: 0 <= k < |copies| ==> LoanConsistent(copies[k].rec)
  }

  lemma LoanedBooksLength(copies: seq<Copy>)
    ensures |LoanedBooks(copies)| == |Filter(IsOnLoan, copies)|
  {
    assert multiset(LoanedBooks(copies)) == multiset(Filter(IsOnLoan, copies));
  }

  /** A borrow puts the copy, once, on the acting user's list and on nobody
      else's; the available count drops by one exactly when the copy was
      available, and the loaned list grows by one exactly when it was not on loan. */
  lemma BorrowListsCopy(copies: seq<Copy>, i: nat, user: UserId, today: Date)
    requires UniquePks(copies) && i < |copies|
    ensures var after := BorrowAt(copies, i, user, today);
      && after[i] in LoanedBooksByUser(after, user)
      && multiset(LoanedBooks(after))[after[i]] == 1
      && (forall x :: x in LoanedBooks(after) && x.pk == copies[i].pk ==> x == after[i])
      && (forall other: UserId :: other != user ==> after[i] !in LoanedBooksByUser(after, other))
    ensures AvailableCount(BorrowAt(copies, i, user, today))
         == AvailableCount(copies) - (if copies[i].rec.status == Available then 1 else 0)
    ensures |LoanedBooks(BorrowAt(copies, i, user, today))|
         == |LoanedBooks(copies)| + (if copies[i].rec.status == OnLoan then 0 else 1)
  {
    var after := BorrowAt(copies, i, user, today);
    UpdateKeepsUnique(copies, i, BorrowCopy(copies[i].rec, user, today));
    UniqueRowOnce(after, i);
    forall x | x in LoanedBooks(after) && x.pk == copies[i].pk ensures x == after[i] {
      var k :| 0 <= k < |after| && after[k] == x;
      assert after[k].pk == after[i].pk;
    }
    FilterUpdateLength(IsAvailable, copies, i, after[i]);
    FilterUpdateLength(IsOnLoan, copies, i, after[i]);
    LoanedBooksLength(copies);
    LoanedBooksLength(after);
  }

  /** A borrow takes no account of the copy's prior loan: a copy on loan to
      someone else is silently reassigned, with a fresh due date. */
  lemma BorrowIgnoresPriorLoan(c: BookInstance, user: UserId, today: Date,
                               status: Status, borrower: Option<UserId>, dueBack: Option<Date>)
    ensures BorrowCopy(c.(status := status, borrower := borrower, dueBack := dueBack), user, today)
         == BorrowCopy(c, user, today)
    ensures BorrowCopy(c, user, today).borrower == Some(user)
    ensures BorrowCopy(c, user, today).dueBack == Some(today + LOAN_PERIOD)
  {
  }

  /** A return takes the copy off every loaned list; the available count grows by
      one exactly when the copy was not available, and the loaned list shrinks by
      one exactly when it was on loan. */
  lemma ReturnUnlistsCopy(copies: seq<Copy>, i: nat)
    requires UniquePks(copies) && i < |copies|
    ensures forall x :: x in LoanedBooks(ReturnAt(copies, i)) ==> x.pk != copies[i].pk
    ensures AvailableCount(ReturnAt(copies, i))
         == AvailableCount(copies) + (if copies[i].rec.status == Available then 0 else 1)
    ensures |LoanedBooks(ReturnAt(copies, i))|
         == |LoanedBooks(copies)| - (if copies[i].rec.status == OnLoan then 1 else 0)
  {
    var after := ReturnAt(copies, i);
    UpdateKeepsUnique(copies, i, ReturnCopy(copies[i].rec));
    forall x | x in LoanedBooks(after) ensures x.pk != copies[i].pk {
      var k :| 0 <= k < |after| && after[k] == x;
      if k != i {
        assert after[k].pk == copies[k].pk;
      }
    }
    FilterUpdateLength(IsAvailable, copies, i, after[i]);
    FilterUpdateLength(IsOnLoan, copies, i, after[i]);
    LoanedBooksLength(copies);
    LoanedBooksLength(after);
  }

  /** A renewal changes the due date only: every copy keeps its place on or off
      the loaned lists and the dashboard count is unchanged. */
  lemma RenewKeepsLoans(copies: seq<Copy>, i: nat, dueBack: Date)
    requires i < |copies|
    ensures var after := RenewAt(copies, i, dueBack);
      && |after| == |copies|
      && after[i] == copies[i].(rec := copies[i].rec.(dueBack := Some(dueBack)))
      && (forall k :: 0 <= k < |copies| && k != i ==> after[k] == copies[k])
    ensures AvailableCount(RenewAt(copies, i, dueBack)) == AvailableCount(copies)
    ensures |LoanedBooks(RenewAt(copies, i, dueBack))| == |LoanedBooks(copies)|
    ensures forall user: UserId ::
      |LoanedBooksByUser(RenewAt(copies, i, dueBack), user)| == |LoanedBooksByUser(copies, user)|
  {
    RenewKeepsCounts(copies, i, dueBack);
    forall user: UserId
      ensures |LoanedBooksByUser(RenewAt(copies, i, dueBack), user)| == |LoanedBooksByUser(copies, user)|
    {
      RenewKeepsUserList(copies, i, dueBack, user);
    }
  }

  /** A renewal keeps the available count and the length of the loaned list. */
  lemma RenewKeepsCounts(copies: seq<Copy>, i: nat, dueBack: Date)
    requires i < |copies|
    ensures AvailableCount(RenewAt(copies, i, dueBack)) == AvailableCount(copies)
    ensures |LoanedBooks(RenewAt(copies, i, dueBack))| == |LoanedBooks(copies)|
  {
    var after := RenewAt(copies, i, dueBack);
    FilterUpdateLength(IsAvailable, copies, i, after[i]);
    FilterUpdateLength(IsOnLoan, copies, i, after[i]);
    LoanedBooksLength(copies);
    LoanedBooksLength(after);
  }

  /** A renewal keeps the length of each user's list. */
  lemma RenewKeepsUserList(copies: seq<Copy>, i: nat, dueBack: Date, user: UserId)
    requires i < |copies|
    ensures |LoanedBooksByUser(RenewAt(copies, i, dueBack), user)| == |LoanedBooksByUser(copies, user)|
  {
    var after := RenewAt(copies, i, dueBack);
    var mine := (c: Copy) => c.rec.status == OnLoan && c.rec.borrower == Some(user);
    FilterUpdateLength(mine, copies, i, after[i]);
    UserListLength(copies, user);
    UserListLength(after, user);
  }

  /** The user's list is as long as the number of copies on loan to that user. */
  lemma UserListLength(copies: seq<Copy>, user: UserId)
    ensures |LoanedBooksByUser(copies, user)|
         == |Filter((c: Copy) => c.rec.status == OnLoan && c.rec.borrower == Some(user), copies)|
  {
    var mine := (c: Copy) => c.rec.status == OnLoan && c.rec.borrower == Some(user);
    var r := LoanedBooksByUser(copies, user);
    var f := Filter(mine, copies);
    FilterMultiset(mine, copies);
    FilterMultiset(BorrowedBy(user), LoanedBooks(copies));
    assert multiset(r) == multiset(f);
  }

  /** Borrow and return both leave a consistent store consistent. */
  lemma TransitionsKeepConsistency(copies: seq<Copy>, i: nat, user: UserId, today: Date)
    requires StoreConsistent(copies) && i < |copies|
    ensures StoreConsistent(BorrowAt(copies, i, user, today))
    ensures StoreConsistent(ReturnAt(copies, i))
  {
  }

  /** Every transition stores one of the two named statuses or keeps the old one,
      so the stored codes stay well formed. */
  lemma TransitionsKeepCodes(copies: seq<Copy>, i: nat, user: UserId, today: Date, dueBack: Date)
    requires WellFormedCopies(copies) && i < |copies|
    ensures WellFormedCopies(BorrowAt(copies, i, user, today))
    ensures WellFormedCopies(ReturnAt(copies, i))
    ensures WellFormedCopies(RenewAt(copies, i, dueBack))
  {
  }

  /** A renewal keeps a consistent store consistent exactly when the renewed copy
      is on loan: renewing an available copy gives it a due date and no borrower. */
  lemma RenewConsistency(copies: seq<Copy>, i: nat, dueBack: Date)
    requires StoreConsistent(copies) && i < |copies|
    ensures StoreConsistent(RenewAt(copies, i, dueBack)) <==> copies[i].rec.status == OnLoan
  {
    var after := RenewAt(copies, i, dueBack);
    if copies[i].rec.status != OnLoan {
      assert !LoanConsistent(after[i].rec);
    }
  }
}
