/** The read-only views over the store: the loaned-copies lists and the dashboard counts. */
module Queries {
  import opened Tables
  import opened Records

  type Copy = Row<BookInstance>

  /** `order_by('due_back')`, ascending. A copy without a due date sorts first,
      as NULL does on the default SQLite backend. */
  predicate DueLe(a: Option<Date>, b: Option<Date>) {
    match a
    case None => true
    case Some(x) => b.Some? && x <= b.value
  }

  predicate SortedByDue(s: seq<Copy>) {
    forall i, j :: 0 <= i < j < |s| ==> DueLe(s[i].rec.dueBack, s[j].rec.dueBack)
  }

  /** Insert `x` before the first copy due no earlier than it. */
  function InsertByDue(x: Copy, s: seq<Copy>): (r: seq<Copy>)
    ensures multiset(r) == multiset(s) + multiset{x}
  {
    if s == [] || DueLe(x.rec.dueBack, s[0].rec.dueBack) then [x] + s
    else
      assert s == [s[0]] + s[1..];
      [s[0]] + InsertByDue(x, s[1..])
  }

  lemma {:induction false} InsertSorted(x: Copy, s: seq<Copy>)
    requires SortedByDue(s)
    ensures SortedByDue(InsertByDue(x, s))
  {
    var r := InsertByDue(x, s);
    if s == [] || DueLe(x.rec.dueBack, s[0].rec.dueBack) {
      forall i, j | 0 <= i < j < |r| ensures DueLe(r[i].rec.dueBack, r[j].rec.dueBack) {
        if i == 0 && j > 1 {
          DueLeTransitive(x.rec.dueBack, s[0].rec.dueBack, s[j - 1].rec.dueBack);
        }
      }
    } else {
      var tail := s[1..];
      assert SortedByDue(tail) by {
        forall i, j | 0 <= i < j < |tail|
          ensures DueLe(tail[i].rec.dueBack, tail[j].rec.dueBack)
        {
          assert tail[i] == s[i + 1] && tail[j] == s[j + 1];
        }
      }
      InsertSorted(x, tail);
      var rest := InsertByDue(x, tail);
      assert r == [s[0]] + rest;
      forall i, j | 0 <= i < j < |r| ensures DueLe(r[i].rec.dueBack, r[j].rec.dueBack) {
        if i == 0 {
          var y := rest[j - 1];
          assert y in multiset(rest);
          if y != x {
            assert y in multiset(tail);
            var k :| 0 <= k < |tail| && tail[k] == y;
            assert s[k + 1] == y;
          }
        } else {
          assert r[i] == rest[i - 1] && r[j] == rest[j - 1];
        }
      }
    }
  }

  /** A stable sort of the copies by due date. */
  function SortByDue(s: seq<Copy>): (r: seq<Copy>)
    ensures SortedByDue(r)
    ensures multiset(r) == multiset(s)
  {
    if s == [] then []
    else
      assert s == [s[0]] + s[1..];
      InsertSorted(s[0], SortByDue(s[1..]));
      InsertByDue(s[0], SortByDue(s[1..]))
  }

  predicate IsOnLoan(c: Copy) {
    c.rec.status == OnLoan
  }

  predicate IsAvailable(c: Copy) {
    c.rec.status == Available
  }

  /** `filter(status__exact=code)`: the rows whose stored status code is `code`. */
  function HasCode(code: char): Copy -> bool {
    (c: Copy) => Code(c.rec.status) == code
  }

  /** In a store whose codes are well formed, `status__exact='a'` selects exactly
      the available copies and `status__exact='o'` exactly the copies on loan,
      in the same order. */
  lemma StatusCodeFilters(copies: seq<Copy>)
    requires WellFormedCopies(copies)
    ensures Filter(HasCode('a'), copies) == Filter(IsAvailable, copies)
    ensures Filter(HasCode('o'), copies) == Filter(IsOnLoan, copies)
  {
    forall k | 0 <= k < |copies|
      ensures HasCode('a')(copies[k]) == IsAvailable(copies[k])
      ensures HasCode('o')(copies[k]) == IsOnLoan(copies[k])
    {
      CodeRoundTrip(copies[k].rec.status, 'a');
    }
    FilterAgree(HasCode('a'), IsAvailable, copies);
    FilterAgree(HasCode('o'), IsOnLoan, copies);
  }

  /** `filter(borrower=user)`. */
  function BorrowedBy(user: UserId): Copy -> bool {
    (c: Copy) => c.rec.borrower == Some(user)
  }

  /** `LoanedBooksListView.get_queryset`: the copies on loan, by due date. The list
      holds exactly the loaned copies, each as often as it is stored. */
  function LoanedBooks(copies: seq<Copy>): (r: seq<Copy>)
    ensures SortedByDue(r)
    ensures forall x :: multiset(r)[x] == if IsOnLoan(x) then multiset(copies)[x] else 0
    ensures forall x :: x in r <==> x in copies && x.rec.status == OnLoan
  {
    var f := Filter(IsOnLoan, copies);
    FilterMultiset(IsOnLoan, copies);
    var r := SortByDue(f);
    assert forall x :: x in r <==> x in multiset(f);
    FilterMembership(IsOnLoan, copies);
    r
  }

  /** `LoanedBooksByUserListView.get_queryset`: the user's copies on loan, by due date.
      It is the loaned list restricted to that user, in the same order. */
  function LoanedBooksByUser(copies: seq<Copy>, user: UserId): (r: seq<Copy>)
    ensures r == Filter(BorrowedBy(user), LoanedBooks(copies))
    ensures SortedByDue(r)
    ensures forall x :: x in r <==>
              x in copies && x.rec.status == OnLoan && x.rec.borrower == Some(user)
  {
    var r := SortByDue(Filter(IsOnLoan, Filter(BorrowedBy(user), copies)));
    FilterCommute(IsOnLoan, BorrowedBy(user), copies);
    SortFilterCommute(BorrowedBy(user), Filter(IsOnLoan, copies));
    FilterMembership(BorrowedBy(user), LoanedBooks(copies));
    r
  }

  lemma DueLeTransitive(a: Option<Date>, b: Option<Date>, c: Option<Date>)
    requires DueLe(a, b) && DueLe(b, c)
    ensures DueLe(a, c)
  {
  }

  /** Every copy of a sorted list not ahead of `x` lets `x` go first. */
  lemma InsertAhead(x: Copy, s: seq<Copy>)
    requires SortedByDue(s)
    requires s != [] ==> DueLe(x.rec.dueBack, s[0].rec.dueBack)
    ensures InsertByDue(x, s) == [x] + s
  {
  }

  /** Sortedness survives a filter. */
  lemma {:induction false} FilterSorted(p: Copy -> bool, s: seq<Copy>)
    requires SortedByDue(s)
    ensures SortedByDue(Filter(p, s))
  {
    if s != [] {
      var tail := s[1..];
      assert SortedByDue(tail) by {
        forall i, j | 0 <= i < j < |tail|
          ensures DueLe(tail[i].rec.dueBack, tail[j].rec.dueBack)
        {
          assert tail[i] == s[i + 1] && tail[j] == s[j + 1];
        }
      }
      FilterSorted(p, tail);
      var f := Filter(p, tail);
      FilterMembership(p, tail);
      if p(s[0]) {
        var r := [s[0]] + f;
        forall i, j | 0 <= i < j < |r| ensures DueLe(r[i].rec.dueBack, r[j].rec.dueBack) {
          if i == 0 {
            assert r[j] == f[j - 1] && f[j - 1] in tail;
            var k :| 0 <= k < |tail| && tail[k] == f[j - 1];
            assert s[k + 1] == f[j - 1];
          } else {
            assert r[i] == f[i - 1] && r[j] == f[j - 1];
          }
        }
      }
    }
  }

  lemma SortedTail(s: seq<Copy>)
    requires SortedByDue(s) && s != []
    ensures SortedByDue(s[1..])
  {
    var tail := s[1..];
    forall i, j | 0 <= i < j < |tail|
      ensures DueLe(tail[i].rec.dueBack, tail[j].rec.dueBack)
    {
      assert tail[i] == s[i + 1] && tail[j] == s[j + 1];
    }
  }

  lemma FilterCons(p: Copy -> bool, x: Copy, t: seq<Copy>)
    ensures Filter(p, [x] + t) == if p(x) then [x] + Filter(p, t) else Filter(p, t)
  {
    FilterAppend(p, [x], t);
    FilterSingleton(p, x);
  }

  lemma InsertBehind(x: Copy, y: Copy, t: seq<Copy>)
    requires !DueLe(x.rec.dueBack, y.rec.dueBack)
    ensures InsertByDue(x, [y] + t) == [y] + InsertByDue(x, t)
  {
    assert ([y] + t)[0] == y && ([y] + t)[1..] == t;
  }

  /** The filtered list of a sorted list whose head is due no earlier than `x`
      lets `x` go first. */
  lemma FilterInsertAhead(p: Copy -> bool, x: Copy, ys: seq<Copy>)
    requires SortedByDue(ys) && ys != [] && DueLe(x.rec.dueBack, ys[0].rec.dueBack)
    ensures InsertByDue(x, Filter(p, ys)) == [x] + Filter(p, ys)
  {
    var f := Filter(p, ys);
    FilterSorted(p, ys);
    FilterMembership(p, ys);
    if f != [] {
      assert f[0] in ys;
      var k :| 0 <= k < |ys| && ys[k] == f[0];
      if k > 0 {
        DueLeTransitive(x.rec.dueBack, ys[0].rec.dueBack, f[0].rec.dueBack);
      }
    }
    InsertAhead(x, f);
  }

  /** Filtering commutes with inserting into a sorted list. */
  lemma {:induction false} FilterInsert(p: Copy -> bool, x: Copy, ys: seq<Copy>)
    requires SortedByDue(ys)
    ensures Filter(p, InsertByDue(x, ys)) == if p(x) then InsertByDue(x, Filter(p, ys)) else Filter(p, ys)
  {
    if ys == [] {
      FilterSingleton(p, x);
    } else if DueLe(x.rec.dueBack, ys[0].rec.dueBack) {
      FilterCons(p, x, ys);
      if p(x) {
        FilterInsertAhead(p, x, ys);
      }
    } else {
      var y, tail := ys[0], ys[1..];
      assert ys == [y] + tail;
      SortedTail(ys);
      FilterInsert(p, x, tail);
      InsertBehind(x, y, tail);
      FilterCons(p, y, InsertByDue(x, tail));
      FilterCons(p, y, tail);
      if p(x) && p(y) {
        InsertBehind(x, y, Filter(p, tail));
      }
    }
  }

  /** Sorting a filtered list gives the filtered sorted list: the stable sort keeps
      the relative order of the rows a filter selects. */
  lemma {:induction false} SortFilterCommute(p: Copy -> bool, s: seq<Copy>)
    ensures SortByDue(Filter(p, s)) == Filter(p, SortByDue(s))
  {
    if s != [] {
      var x, tail := s[0], s[1..];
      assert s == [x] + tail;
      FilterCons(p, x, tail);
      SortFilterCommute(p, tail);
      FilterInsert(p, x, SortByDue(tail));
      if p(x) {
        var f := Filter(p, tail);
        assert ([x] + f)[0] == x && ([x] + f)[1..] == f;
      }
    }
  }

  /** `BookInstance.objects.filter(status__exact='a').count()`: the number of
      positions of the table that hold an available copy. */
  function AvailableCount(copies: seq<Copy>): (n: nat)
    ensures n == |set i: nat | i < |copies| && copies[i].rec.status == Available|
  {
    FilterCardinality(IsAvailable, copies, |copies|);
    assert copies[..|copies|] == copies;
    assert Positions(IsAvailable, copies, |copies|)
        == set i: nat | i < |copies| && copies[i].rec.status == Available;
    |Filter(IsAvailable, copies)|
  }

  /** ASCII case folding, as SQLite's `LIKE` does for `icontains`. */
  function Lower(c: char): char {
    if 'A' <= c <= 'Z' then (c as int - 'A' as int + 'a' as int) as char else c
  }

  function LowerAll(s: string): (r: string)
    ensures |r| == |s|
    ensures forall i :: 0 <= i < |s| ==> r[i] == Lower(s[i])
  {
    if s == [] then [] else [Lower(s[0])] + LowerAll(s[1..])
  }

  /** `pat` occurs in `s` at position `i`, ignoring case. */
  predicate MatchesAt(s: string, pat: string, i: nat) {
    i + |pat| <= |s| && LowerAll(s[i..i + |pat|]) == LowerAll(pat)
  }

  /** `title__icontains=pat`, scanning from the front. */
  predicate ContainsIgnoringCase(s: string, pat: string)
    decreases |s|
  {
    if |s| < |pat| then false
    else if LowerAll(s[..|pat|]) == LowerAll(pat) then true
    else |s| > 0 && ContainsIgnoringCase(s[1..], pat)
  }

  /** The scan finds `pat` exactly when it occurs somewhere, ignoring case. */
  lemma {:induction false} ContainsIgnoringCaseIff(s: string, pat: string)
    ensures ContainsIgnoringCase(s, pat) <==> exists i: nat :: MatchesAt(s, pat, i)
  {
    if |s| < |pat| {
    } else if LowerAll(s[..|pat|]) == LowerAll(pat) {
      assert s[0..0 + |pat|] == s[..|pat|];
      assert MatchesAt(s, pat, 0);
    } else if |s| > 0 {
      assert s[0..0 + |pat|] == s[..|pat|];
      assert !MatchesAt(s, pat, 0);
      ContainsIgnoringCaseIff(s[1..], pat);
      if ContainsIgnoringCase(s[1..], pat) {
        var i: nat :| MatchesAt(s[1..], pat, i);
        assert s[1..][i..i + |pat|] == s[i + 1..i + 1 + |pat|];
        assert MatchesAt(s, pat, i + 1);
      }
      if exists i: nat :: MatchesAt(s, pat, i) {
        var i: nat :| MatchesAt(s, pat, i);
        assert s[1..][i - 1..i - 1 + |pat|] == s[i..i + |pat|];
        assert MatchesAt(s[1..], pat, i - 1);
      }
    }
  }

  predicate TitleHasThe(b: Row<Book>) {
    ContainsIgnoringCase(b.rec.title, "the")
  }

  /** `Book.objects.filter(title__icontains='the').count()`: the number of positions
      holding a book whose title contains "the" in any letter case. */
  function BooksWithTheCount(books: seq<Row<Book>>): (n: nat)
    ensures n == |set i: nat | i < |books| && ContainsIgnoringCase(books[i].rec.title, "the")|
  {
    FilterCardinality(TitleHasThe, books, |books|);
    assert books[..|books|] == books;
    var positions := Positions(TitleHasThe, books, |books|);
    assert positions == set i: nat | i < |books| && ContainsIgnoringCase(books[i].rec.title, "the");
    assert |Filter(TitleHasThe, books)| == |positions|;
    |Filter(TitleHasThe, books)|
  }

  /** The match is on the letters, not on words: "The Hobbit" and "Brothers" count. */
  lemma TheMatchExamples()
    ensures ContainsIgnoringCase("The Hobbit", "the")
    ensures ContainsIgnoringCase("Brothers", "the")
  {
    assert LowerAll("the") == "the" by {
      assert "the"[1..] == "he" && "he"[1..] == "e" && "e"[1..] == [];
    }
    assert MatchesAt("Brothers", "the", 3) by {
      assert "Brothers"[3..6] == "the";
    }
    ContainsIgnoringCaseIff("Brothers", "the");
    assert MatchesAt("The Hobbit", "the", 0) by {
      assert "The Hobbit"[0..3] == "The";
      assert Lower('T') == 't';
      assert "The"[1..] == "he";
    }
    ContainsIgnoringCaseIff("The Hobbit", "the");
  }

  /** A title without those three letters in a row does not count. */
  lemma TheNoMatchExample()
    ensures !ContainsIgnoringCase("Dune", "the")
  {
    assert LowerAll("Dune"[..3])[0] == 'd';
    assert "Dune"[1..] == "une";
    assert LowerAll("une"[..3])[0] == 'u';
    assert "une"[1..] == "ne";
  }
}
