/** What ties the two stores together, and the proof that every operation on them keeps
    it. A copy on loan has exactly one open borrow record, held by the visitor whose id
    the copy remembers; every open record is for a copy on loan; no visitor holds more
    open borrows than the limit. */
module Consistency {
  import opened Common
  import opened Book
  import opened BookDb
  import opened User
  import opened VisitorDb
  import opened Librarian

  /** Number of records still open for one copy, over the first `n` visitors. */
  function TotalUpTo(vs: seq<VisitorEntry>, n: nat, isbn: string, copyId: string): nat
    requires n <= |vs|
  {
    if n == 0 then 0
    else TotalUpTo(vs, n - 1, isbn, copyId) + ActiveCountFor(vs[n - 1].bookBorrows, isbn, copyId)
  }

  /** Number of records still open for one copy, over all visitors. */
  function TotalActiveFor(vs: seq<VisitorEntry>, isbn: string, copyId: string): nat {
    TotalUpTo(vs, |vs|, isbn, copyId)
  }

  /** Lists whose first `n` visitors hold the same records have the same partial total. */
  lemma {:induction false} TotalUpToSame(vs: seq<VisitorEntry>, ws: seq<VisitorEntry>, n: nat, isbn: string, copyId: string)
    requires n <= |vs| && n <= |ws|
    requires forall m :: 0 <= m < n ==> vs[m].bookBorrows == ws[m].bookBorrows
    ensures TotalUpTo(vs, n, isbn, copyId) == TotalUpTo(ws, n, isbn, copyId)
  {
    if n > 0 {
      TotalUpToSame(vs, ws, n - 1, isbn, copyId);
    }
  }

  lemma {:induction false} TotalUpToUpdate(vs: seq<VisitorEntry>, j: nat, v: VisitorEntry, n: nat, isbn: string, copyId: string)
    requires j < n <= |vs|
    ensures TotalUpTo(vs[j := v], n, isbn, copyId) ==
      TotalUpTo(vs, n, isbn, copyId) - ActiveCountFor(vs[j].bookBorrows, isbn, copyId) + ActiveCountFor(v.bookBorrows, isbn, copyId)
  {
    var ws := vs[j := v];
    if n - 1 == j {
      TotalUpToSame(vs, ws, j, isbn, copyId);
    } else {
      TotalUpToUpdate(vs, j, v, n - 1, isbn, copyId);
      assert ws[n - 1] == vs[n - 1];
    }
  }

  /** Replacing one visitor changes the total by what the old and the new records hold. */
  lemma TotalUpdate(vs: seq<VisitorEntry>, j: nat, v: VisitorEntry, isbn: string, copyId: string)
    requires j < |vs|
    ensures TotalActiveFor(vs[j := v], isbn, copyId) ==
      TotalActiveFor(vs, isbn, copyId) - ActiveCountFor(vs[j].bookBorrows, isbn, copyId) + ActiveCountFor(v.bookBorrows, isbn, copyId)
  {
    TotalUpToUpdate(vs, j, v, |vs|, isbn, copyId);
  }

  lemma {:induction false} TotalUpToRemove(vs: seq<VisitorEntry>, j: nat, n: nat, isbn: string, copyId: string)
    requires j < n <= |vs|
    ensures TotalUpTo(Remove(vs, j), n - 1, isbn, copyId) ==
      TotalUpTo(vs, n, isbn, copyId) - ActiveCountFor(vs[j].bookBorrows, isbn, copyId)
  {
    var ws := Remove(vs, j);
    if n - 1 == j {
      TotalUpToSame(vs, ws, j, isbn, copyId);
    } else {
      TotalUpToRemove(vs, j, n - 1, isbn, copyId);
      assert ws[n - 2] == vs[n - 1];
    }
  }

  /** Removing a visitor removes its open records from the total. */
  lemma TotalRemove(vs: seq<VisitorEntry>, j: nat, isbn: string, copyId: string)
    requires j < |vs|
    ensures TotalActiveFor(Remove(vs, j), isbn, copyId) ==
      TotalActiveFor(vs, isbn, copyId) - ActiveCountFor(vs[j].bookBorrows, isbn, copyId)
  {
    TotalUpToRemove(vs, j, |vs|, isbn, copyId);
  }

  /** Appending a visitor adds its open records to the total. */
  lemma TotalAppend(vs: seq<VisitorEntry>, v: VisitorEntry, isbn: string, copyId: string)
    ensures TotalActiveFor(vs + [v], isbn, copyId) ==
      TotalActiveFor(vs, isbn, copyId) + ActiveCountFor(v.bookBorrows, isbn, copyId)
  {
    TotalUpToSame(vs, vs + [v], |vs|, isbn, copyId);
  }

  lemma {:induction false} MemberAtMostUpTo(vs: seq<VisitorEntry>, a: nat, n: nat, isbn: string, copyId: string)
    requires a < n <= |vs|
    ensures ActiveCountFor(vs[a].bookBorrows, isbn, copyId) <= TotalUpTo(vs, n, isbn, copyId)
  {
    if a < n - 1 {
      MemberAtMostUpTo(vs, a, n - 1, isbn, copyId);
    }
  }

  /** One visitor holds no more open records for a copy than all visitors do. */
  lemma MemberAtMostTotal(vs: seq<VisitorEntry>, a: nat, isbn: string, copyId: string)
    requires a < |vs|
    ensures ActiveCountFor(vs[a].bookBorrows, isbn, copyId) <= TotalActiveFor(vs, isbn, copyId)
  {
    MemberAtMostUpTo(vs, a, |vs|, isbn, copyId);
  }

  lemma {:induction false} MembersAtMostUpTo(vs: seq<VisitorEntry>, a: nat, b: nat, n: nat, isbn: string, copyId: string)
    requires a < b < n <= |vs|
    ensures ActiveCountFor(vs[a].bookBorrows, isbn, copyId) + ActiveCountFor(vs[b].bookBorrows, isbn, copyId) <=
      TotalUpTo(vs, n, isbn, copyId)
  {
    if b < n - 1 {
      MembersAtMostUpTo(vs, a, b, n - 1, isbn, copyId);
    } else {
      MemberAtMostUpTo(vs, a, n - 1, isbn, copyId);
    }
  }

  /** Two different visitors together hold no more open records for a copy than all
      visitors do. */
  lemma MembersAtMostTotal(vs: seq<VisitorEntry>, a: nat, b: nat, isbn: string, copyId: string)
    requires a < |vs| && b < |vs| && a != b
    ensures ActiveCountFor(vs[a].bookBorrows, isbn, copyId) + ActiveCountFor(vs[b].bookBorrows, isbn, copyId) <=
      TotalActiveFor(vs, isbn, copyId)
  {
    if a < b {
      MembersAtMostUpTo(vs, a, b, |vs|, isbn, copyId);
    } else {
      MembersAtMostUpTo(vs, b, a, |vs|, isbn, copyId);
    }
  }

  /** Two visitor lists with the same ids in the same places. */
  ghost predicate SameIds(vs: seq<VisitorEntry>, ws: seq<VisitorEntry>) {
    |vs| == |ws| && forall m :: 0 <= m < |vs| ==> vs[m].visitorId == ws[m].visitorId
  }

  lemma SameIdsSameIndex(vs: seq<VisitorEntry>, ws: seq<VisitorEntry>, visitorId: int)
    requires SameIds(vs, ws)
    ensures IdIndex(vs, visitorId) == IdIndex(ws, visitorId)
    ensures UniqueVisitorIds(vs) ==> UniqueVisitorIds(ws)
  {
    var a := IdIndex(vs, visitorId);
    assert a < |vs| ==> ws[a].visitorId == visitorId;
    var b := IdIndex(ws, visitorId);
    assert b < |ws| ==> vs[b].visitorId == visitorId;
    if UniqueVisitorIds(vs) {
      forall x, y | 0 <= x < y < |ws| ensures ws[x].visitorId != ws[y].visitorId {
        assert vs[x].visitorId != vs[y].visitorId;
      }
    }
  }

  /** The copy a pair names is on loan. */
  predicate OnLoan(books: seq<BookEntry>, isbn: string, copyId: string) {
    var c := CopyAt(books, isbn, copyId);
    c.Some? && c.value.status == UNAVAILABLE
  }

  /** The visitor with id `borrowerId` exists and holds an open record for the copy, and
      no one else does. */
  ghost predicate LoanRecorded(vs: seq<VisitorEntry>, isbn: string, copyId: string, borrowerId: int) {
    var j := IdIndex(vs, borrowerId);
    j < |vs| && ActiveCountFor(vs[j].bookBorrows, isbn, copyId) == 1 && TotalActiveFor(vs, isbn, copyId) == 1
  }

  ghost predicate LoansRecorded(lib: Library) {
    forall isbn, copyId :: OnLoan(lib.books, isbn, copyId) ==>
      LoanRecorded(lib.visitors, isbn, copyId, CopyAt(lib.books, isbn, copyId).value.borrowVisitorId)
  }

  ghost predicate RecordsOnLoan(lib: Library) {
    forall isbn, copyId :: TotalActiveFor(lib.visitors, isbn, copyId) > 0 ==> OnLoan(lib.books, isbn, copyId)
  }

  ghost predicate WithinLimit(vs: seq<VisitorEntry>) {
    forall j :: 0 <= j < |vs| ==> ActiveCount(vs[j].bookBorrows) <= BorrowLimit
  }

  ghost predicate Consistent(lib: Library) {
    Catalogued(lib.books) && UniqueVisitorIds(lib.visitors) &&
    LoansRecorded(lib) && RecordsOnLoan(lib) && WithinLimit(lib.visitors)
  }

  /** Two empty stores are consistent. */
  lemma EmptyConsistent()
    ensures Consistent(Library([], []))
  {
    forall isbn, copyId ensures !OnLoan([], isbn, copyId) && TotalActiveFor([], isbn, copyId) == 0 {
    }
  }

  /** The converse direction: an open record is for a copy on loan to the visitor who
      holds the record. */
  lemma OpenRecordIsLoan(lib: Library, j: nat, k: nat)
    requires Consistent(lib)
    requires j < |lib.visitors| && k < |lib.visitors[j].bookBorrows|
    requires lib.visitors[j].bookBorrows[k].status == BORROW
    ensures var b := lib.visitors[j].bookBorrows[k];
      OnLoan(lib.books, b.isbn, b.copyId) &&
      CopyAt(lib.books, b.isbn, b.copyId).value.borrowVisitorId == lib.visitors[j].visitorId
  {
    var vs := lib.visitors;
    var b := vs[j].bookBorrows[k];
    NoActiveFor(vs[j].bookBorrows, b.isbn, b.copyId);
    MemberAtMostTotal(vs, j, b.isbn, b.copyId);
    var holder := IdIndex(vs, CopyAt(lib.books, b.isbn, b.copyId).value.borrowVisitorId);
    if holder != j {
      MembersAtMostTotal(vs, j, holder, b.isbn, b.copyId);
    }
  }

  /** A copy that is not on loan has no open record anywhere. */
  lemma NotOnLoanNoRecords(lib: Library, isbn: string, copyId: string, j: nat)
    requires Consistent(lib) && !OnLoan(lib.books, isbn, copyId) && j < |lib.visitors|
    ensures TotalActiveFor(lib.visitors, isbn, copyId) == 0
    ensures ActiveCountFor(lib.visitors[j].bookBorrows, isbn, copyId) == 0
  {
    MemberAtMostTotal(lib.visitors, j, isbn, copyId);
  }

  /** Under consistency the borrow button succeeds exactly when the copy exists and is
      AVAILABLE, the visitor exists and holds fewer open borrows than the limit. */
  lemma BorrowSucceedsIff(lib: Library, isbn: string, copyId: string, visitorId: int, now: nat)
    requires Consistent(lib)
    ensures var r := BorrowFlow(lib, isbn, copyId, visitorId, now);
      var copy := CopyAt(lib.books, isbn, copyId);
      var j := IdIndex(lib.visitors, visitorId);
      r.outcome == BORROWED <==>
        copy.Some? && copy.value.status == AVAILABLE &&
        j < |lib.visitors| && ActiveCount(lib.visitors[j].bookBorrows) < BorrowLimit
  {
    BorrowedCopy(lib.books, isbn, copyId, visitorId);
  }

  /** The borrow button keeps the stores consistent. */
  lemma BorrowKeepsConsistent(lib: Library, isbn: string, copyId: string, visitorId: int, now: nat)
    requires Consistent(lib)
    ensures Consistent(BorrowFlow(lib, isbn, copyId, visitorId, now).state)
  {
    var r := BorrowFlow(lib, isbn, copyId, visitorId, now);
    if r.outcome == BORROWED {
      var books, vs := lib.books, lib.visitors;
      var j := IdIndex(vs, visitorId);
      var after := r.state;
      BorrowedCopy(books, isbn, copyId, visitorId);
      NotOnLoanNoRecords(lib, isbn, copyId, j);
      assert SameIds(vs, after.visitors);
      SameIdsSameIndex(vs, after.visitors, visitorId);
      BorrowRecordedCounts(vs, isbn, copyId, visitorId, now, isbn, copyId);
      forall m | 0 <= m < |after.visitors| ensures ActiveCount(after.visitors[m].bookBorrows) <= BorrowLimit {
        if m != j {
          assert after.visitors[m] == vs[m];
        }
      }
      forall i, c ensures (OnLoan(after.books, i, c) ==>
                             LoanRecorded(after.visitors, i, c, CopyAt(after.books, i, c).value.borrowVisitorId)) &&
                          (TotalActiveFor(after.visitors, i, c) > 0 ==> OnLoan(after.books, i, c))
      {
        BorrowRecordedCounts(vs, isbn, copyId, visitorId, now, i, c);
        TotalUpdate(vs, j, after.visitors[j], i, c);
        assert after.visitors == vs[j := after.visitors[j]];
        if OnLoan(books, i, c) {
          var borrower := CopyAt(books, i, c).value.borrowVisitorId;
          SameIdsSameIndex(vs, after.visitors, borrower);
          var h := IdIndex(vs, borrower);
          if h != j {
            assert after.visitors[h] == vs[h];
          }
        }
      }
    }
  }

  /** The return button keeps the stores consistent; under consistency the borrower is
      always found, and the button returns exactly the copies on loan. */
  lemma ReturnKeepsConsistent(lib: Library, isbn: string, copyId: string, now: nat)
    requires Consistent(lib)
    ensures var r := ReturnFlow(lib, isbn, copyId, now);
      Consistent(r.state) && r.outcome != BORROWER_NOT_FOUND &&
      (r.outcome == RETURNED <==> OnLoan(lib.books, isbn, copyId))
  {
    var r := ReturnFlow(lib, isbn, copyId, now);
    if OnLoan(lib.books, isbn, copyId) {
      var books, vs := lib.books, lib.visitors;
      var borrower := CopyAt(books, isbn, copyId).value.borrowVisitorId;
      var j := IdIndex(vs, borrower);
      assert LoanRecorded(vs, isbn, copyId, borrower);
      NoActiveFor(vs[j].bookBorrows, isbn, copyId);
      var after := r.state;
      ReturnedCopy(books, isbn, copyId);
      assert SameIds(vs, after.visitors);
      ReturnRecordedCounts(vs, isbn, copyId, borrower, now, isbn, copyId);
      forall m | 0 <= m < |after.visitors| ensures ActiveCount(after.visitors[m].bookBorrows) <= BorrowLimit {
        if m != j {
          assert after.visitors[m] == vs[m];
        }
      }
      forall i, c ensures (OnLoan(after.books, i, c) ==>
                             LoanRecorded(after.visitors, i, c, CopyAt(after.books, i, c).value.borrowVisitorId)) &&
                          (TotalActiveFor(after.visitors, i, c) > 0 ==> OnLoan(after.books, i, c))
      {
        ReturnRecordedCounts(vs, isbn, copyId, borrower, now, i, c);
        TotalUpdate(vs, j, after.visitors[j], i, c);
        assert after.visitors == vs[j := after.visitors[j]];
        if OnLoan(books, i, c) {
          var other := CopyAt(books, i, c).value.borrowVisitorId;
          SameIdsSameIndex(vs, after.visitors, other);
          var h := IdIndex(vs, other);
          if h != j {
            assert after.visitors[h] == vs[h];
          }
        }
      }
      SameIdsSameIndex(vs, after.visitors, borrower);
    }
  }

  /** The delete button keeps the stores consistent. */
  lemma DeleteKeepsConsistent(lib: Library, isbn: string, copyId: string, confirmed: bool)
    requires Consistent(lib)
    ensures Consistent(DeleteFlow(lib, isbn, copyId, confirmed).state)
  {
    var r := DeleteFlow(lib, isbn, copyId, confirmed);
    if r.outcome == DELETED {
      DeletedCopy(lib.books, isbn, copyId);
      if lib.visitors != [] {
        NotOnLoanNoRecords(lib, isbn, copyId, 0);
      }
    }
  }

  /** Adding a title with distinct, AVAILABLE copies keeps the stores consistent. */
  lemma AddBookKeepsConsistent(lib: Library, book: BookEntry)
    requires Consistent(lib) && UniqueCopyIds(book.copies) && AllAvailable(book.copies)
    ensures Consistent(Library(WithBookAdded(lib.books, book), lib.visitors))
  {
    var after := Library(WithBookAdded(lib.books, book), lib.visitors);
    AddedBook(lib.books, book);
    forall i, c ensures OnLoan(after.books, i, c) ==> CopyAt(after.books, i, c) == CopyAt(lib.books, i, c) {
    }
  }

  /** Editing a title keeps the stores consistent. */
  lemma EditBookKeepsConsistent(lib: Library, edited: BookEntry)
    requires Consistent(lib)
    ensures Consistent(Library(WithBookEdited(lib.books, edited).state, lib.visitors))
  {
    EditedBookKeepsCopies(lib.books, edited);
  }

  /** Registering a visitor with no open borrow keeps the stores consistent. */
  lemma AddVisitorKeepsConsistent(lib: Library, v: VisitorEntry)
    requires Consistent(lib) && ActiveCount(v.bookBorrows) == 0
    ensures Consistent(Library(lib.books, WithVisitorAdded(lib.visitors, v)))
  {
    var vs := lib.visitors;
    var ws := WithVisitorAdded(vs, v);
    AddedVisitorFound(vs, v);
    assert ws == vs + [ws[|vs|]];
    forall i, c ensures TotalActiveFor(ws, i, c) == TotalActiveFor(vs, i, c) {
      TotalAppend(vs, ws[|vs|], i, c);
    }
    forall i, c | OnLoan(lib.books, i, c)
      ensures LoanRecorded(ws, i, c, CopyAt(lib.books, i, c).value.borrowVisitorId)
    {
      var h := IdIndex(vs, CopyAt(lib.books, i, c).value.borrowVisitorId);
      assert ws[h] == vs[h];
      assert IdIndex(ws, CopyAt(lib.books, i, c).value.borrowVisitorId) == h;
    }
    forall m | 0 <= m < |ws| ensures ActiveCount(ws[m].bookBorrows) <= BorrowLimit {
      if m < |vs| {
        assert ws[m] == vs[m];
      }
    }
  }

  /** Replacing a visitor by an edited one with the same borrow records (the profile
      editor changes the profile only) keeps the stores consistent. */
  lemma EditVisitorKeepsConsistent(lib: Library, edited: VisitorEntry)
    requires Consistent(lib)
    requires IdIndex(lib.visitors, edited.visitorId) < |lib.visitors| ==>
      edited.bookBorrows == lib.visitors[IdIndex(lib.visitors, edited.visitorId)].bookBorrows
    ensures Consistent(Library(lib.books, WithVisitorEdited(lib.visitors, edited).state))
  {
    var vs := lib.visitors;
    var r := WithVisitorEdited(vs, edited);
    if r.ok {
      var j := IdIndex(vs, edited.visitorId);
      var ws := r.state;
      assert ws == vs[j := edited];
      assert SameIds(vs, ws);
      SameIdsSameIndex(vs, ws, 0);
      forall i, c ensures TotalActiveFor(ws, i, c) == TotalActiveFor(vs, i, c) {
        TotalUpdate(vs, j, edited, i, c);
      }
      forall i, c | OnLoan(lib.books, i, c)
        ensures LoanRecorded(ws, i, c, CopyAt(lib.books, i, c).value.borrowVisitorId)
      {
        SameIdsSameIndex(vs, ws, CopyAt(lib.books, i, c).value.borrowVisitorId);
      }
    }
  }

  /** Deleting a visitor with no open borrow (the account screen refuses otherwise) keeps
      the stores consistent. */
  lemma DeleteVisitorKeepsConsistent(lib: Library, visitorId: int)
    requires Consistent(lib)
    requires IdIndex(lib.visitors, visitorId) < |lib.visitors| ==>
      ActiveCount(lib.visitors[IdIndex(lib.visitors, visitorId)].bookBorrows) == 0
    ensures Consistent(Library(lib.books, WithVisitorDeleted(lib.visitors, visitorId).state))
  {
    var vs := lib.visitors;
    var r := WithVisitorDeleted(vs, visitorId);
    if r.ok {
      var j := IdIndex(vs, visitorId);
      var ws := r.state;
      assert ws == Remove(vs, j);
      DeletedVisitorUnique(vs, j);
      forall m | 0 <= m < |ws| ensures ActiveCount(ws[m].bookBorrows) <= BorrowLimit {
        var m' := if m < j then m else m + 1;
        assert ws[m] == vs[m'];
      }
      forall i, c ensures TotalActiveFor(ws, i, c) == TotalActiveFor(vs, i, c) {
        TotalRemove(vs, j, i, c);
      }
      forall i, c | OnLoan(lib.books, i, c)
        ensures LoanRecorded(ws, i, c, CopyAt(lib.books, i, c).value.borrowVisitorId)
      {
        var borrower := CopyAt(lib.books, i, c).value.borrowVisitorId;
        assert IdIndex(vs, borrower) != j;
        DeletedVisitorIndex(vs, j, borrower);
      }
    }
  }

  /** The return half of `BorrowThenReturn`, over the stores a successful borrow leaves. */
  lemma ReturnAfterBorrow(lib: Library, mid: Library, isbn: string, copyId: string, visitorId: int, t0: nat, t1: nat)
    requires Consistent(lib) && Consistent(mid)
    requires IdIndex(lib.visitors, visitorId) < |lib.visitors|
    requires WithCopyBorrowed(lib.books, isbn, copyId, visitorId).ok
    requires mid == Library(WithCopyBorrowed(lib.books, isbn, copyId, visitorId).state,
                            WithBorrowRecorded(lib.visitors, isbn, copyId, visitorId, t0).state)
    ensures var r := ReturnFlow(mid, isbn, copyId, t1);
      var j := IdIndex(lib.visitors, visitorId);
      r.outcome == RETURNED &&
      CopyAt(r.state.books, isbn, copyId) == Some(CopyAt(lib.books, isbn, copyId).value.(borrowVisitorId := visitorId)) &&
      CopyAt(r.state.books, isbn, copyId).value.status == AVAILABLE &&
      (forall i, c :: !(i == isbn && c == copyId) ==> CopyAt(r.state.books, i, c) == CopyAt(lib.books, i, c)) &&
      r.state.visitors[j].bookBorrows == lib.visitors[j].bookBorrows + [BookBorrow(isbn, copyId, RETURN, t0, Some(t1))] &&
      forall m :: 0 <= m < |lib.visitors| && m != j ==> r.state.visitors[m] == lib.visitors[m]
  {
    var j := IdIndex(lib.visitors, visitorId);
    BorrowedCopy(lib.books, isbn, copyId, visitorId);
    ReturnKeepsConsistent(mid, isbn, copyId, t1);
    ReturnedCopy(mid.books, isbn, copyId);
    NotOnLoanNoRecords(lib, isbn, copyId, j);
    BorrowThenReturnRecorded(lib.visitors, isbn, copyId, visitorId, t0, t1);
  }

  /** A borrow followed by a return of the same copy leaves the copy AVAILABLE again,
      remembering its last borrower, and adds to the borrower's list one closed record
      for it; nothing else changes in the borrower's records, and no other pair's copy
      changes. */
  lemma BorrowThenReturn(lib: Library, isbn: string, copyId: string, visitorId: int, t0: nat, t1: nat)
    requires Consistent(lib)
    requires BorrowFlow(lib, isbn, copyId, visitorId, t0).outcome == BORROWED
    ensures var mid := BorrowFlow(lib, isbn, copyId, visitorId, t0).state;
      var r := ReturnFlow(mid, isbn, copyId, t1);
      var j := IdIndex(lib.visitors, visitorId);
      r.outcome == RETURNED &&
      CopyAt(r.state.books, isbn, copyId) == Some(CopyAt(lib.books, isbn, copyId).value.(borrowVisitorId := visitorId)) &&
      CopyAt(r.state.books, isbn, copyId).value.status == AVAILABLE &&
      (forall i, c :: !(i == isbn && c == copyId) ==> CopyAt(r.state.books, i, c) == CopyAt(lib.books, i, c)) &&
      r.state.visitors[j].bookBorrows == lib.visitors[j].bookBorrows + [BookBorrow(isbn, copyId, RETURN, t0, Some(t1))] &&
      forall m :: 0 <= m < |lib.visitors| && m != j ==> r.state.visitors[m] == lib.visitors[m]
  {
    var mid := BorrowFlow(lib, isbn, copyId, visitorId, t0).state;
    BorrowKeepsConsistent(lib, isbn, copyId, visitorId, t0);
    ReturnAfterBorrow(lib, mid, isbn, copyId, visitorId, t0, t1);
  }
}
