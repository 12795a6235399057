/** The librarian's screen without its dialogs: the search filter and the table it
    fills, the count of a visitor's open borrows, and the borrow, return and delete
    buttons, each a sequence of calls on the two stores. */
module Librarian {
  import opened Common
  import opened JavaStrings
  import opened Book
  import opened BookDb
  import opened User
  import opened VisitorDb

  /** A title is shown for an already trimmed query when the query is empty, or when the
      lower-cased query occurs in the lower-cased title, author or ISBN. */
  predicate MatchesQuery(book: BookEntry, query: string) {
    query == [] ||
    Contains(ToLower(book.title), ToLower(query)) ||
    Contains(ToLower(book.author), ToLower(query)) ||
    Contains(ToLower(book.isbn), ToLower(query))
  }

  /** In terms of the text typed: a title is shown exactly when the text is all blanks,
      or the trimmed, lower-cased text is a substring of its lower-cased title, author
      or ISBN. */
  lemma MatchesSearchText(book: BookEntry, searchText: string)
    ensures MatchesQuery(book, Trim(searchText)) <==>
      (forall k :: 0 <= k < |searchText| ==> IsBlank(searchText[k])) ||
      (exists i :: OccursAt(ToLower(book.title), ToLower(Trim(searchText)), i)) ||
      (exists i :: OccursAt(ToLower(book.author), ToLower(Trim(searchText)), i)) ||
      (exists i :: OccursAt(ToLower(book.isbn), ToLower(Trim(searchText)), i))
  {
    var q := ToLower(Trim(searchText));
    TrimEmptyIffBlank(searchText);
    ContainsIffSubstring(ToLower(book.title), q);
    ContainsIffSubstring(ToLower(book.author), q);
    ContainsIffSubstring(ToLower(book.isbn), q);
  }

  /** The rows one title contributes: one per copy, in copy order. */
  function CopyRows(book: BookEntry): (rows: seq<(BookEntry, CopyEntry)>)
    ensures |rows| == |book.copies|
    ensures forall k :: 0 <= k < |rows| ==> rows[k] == (book, book.copies[k])
  {
    seq(|book.copies|, k requires 0 <= k < |book.copies| => (book, book.copies[k]))
  }

  /** The table `updateTable` fills: for each title shown, in list order, its rows. */
  function TableRows(books: seq<BookEntry>, query: string): seq<(BookEntry, CopyEntry)> {
    if books == [] then []
    else
      var last := books[|books| - 1];
      TableRows(books[..|books| - 1], query) + (if MatchesQuery(last, query) then CopyRows(last) else [])
  }

  /** Every row pairs a title that is shown with one of its own copies. */
  lemma {:induction false} TableRowsShown(books: seq<BookEntry>, query: string)
    ensures forall n :: 0 <= n < |TableRows(books, query)| ==>
      var row := TableRows(books, query)[n];
      MatchesQuery(row.0, query) && row.0 in books && row.1 in row.0.copies
    decreases |books|
  {
    if books != [] {
      var front := books[..|books| - 1];
      TableRowsShown(front, query);
      assert forall b :: b in front ==> b in books;
    }
  }

  /** Every copy of every title shown has a row. */
  lemma {:induction false} TableRowsComplete(books: seq<BookEntry>, query: string, j: nat, k: nat)
    requires j < |books| && k < |books[j].copies| && MatchesQuery(books[j], query)
    ensures (books[j], books[j].copies[k]) in TableRows(books, query)
    decreases |books|
  {
    var front := books[..|books| - 1];
    var last := books[|books| - 1];
    if j < |books| - 1 {
      assert books[j] == front[j];
      TableRowsComplete(front, query, j, k);
    } else {
      assert CopyRows(last)[k] == (books[j], books[j].copies[k]);
    }
  }

  /** With a blank query every copy of every title gets its row. */
  lemma {:induction false} BlankQueryShowsEveryCopy(books: seq<BookEntry>)
    ensures |TableRows(books, [])| == CopyCount(books)
    decreases |books|
  {
    if books != [] {
      BlankQueryShowsEveryCopy(books[..|books| - 1]);
    }
  }

  /** The loop of `updateTable`: the two parallel row lists, built title by title and copy
      by copy. */
  method BuildTable(books: seq<BookEntry>, query: string) returns (bookRows: seq<BookEntry>, copyRows: seq<CopyEntry>)
    ensures |bookRows| == |copyRows| == |TableRows(books, query)|
    ensures forall n :: 0 <= n < |bookRows| ==> (bookRows[n], copyRows[n]) == TableRows(books, query)[n]
  {
    bookRows, copyRows := [], [];
    var i := 0;
    while i < |books|
      invariant i <= |books|
      invariant |bookRows| == |copyRows| == |TableRows(books[..i], query)|
      invariant forall n :: 0 <= n < |bookRows| ==> (bookRows[n], copyRows[n]) == TableRows(books[..i], query)[n]
    {
      var book := books[i];
      assert books[..i + 1][..i] == books[..i];
      if MatchesQuery(book, query) {
        ghost var before := TableRows(books[..i], query);
        var k := 0;
        while k < |book.copies|
          invariant k <= |book.copies|
          invariant |bookRows| == |copyRows| == |before| + k
          invariant forall n :: 0 <= n < |before| ==> (bookRows[n], copyRows[n]) == before[n]
          invariant forall n :: |before| <= n < |bookRows| ==> bookRows[n] == book && copyRows[n] == book.copies[n - |before|]
        {
          bookRows, copyRows := bookRows + [book], copyRows + [book.copies[k]];
          k := k + 1;
        }
      }
      i := i + 1;
    }
    assert books[..i] == books;
  }

  /** The counting loop of the borrow button: open records are counted until the tenth,
      so the count is the number of open records capped at 10. */
  method CountActiveBorrows(records: seq<BookBorrow>) returns (count: nat)
    ensures count == if ActiveCount(records) >= 10 then 10 else ActiveCount(records)
  {
    count := 0;
    var i := 0;
    while i < |records|
      invariant i <= |records|
      invariant count == ActiveCount(records[..i]) && count < 10
    {
      assert records[..i + 1][..i] == records[..i];
      if records[i].status == BORROW {
        count := count + 1;
      }
      if count >= 10 {
        ActiveCountPrefix(records, i + 1);
        return;
      }
      i := i + 1;
    }
    assert records[..i] == records;
  }

  /** Both stores. */
  datatype Library = Library(books: seq<BookEntry>, visitors: seq<VisitorEntry>)

  /** How a button press ended (the dialog it shows) and the stores after it. */
  datatype Flow<O> = Flow(outcome: O, state: Library)

  datatype BorrowOutcome = COPY_UNAVAILABLE | VISITOR_NOT_FOUND | LIMIT_REACHED | NOT_BORROWED | BORROWED

  datatype ReturnOutcome = COPY_MISSING | ALREADY_RETURNED | BORROWER_NOT_FOUND | RETURNED

  datatype DeleteOutcome = CANCELLED | ON_LOAN | DELETED | NOT_DELETED

  /** Most open borrows a visitor may hold. */
  const BorrowLimit := 10

  /** The borrow button on the row for (isbn, copyId), with the id the visitor typed: a
      copy on loan, an unknown visitor and a visitor at the limit abort; otherwise the
      book side borrows, and only when it succeeds the visitor side records it. */
  function BorrowFlow(lib: Library, isbn: string, copyId: string, visitorId: int, now: nat): (r: Flow<BorrowOutcome>)
    ensures var c := CopyAt(lib.books, isbn, copyId);
      var onLoan := c.Some? && c.value.status == UNAVAILABLE;
      var j := IdIndex(lib.visitors, visitorId);
      (r.outcome == COPY_UNAVAILABLE <==> onLoan) &&
      (r.outcome == VISITOR_NOT_FOUND <==> !onLoan && j == |lib.visitors|) &&
      (r.outcome == LIMIT_REACHED <==>
         !onLoan && j < |lib.visitors| && ActiveCount(lib.visitors[j].bookBorrows) >= BorrowLimit) &&
      (r.outcome == NOT_BORROWED <==>
         !onLoan && j < |lib.visitors| && ActiveCount(lib.visitors[j].bookBorrows) < BorrowLimit &&
         !WithCopyBorrowed(lib.books, isbn, copyId, visitorId).ok) &&
      ((c.Some? && c.value.status == AVAILABLE && j < |lib.visitors| &&
        ActiveCount(lib.visitors[j].bookBorrows) < BorrowLimit) ==> r.outcome == BORROWED)
    ensures r.outcome != BORROWED ==> r.state == lib
    ensures r.outcome == BORROWED ==>
      var j := IdIndex(lib.visitors, visitorId);
      j < |lib.visitors| && ActiveCount(lib.visitors[j].bookBorrows) < BorrowLimit &&
      WithCopyBorrowed(lib.books, isbn, copyId, visitorId).ok &&
      r.state.books == WithCopyBorrowed(lib.books, isbn, copyId, visitorId).state &&
      r.state.visitors == WithBorrowRecorded(lib.visitors, isbn, copyId, visitorId, now).state
  {
    var copy := CopyAt(lib.books, isbn, copyId);
    if copy.Some? && copy.value.status == UNAVAILABLE then Flow(COPY_UNAVAILABLE, lib)
    else
      var j := IdIndex(lib.visitors, visitorId);
      if j == |lib.visitors| then Flow(VISITOR_NOT_FOUND, lib)
      else if ActiveCount(lib.visitors[j].bookBorrows) >= BorrowLimit then Flow(LIMIT_REACHED, lib)
      else
        var id := lib.visitors[j].visitorId;
        var b := WithCopyBorrowed(lib.books, isbn, copyId, id);
        if !b.ok then Flow(NOT_BORROWED, lib)
        else Flow(BORROWED, Library(b.state, WithBorrowRecorded(lib.visitors, isbn, copyId, id, now).state))
  }

  /** The return button on the row for (isbn, copyId): a copy not on loan is left alone;
      otherwise the book side returns it, and the visitor side closes the borrower's
      record when the borrower the copy remembers still exists. */
  function ReturnFlow(lib: Library, isbn: string, copyId: string, now: nat): (r: Flow<ReturnOutcome>)
    ensures var copy := CopyAt(lib.books, isbn, copyId);
      (r.outcome == COPY_MISSING <==> copy.None?) &&
      (r.outcome == ALREADY_RETURNED <==> copy.Some? && copy.value.status == AVAILABLE) &&
      (r.outcome in {BORROWER_NOT_FOUND, RETURNED} <==> copy.Some? && copy.value.status == UNAVAILABLE)
    ensures r.outcome in {COPY_MISSING, ALREADY_RETURNED} ==> r.state == lib
    ensures r.outcome in {BORROWER_NOT_FOUND, RETURNED} ==>
      var copy := CopyAt(lib.books, isbn, copyId);
      copy.Some? && copy.value.status == UNAVAILABLE &&
      r.state.books == WithCopyReturned(lib.books, isbn, copyId).state &&
      (r.outcome == BORROWER_NOT_FOUND <==> IdIndex(lib.visitors, copy.value.borrowVisitorId) == |lib.visitors|) &&
      (r.outcome == BORROWER_NOT_FOUND ==> r.state.visitors == lib.visitors) &&
      (r.outcome == RETURNED ==>
         r.state.visitors == WithReturnRecorded(lib.visitors, isbn, copyId, copy.value.borrowVisitorId, now).state)
  {
    var copy := CopyAt(lib.books, isbn, copyId);
    if copy.None? then Flow(COPY_MISSING, lib)
    else if copy.value.status == AVAILABLE then Flow(ALREADY_RETURNED, lib)
    else
      var books := WithCopyReturned(lib.books, isbn, copyId).state;
      var j := IdIndex(lib.visitors, copy.value.borrowVisitorId);
      if j == |lib.visitors| then Flow(BORROWER_NOT_FOUND, Library(books, lib.visitors))
      else
        var id := lib.visitors[j].visitorId;
        Flow(RETURNED, Library(books, WithReturnRecorded(lib.visitors, isbn, copyId, id, now).state))
  }

  /** The delete button on the row for (isbn, copyId), after the confirmation: a copy on
      loan is refused; otherwise the book side deletes it. */
  function DeleteFlow(lib: Library, isbn: string, copyId: string, confirmed: bool): (r: Flow<DeleteOutcome>)
    ensures r.outcome == CANCELLED <==> !confirmed
    ensures r.outcome == ON_LOAN <==>
      confirmed && CopyAt(lib.books, isbn, copyId).Some? && CopyAt(lib.books, isbn, copyId).value.status == UNAVAILABLE
    ensures r.outcome == DELETED <==>
      confirmed && CopyAt(lib.books, isbn, copyId).Some? && CopyAt(lib.books, isbn, copyId).value.status == AVAILABLE
    ensures r.state.visitors == lib.visitors
    ensures r.outcome != DELETED ==> r.state == lib
    ensures r.outcome == DELETED ==>
      CopyAt(lib.books, isbn, copyId).Some? && CopyAt(lib.books, isbn, copyId).value.status == AVAILABLE &&
      r.state.books == WithCopyDeleted(lib.books, isbn, copyId).state
  {
    var copy := CopyAt(lib.books, isbn, copyId);
    if !confirmed then Flow(CANCELLED, lib)
    else if copy.Some? && copy.value.status == UNAVAILABLE then Flow(ON_LOAN, lib)
    else
      var d := WithCopyDeleted(lib.books, isbn, copyId);
      if d.ok then
        assert copy.Some? && copy.value.status != UNAVAILABLE;
        assert copy.value.status == AVAILABLE;
        Flow(DELETED, Library(d.state, lib.visitors))
      else Flow(NOT_DELETED, lib)
  }

  /** The librarian's screen: the two stores it works on, the text in the search box and
      the two parallel lists behind the table rows. */
  class LibrarianFrame {
    const bookDatabase: BookDatabase
    const visitorDatabase: VisitorDatabase
    var searchText: string
    var bookRows: seq<BookEntry>
    var copyRows: seq<CopyEntry>

    /** The rows shown for the current search text over the current book store. */
    ghost predicate TableShown()
      reads this, bookDatabase
    {
      var rows := TableRows(bookDatabase.bookBases, Trim(searchText));
      |bookRows| == |copyRows| == |rows| &&
      forall n :: 0 <= n < |rows| ==> (bookRows[n], copyRows[n]) == rows[n]
    }

    constructor (bookDatabase: BookDatabase, visitorDatabase: VisitorDatabase)
      ensures this.bookDatabase == bookDatabase && this.visitorDatabase == visitorDatabase
      ensures searchText == []
      ensures TableShown()
    {
      this.bookDatabase := bookDatabase;
      this.visitorDatabase := visitorDatabase;
      searchText := [];
      new;
      UpdateTable();
    }

    /** `updateTable`: rebuild the rows from the trimmed search text. */
    method UpdateTable()
      modifies this
      ensures searchText == old(searchText)
      ensures TableShown()
    {
      var query := Trim(searchText);
      var books := bookDatabase.GetAllBooks();
      bookRows, copyRows := BuildTable(books, query);
    }

    /** The stores as one value. */
    function Stores(): Library
      reads bookDatabase, visitorDatabase
    {
      Library(bookDatabase.bookBases, visitorDatabase.visitors)
    }

    /** `onBorrowButtonClicked(row)`, `visitorId` being what the visitor typed; the table
        is rebuilt after a successful borrow. */
    method OnBorrowButtonClicked(row: nat, visitorId: int, now: nat) returns (outcome: BorrowOutcome)
      requires row < |bookRows| && row < |copyRows|
      modifies this, bookDatabase, visitorDatabase
      ensures var r := BorrowFlow(old(Stores()), old(bookRows[row].isbn), old(copyRows[row].copyId), visitorId, now);
        outcome == r.outcome && Stores() == r.state
      ensures searchText == old(searchText)
      ensures outcome == BORROWED ==> TableShown()
      ensures outcome != BORROWED ==> bookRows == old(bookRows) && copyRows == old(copyRows)
    {
      var isbn, copyId := bookRows[row].isbn, copyRows[row].copyId;
      var copy := CopyAt(bookDatabase.bookBases, isbn, copyId);
      if copy.Some? && copy.value.status == UNAVAILABLE {
        return COPY_UNAVAILABLE;
      }
      var visitor := visitorDatabase.FindVisitorById(visitorId);
      if visitor.None? {
        return VISITOR_NOT_FOUND;
      }
      var bookBorrowCount := CountActiveBorrows(visitor.value.bookBorrows);
      if bookBorrowCount >= BorrowLimit {
        return LIMIT_REACHED;
      }
      var success := bookDatabase.BorrowBook(isbn, copyId, visitor.value.visitorId);
      if !success {
        return NOT_BORROWED;
      }
      var _ := visitorDatabase.BorrowBook(isbn, copyId, visitor.value.visitorId, now);
      UpdateTable();
      return BORROWED;
    }

    /** `onReturnButtonClicked(row)`; the table is rebuilt when the borrower was found. */
    method OnReturnButtonClicked(row: nat, now: nat) returns (outcome: ReturnOutcome)
      requires row < |bookRows| && row < |copyRows|
      modifies this, bookDatabase, visitorDatabase
      ensures var r := ReturnFlow(old(Stores()), old(bookRows[row].isbn), old(copyRows[row].copyId), now);
        outcome == r.outcome && Stores() == r.state
      ensures searchText == old(searchText)
      ensures outcome == RETURNED ==> TableShown()
      ensures outcome != RETURNED ==> bookRows == old(bookRows) && copyRows == old(copyRows)
    {
      var isbn, copyId := bookRows[row].isbn, copyRows[row].copyId;
      var copy := CopyAt(bookDatabase.bookBases, isbn, copyId);
      if copy.None? {
        return COPY_MISSING;
      }
      if copy.value.status == AVAILABLE {
        return ALREADY_RETURNED;
      }
      var _ := bookDatabase.ReturnBook(isbn, copyId);
      var visitorId := copy.value.borrowVisitorId;
      var visitor := visitorDatabase.FindVisitorById(visitorId);
      if visitor.None? {
        return BORROWER_NOT_FOUND;
      }
      var _ := visitorDatabase.ReturnBook(isbn, copyId, visitor.value.visitorId, now);
      UpdateTable();
      return RETURNED;
    }

    /** `onDeleteButtonClicked(row)`, `confirmed` being the answer to the confirmation;
        the table is rebuilt whenever the deletion was attempted. */
    method OnDeleteButtonClicked(row: nat, confirmed: bool) returns (outcome: DeleteOutcome)
      requires row < |bookRows| && row < |copyRows|
      modifies this, bookDatabase
      ensures var r := DeleteFlow(old(Stores()), old(bookRows[row].isbn), old(copyRows[row].copyId), confirmed);
        outcome == r.outcome && Stores() == r.state
      ensures searchText == old(searchText)
      ensures outcome in {DELETED, NOT_DELETED} ==> TableShown()
      ensures outcome in {CANCELLED, ON_LOAN} ==> bookRows == old(bookRows) && copyRows == old(copyRows)
    {
      var isbn, copyId := bookRows[row].isbn, copyRows[row].copyId;
      if !confirmed {
        return CANCELLED;
      }
      var copy := CopyAt(bookDatabase.bookBases, isbn, copyId);
      if copy.Some? && copy.value.status == UNAVAILABLE {
        return ON_LOAN;
      }
      var deleted := bookDatabase.DeleteBook(isbn, copyId);
      UpdateTable();
      outcome := if deleted then DELETED else NOT_DELETED;
    }
  }
}
