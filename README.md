# Library management system — verified model of the in-memory domain layer

This project models the core of a small Java library system in Dafny:

- the **book store** (`BookDatabase`), which holds titles (`BookBase`) keyed by ISBN, each
  with an ordered list of physical copies (`BookCopy`);
- the **visitor store** (`VisitorDatabase`), which holds visitors (`Visitor`), each with
  a list of borrow records (`BookBorrow`);
- the decision logic of the **librarian screen** (`LibrarianFrame`): the search filter and
  the table it fills, and the borrow, return and delete buttons, each a sequence of calls
  on the two stores.

Each store is a class whose one field is a sequence of values (`BookEntry`, `VisitorEntry`).
Each store method is proved equal to a specification function of the old sequence
(`WithBookAdded`, `WithCopyBorrowed`, `WithReturnRecorded`, ...). The properties are
proved about those functions. The entity classes `BookCopy`, `BookBase` and `Visitor` keep
their mutable fields and setters, and each has a `Value()` that gives the entry the stores
hold. The button handlers are methods on a `LibrarianFrame` class. Each is proved to act
on the stores as a pure flow function (`BorrowFlow`, `ReturnFlow`, `DeleteFlow`).

Module `Consistency` ties the two stores together. A copy on loan (UNAVAILABLE) has
exactly one open BORROW record, and that record is held by the visitor whose id the copy
remembers in `borrowVisitorId`. Every open record is for a copy on loan. No visitor holds
more than ten open borrows. The module proves that the invariant is kept by:

- the three librarian buttons (`BorrowFlow`, `ReturnFlow`, `DeleteFlow`), unconditionally;
- editing a book, unconditionally;
- adding a book, when its copies have distinct ids and are all AVAILABLE, as the `BookBase`
  constructor makes them;
- registering a visitor, when the new visitor holds no open borrow;
- editing a visitor, when the edited entry keeps the stored visitor's borrow records;
- deleting a visitor, when that visitor holds no open borrow.

The store-level `borrowBook`, `returnBook` and `deleteBook` of either store do not keep
it on their own: a borrow on the book side alone leaves a loan without a record, and
deleting a copy on loan leaves a record without a loan. They are covered only as the steps
of the button flows, which pair them up and guard them.

Files: `common.dfy` (Option, Step, Remove), `java_strings.dfy` (the string functions the
source relies on: `trim`, `toLowerCase`, `contains`, `split("-")`, `parseInt`,
`Integer.toString`), `book.dfy`, `book_database.dfy`, `user.dfy`, `visitor_database.dfy`,
`librarian.dfy`, `consistency.dfy`.

## Model

| member | source | states |
|---|---|---|
| Common.Remove | src/main/java/org/lms/book/BookDatabase.java:144-146 | `List.remove(i)`: one shorter, elements before `i` kept, elements after shifted down by one |
| JavaStrings.NatToString | src/main/java/org/lms/book/BookBase.java:45-48 | `Integer.toString` of a non-negative number: a non-empty run of decimal digits (its inverse is `ParseNatToString`) |
| JavaStrings.ParseNatToString | src/main/java/org/lms/book/BookDatabase.java:51-62 | parsing the digits written for `n` gives back `n` |
| JavaStrings.LastSegment | src/main/java/org/lms/book/BookDatabase.java:53-55 | the last piece of `split("-")`: a suffix of the id that holds no dash, preceded by a dash or the whole id |
| JavaStrings.LastSegmentAfterDash | src/main/java/org/lms/book/BookDatabase.java:53-55 | for `p + "-" + t` with `t` dash-free, the last piece is `t`, whatever dashes `p` holds |
| JavaStrings.DigitsHoldNoDash | src/main/java/org/lms/book/BookDatabase.java:53-55 | a digit string holds no dash |
| JavaStrings.TrimStartSpec | src/main/java/org/lms/view/librarian/LibrarianFrame.java:102 | trimming the front drops exactly the leading characters `<= ' '` and keeps the rest |
| JavaStrings.TrimEndSpec | src/main/java/org/lms/view/librarian/LibrarianFrame.java:102 | trimming the back drops exactly the trailing characters `<= ' '` |
| JavaStrings.TrimSpec | src/main/java/org/lms/view/librarian/LibrarianFrame.java:102 | `trim()` is a slice of the text with only blanks around it, starting and ending with a non-blank when non-empty |
| JavaStrings.TrimEmptyIffBlank | src/main/java/org/lms/view/librarian/LibrarianFrame.java:102 | the trimmed query is empty exactly when the text is all blanks |
| JavaStrings.ContainsIffSubstring | src/main/java/org/lms/view/librarian/LibrarianFrame.java:116-125 | `contains` holds exactly when the pattern occurs at some position |
| Book.SuffixOfCopyId | src/main/java/org/lms/book/BookDatabase.java:51-67 | the number read back from a generated id `isbn-n` is `n`, even when the ISBN holds dashes |
| Book.CopyIdInjective | src/main/java/org/lms/book/BookBase.java:45-48 | different numbers give different copy ids |
| Book.NewCopies | src/main/java/org/lms/book/BookDatabase.java:65-71 | exactly `count` copies are generated |
| Book.NewCopiesAt | src/main/java/org/lms/book/BookDatabase.java:65-71 | generated copy `k` is `isbn-(from+k+1)`, AVAILABLE, borrower 0 |
| Book.NewCopiesSplit | src/main/java/org/lms/book/BookDatabase.java:65-71 | numbering `count` then `more` copies equals numbering `count + more` in one go |
| Book.NewCopiesSuffixes | src/main/java/org/lms/book/BookDatabase.java:51-71 | each generated copy reads back as its own number |
| Book.NewCopiesFacts | src/main/java/org/lms/book/BookBase.java:42-48 | generated copies are all AVAILABLE and have pairwise different ids |
| Book.MaxPresent | src/main/java/org/lms/book/BookDatabase.java:51-62 | the largest number present is at least 0 and every present number, and is 0 or one of them |
| Book.MaxPresentStep | src/main/java/org/lms/book/BookDatabase.java:56-58 | one more id moves the maximum only when its number parses and is larger |
| Book.Suffixes | src/main/java/org/lms/book/BookDatabase.java:53-60 | one parsed suffix per copy, in order |
| Book.AppendedCopiesKeepIdsUnique | src/main/java/org/lms/book/BookDatabase.java:51-71 | copies numbered after the largest suffix collide with no existing id, even ones whose suffix does not parse |
| Book.MaxSuffixOfNewCopies | src/main/java/org/lms/book/BookDatabase.java:51-62 | copies numbered 1 to `count` read back `count` as their maximum |
| Book.NumberingContinues | src/main/java/org/lms/book/BookDatabase.java:51-71 | copies numbered 1..n followed by the ones `addBook` appends are numbered 1..n+count |
| Book.CopyIndex | src/main/java/org/lms/book/BookBase.java:72-79 | the first copy with the id, `|copies|` when none |
| Book.AvailableIndex | src/main/java/org/lms/book/BookBase.java:57-65 | the first AVAILABLE copy, `|copies|` when none |
| Book.BookCopy.constructor | src/main/java/org/lms/book/BookCopy.java:25-28 | the id as given, AVAILABLE, borrower 0 |
| Book.BookCopy.SetCopyId | src/main/java/org/lms/book/BookCopy.java:44-46 | only the copy id changes |
| Book.BookCopy.SetStatus | src/main/java/org/lms/book/BookCopy.java:62-64 | only the status changes |
| Book.BookCopy.SetBorrowVisitorId | src/main/java/org/lms/book/BookCopy.java:82-84 | only `borrowVisitorId` changes |
| Book.BookBase.constructor | src/main/java/org/lms/book/BookBase.java:36-49 | metadata as given and copies `isbn-1` … `isbn-numCopies` in order, none when `numCopies <= 0` |
| Book.BookBase.Borrow | src/main/java/org/lms/book/BookBase.java:57-65 | true iff some copy is AVAILABLE; then exactly the first such copy becomes UNAVAILABLE, otherwise nothing changes |
| Book.BookBase.ReturnBook | src/main/java/org/lms/book/BookBase.java:72-79 | exactly the first copy with the id becomes AVAILABLE; no change when there is none |
| Book.BookBase.SetTitle | src/main/java/org/lms/book/BookBase.java:97-99 | only the title changes |
| Book.BookBase.SetAuthor | src/main/java/org/lms/book/BookBase.java:115-117 | only the author changes |
| Book.BookBase.SetIsbn | src/main/java/org/lms/book/BookBase.java:133-135 | only the ISBN changes |
| Book.BookBase.SetType | src/main/java/org/lms/book/BookBase.java:151-153 | only the type changes |
| Book.BookBase.SetSection | src/main/java/org/lms/book/BookBase.java:169-171 | only the section changes |
| Book.BookBase.SetCopies | src/main/java/org/lms/book/BookBase.java:187-189 | the whole copy list is replaced, nothing else changes |
| BookDb.IsbnIndex | src/main/java/org/lms/book/BookDatabase.java:112-119 | the first title with the ISBN, `|books|` when none |
| BookDb.SlotIndex | src/main/java/org/lms/book/BookDatabase.java:195-213 | the first title with the ISBN whose first copy with the id has the wanted status |
| BookDb.CopyAtFinds | src/main/java/org/lms/book/BookDatabase.java:195-239 | in a catalogue every stored copy is named by its (ISBN, copy id) pair |
| BookDb.CopyAtStored | src/main/java/org/lms/book/BookDatabase.java:195-239 | a pair that names a copy names one stored under that ISBN with that id |
| BookDb.SameKeysSameIndexes | src/main/java/org/lms/book/BookDatabase.java:93-104 | lists with the same ISBNs and copy ids answer every lookup at the same positions |
| BookDb.SameKeysCatalogued | src/main/java/org/lms/book/BookDatabase.java:93-104 | such lists are catalogues together |
| BookDb.SetCopyLookups | src/main/java/org/lms/book/BookDatabase.java:200-202 | updating the copy a pair names changes that pair's answer only |
| BookDb.CopyCountUpdate | src/main/java/org/lms/book/BookDatabase.java:141-144 | replacing a title changes the number of copies by the difference |
| BookDb.CopyCountRemove | src/main/java/org/lms/book/BookDatabase.java:145-147 | removing a title removes its copies from the count |
| BookDb.WithBookEdited | src/main/java/org/lms/book/BookDatabase.java:93-104 | true iff the ISBN is stored; then the first such title takes the new title, author, type and section, no ISBN or copy changes anywhere, every other title is unchanged; false and no change otherwise |
| BookDb.WithCopyDeleted | src/main/java/org/lms/book/BookDatabase.java:138-154 | true iff the pair names a copy; then exactly one copy fewer, and the title goes exactly when that was its only copy; a kept title keeps its metadata and its other copies in order (`Remove` at the copy's index); titles before it are unchanged, titles after it are unchanged (shifted down one when the title goes); false and no change otherwise |
| BookDb.WithCopyBorrowed | src/main/java/org/lms/book/BookDatabase.java:195-213 | true iff some title with the ISBN has its first copy with the id AVAILABLE; the titles, their order and their metadata never change, only copies; false and no change otherwise |
| BookDb.WithCopyReturned | src/main/java/org/lms/book/BookDatabase.java:222-239 | true iff some title with the ISBN has its first copy with the id UNAVAILABLE; the titles, their order and their metadata never change, only copies; false and no change otherwise |
| BookDb.CopyAtIffHolds | src/main/java/org/lms/book/BookDatabase.java:195-239 | in a catalogue a pair names a copy exactly when that copy is stored under the ISBN |
| BookDb.BorrowedCopy | src/main/java/org/lms/book/BookDatabase.java:195-213 | borrow succeeds iff the named copy exists and is AVAILABLE; it becomes UNAVAILABLE with the borrower's id, every other pair is unchanged, the catalogue stays one |
| BookDb.ReturnedCopy | src/main/java/org/lms/book/BookDatabase.java:222-239 | return succeeds iff the named copy exists and is UNAVAILABLE; it becomes AVAILABLE and keeps `borrowVisitorId`, every other pair is unchanged |
| BookDb.NoDoubleBorrowOrReturn | src/main/java/org/lms/book/BookDatabase.java:195-239 | a second borrow straight after a borrow fails, and a second return straight after a return fails |
| BookDb.EditedBookKeepsCopies | src/main/java/org/lms/book/BookDatabase.java:93-104 | editing changes no pair's copy and keeps the catalogue |
| BookDb.RemovedTitleCatalogued | src/main/java/org/lms/book/BookDatabase.java:145-147 | removing a title keeps ISBNs and copy ids distinct |
| BookDb.RemovedTitleHolds | src/main/java/org/lms/book/BookDatabase.java:145-147 | after removing a title, exactly the copies of the other titles remain stored |
| BookDb.RemovedCopyCatalogued | src/main/java/org/lms/book/BookDatabase.java:142-144 | removing one copy keeps the catalogue |
| BookDb.RemovedCopyHolds | src/main/java/org/lms/book/BookDatabase.java:142-144 | after removing one copy, exactly the other copies remain stored |
| BookDb.DeletedCopy | src/main/java/org/lms/book/BookDatabase.java:138-154 | deleting removes exactly the named copy: that pair names nothing, every other pair is unchanged, the catalogue stays one |
| BookDb.AddedBookShape | src/main/java/org/lms/book/BookDatabase.java:46-84 | a new ISBN appends the title unchanged; a known one keeps its title's metadata and appends `|copies|` fresh copies |
| BookDb.ExtendedTitleCopies | src/main/java/org/lms/book/BookDatabase.java:65-76 | the extended title's copies are its old copies followed by the fresh ones |
| BookDb.AppendedTitle | src/main/java/org/lms/book/BookDatabase.java:79-81 | appending a title with a new ISBN keeps the catalogue and every old pair, and the new pairs are AVAILABLE |
| BookDb.AppendedCopies | src/main/java/org/lms/book/BookDatabase.java:65-76 | appending distinct AVAILABLE copies keeps the catalogue and every old pair, and the new pairs are AVAILABLE |
| BookDb.AddedBook | src/main/java/org/lms/book/BookDatabase.java:46-84 | `addBook` of a constructor-built title keeps the catalogue, adds exactly its number of copies, keeps every pair and its status, and the added pairs are AVAILABLE |
| BookDb.MaxOfPresent | src/main/java/org/lms/book/BookDatabase.java:51-62 | the max loop gives the largest number read back, 0 when none, skipping the ids whose number did not parse |
| BookDb.MaxCopyNumber | src/main/java/org/lms/book/BookDatabase.java:51-62 | the max loop computes the largest parseable suffix, 0 when none, skipping the unparseable ones |
| BookDb.AppendNewCopies | src/main/java/org/lms/book/BookDatabase.java:65-71 | the append loop adds `isbn-(from+1)` … `isbn-(from+count)` after the old copies |
| BookDb.BookDatabase.constructor | src/main/java/org/lms/book/BookDatabase.java:22-25 | an empty store |
| BookDb.BookDatabase.IndexOfIsbn | src/main/java/org/lms/book/BookDatabase.java:113-117 | the loop stops at the first title with the ISBN |
| BookDb.BookDatabase.FindBookByIsbn | src/main/java/org/lms/book/BookDatabase.java:112-119 | null exactly when no title has the ISBN; otherwise the first title that has it |
| BookDb.BookDatabase.GetAllBooks | src/main/java/org/lms/book/BookDatabase.java:126-128 | the titles, in order |
| BookDb.BookDatabase.AddBook | src/main/java/org/lms/book/BookDatabase.java:46-84 | the new list is `WithBookAdded` of the old one |
| BookDb.BookDatabase.EditBook | src/main/java/org/lms/book/BookDatabase.java:93-104 | result and new list are those of `WithBookEdited` |
| BookDb.BookDatabase.DeleteBook | src/main/java/org/lms/book/BookDatabase.java:138-154 | result and new list are those of `WithCopyDeleted` |
| BookDb.BookDatabase.BorrowBook | src/main/java/org/lms/book/BookDatabase.java:195-213 | result and new list are those of `WithCopyBorrowed` |
| BookDb.BookDatabase.ReturnBook | src/main/java/org/lms/book/BookDatabase.java:222-239 | result and new list are those of `WithCopyReturned` |
| User.ActiveCount | src/main/java/org/lms/view/librarian/LibrarianFrame.java:261-278 | the records with status BORROW number at most all the records |
| User.ActiveCountFor | src/main/java/org/lms/user/VisitorDatabase.java:163-178 | the open records for one copy number at most all open records |
| User.NoActiveFor | src/main/java/org/lms/user/VisitorDatabase.java:163-178 | no open record for a copy exactly when no record for it has status BORROW |
| User.ActiveCountPrefix | src/main/java/org/lms/view/librarian/LibrarianFrame.java:261-278 | a prefix of the records holds no more open records than all of them |
| User.AppendedRecordCounts | src/main/java/org/lms/user/VisitorDatabase.java:148 | an appended record adds one to the counts it is open for and leaves the others |
| User.ReplacedRecordCounts | src/main/java/org/lms/user/VisitorDatabase.java:166-173 | a record replaced in place changes each count by what the old and the new record contribute |
| User.ActiveIndex | src/main/java/org/lms/user/VisitorDatabase.java:166-173 | the first record open for the copy, `|records|` when none |
| User.Visitor.constructor | src/main/java/org/lms/user/Visitor.java:37-44 | role VISITOR, fields as given, id 0, an empty borrow list |
| User.Visitor.GetBookBorrows | src/main/java/org/lms/user/Visitor.java:96-101 | never null: a null list becomes an empty one, an existing list is returned unchanged, and once the list exists a call changes nothing |
| User.Visitor.SetVisitorId | src/main/java/org/lms/user/Visitor.java:52-54 | only the id changes |
| User.Visitor.SetFullName | src/main/java/org/lms/user/Visitor.java:60-62 | only the full name changes |
| User.Visitor.SetGender | src/main/java/org/lms/user/Visitor.java:68-70 | only the gender changes |
| User.Visitor.SetAge | src/main/java/org/lms/user/Visitor.java:76-78 | only the age changes |
| User.Visitor.SetPhone | src/main/java/org/lms/user/Visitor.java:84-86 | only the phone changes |
| User.Visitor.SetAddress | src/main/java/org/lms/user/Visitor.java:92-94 | only the address changes |
| VisitorDb.IdIndex | src/main/java/org/lms/user/VisitorDatabase.java:108-115 | the first visitor with the id, `|vs|` when none |
| VisitorDb.UsernameIndex | src/main/java/org/lms/user/VisitorDatabase.java:123-130 | the first visitor with exactly that username, `|vs|` when none |
| VisitorDb.MaxVisitorId | src/main/java/org/lms/user/VisitorDatabase.java:58-66 | at least 1000 and every id, and equal to 1000 or to some id |
| VisitorDb.NextVisitorId | src/main/java/org/lms/user/VisitorDatabase.java:58-66 | above every id in use and at least 1001; 1001 in an empty store; otherwise it follows 1000 or an id in use |
| VisitorDb.WithVisitorAdded | src/main/java/org/lms/user/VisitorDatabase.java:46-51 | one longer, old visitors unchanged, the new one at the end with the next id |
| VisitorDb.WithVisitorEdited | src/main/java/org/lms/user/VisitorDatabase.java:74-83 | true iff the id is present; then the first visitor with it is replaced and every other position is unchanged; false and no change otherwise |
| VisitorDb.WithVisitorDeleted | src/main/java/org/lms/user/VisitorDatabase.java:91-100 | true iff the id is present; then exactly the first visitor with it is removed; false and no change otherwise |
| VisitorDb.WithBorrowRecorded | src/main/java/org/lms/user/VisitorDatabase.java:140-153 | true iff the visitor exists; then one BORROW record with no return time is appended to that visitor only; false and no change otherwise |
| VisitorDb.WithReturnRecorded | src/main/java/org/lms/user/VisitorDatabase.java:163-178 | true iff the visitor exists and holds an open record for the copy; then exactly the first such record becomes RETURN with the return time; false and no change otherwise |
| VisitorDb.AddedVisitorFound | src/main/java/org/lms/user/VisitorDatabase.java:46-66 | ids stay distinct and the new id finds the new visitor |
| VisitorDb.DeletedVisitorUnique | src/main/java/org/lms/user/VisitorDatabase.java:91-100 | deleting a visitor keeps the remaining ids distinct |
| VisitorDb.DeletedVisitorIndex | src/main/java/org/lms/user/VisitorDatabase.java:91-100 | after a delete every other visitor is still found by its id, one place earlier when it stood after the deleted one |
| VisitorDb.RecordsOnlyGrow | src/main/java/org/lms/user/VisitorDatabase.java:140-178 | records are never removed: a borrow appends one record to the borrower only, a return keeps every length and changes a record only by closing it |
| VisitorDb.ReturnRecordedCounts | src/main/java/org/lms/user/VisitorDatabase.java:163-178 | a recorded return lowers the borrower's open count, and its open count for that copy, by one |
| VisitorDb.BorrowRecordedCounts | src/main/java/org/lms/user/VisitorDatabase.java:140-153 | a recorded borrow raises the borrower's open count, and its open count for that copy, by one |
| VisitorDb.BorrowThenReturnRecorded | src/main/java/org/lms/user/VisitorDatabase.java:140-178 | a return right after a borrow closes the record just appended, when no older record for the copy was open |
| VisitorDb.VisitorDatabase.constructor | src/main/java/org/lms/user/VisitorDatabase.java:24-27 | an empty store |
| VisitorDb.VisitorDatabase.GetNextVisitorId | src/main/java/org/lms/user/VisitorDatabase.java:58-66 | the max loop returns `NextVisitorId` |
| VisitorDb.VisitorDatabase.AddVisitor | src/main/java/org/lms/user/VisitorDatabase.java:46-51 | the given visitor object gets the next id and the new list is `WithVisitorAdded` |
| VisitorDb.VisitorDatabase.IndexOfId | src/main/java/org/lms/user/VisitorDatabase.java:109-113 | the loop stops at the first visitor with the id |
| VisitorDb.VisitorDatabase.EditVisitor | src/main/java/org/lms/user/VisitorDatabase.java:74-83 | result and new list are those of `WithVisitorEdited` |
| VisitorDb.VisitorDatabase.DeleteVisitor | src/main/java/org/lms/user/VisitorDatabase.java:91-100 | result and new list are those of `WithVisitorDeleted` |
| VisitorDb.VisitorDatabase.FindVisitorById | src/main/java/org/lms/user/VisitorDatabase.java:108-115 | null exactly when no visitor has the id; otherwise the first that has it |
| VisitorDb.VisitorDatabase.FindVisitorByUsername | src/main/java/org/lms/user/VisitorDatabase.java:123-130 | null exactly when no username equals the argument (case-sensitive); otherwise the first visitor with it |
| VisitorDb.VisitorDatabase.BorrowBook | src/main/java/org/lms/user/VisitorDatabase.java:140-153 | result and new list are those of `WithBorrowRecorded` |
| VisitorDb.VisitorDatabase.ReturnBook | src/main/java/org/lms/user/VisitorDatabase.java:163-178 | result and new list are those of `WithReturnRecorded` |
| Librarian.MatchesSearchText | src/main/java/org/lms/view/librarian/LibrarianFrame.java:102-125 | a title is shown iff the text is all blanks, or the trimmed lower-cased text occurs in its lower-cased title, author or ISBN |
| Librarian.CopyRows | src/main/java/org/lms/view/librarian/LibrarianFrame.java:133-147 | one row per copy of the title, in copy order |
| Librarian.TableRowsShown | src/main/java/org/lms/view/librarian/LibrarianFrame.java:116-147 | every row pairs a shown, stored title with one of its own copies |
| Librarian.TableRowsComplete | src/main/java/org/lms/view/librarian/LibrarianFrame.java:116-147 | every copy of every shown title has a row |
| Librarian.BlankQueryShowsEveryCopy | src/main/java/org/lms/view/librarian/LibrarianFrame.java:116-147 | with a blank query there are exactly as many rows as copies in the store |
| Librarian.BuildTable | src/main/java/org/lms/view/librarian/LibrarianFrame.java:111-148 | the two parallel row lists have equal length and hold exactly the table rows, in order |
| Librarian.CountActiveBorrows | src/main/java/org/lms/view/librarian/LibrarianFrame.java:261-269 | the counting loop gives the number of BORROW records, capped at 10 |
| Librarian.BorrowFlow | src/main/java/org/lms/view/librarian/LibrarianFrame.java:201-312 | each outcome exactly when its guard is the first to fail: COPY_UNAVAILABLE iff the copy is on loan, VISITOR_NOT_FOUND iff not and the id is unknown, LIMIT_REACHED iff the visitor is at ten open borrows, NOT_BORROWED iff the book side refuses; an AVAILABLE copy and a known visitor under the limit give BORROWED; an abort changes nothing, and BORROWED gives both stores' new states |
| Librarian.ReturnFlow | src/main/java/org/lms/view/librarian/LibrarianFrame.java:320-363 | COPY_MISSING iff the pair names no copy and ALREADY_RETURNED iff it names an AVAILABLE one, and then nothing changes; the copy is on loan iff the book side returns it, and the visitor side then closes the record exactly when the remembered borrower exists |
| Librarian.DeleteFlow | src/main/java/org/lms/view/librarian/LibrarianFrame.java:370-397 | visitors never change; CANCELLED iff not confirmed; ON_LOAN iff confirmed and the copy is UNAVAILABLE; DELETED iff confirmed and the copy exists and is AVAILABLE, and then the book store is that of `WithCopyDeleted`; nothing changes otherwise |
| Librarian.LibrarianFrame.constructor | src/main/java/org/lms/view/librarian/LibrarianFrame.java:41-95 | empty search text and the table shows the store |
| Librarian.LibrarianFrame.UpdateTable | src/main/java/org/lms/view/librarian/LibrarianFrame.java:101-159 | the rows are rebuilt for the trimmed search text |
| Librarian.LibrarianFrame.OnBorrowButtonClicked | src/main/java/org/lms/view/librarian/LibrarianFrame.java:201-312 | outcome and stores are those of `BorrowFlow` for the row's ISBN and copy id; the table is rebuilt after a success |
| Librarian.LibrarianFrame.OnReturnButtonClicked | src/main/java/org/lms/view/librarian/LibrarianFrame.java:320-363 | outcome and stores are those of `ReturnFlow` for the row; the table is rebuilt when the borrower was found |
| Librarian.LibrarianFrame.OnDeleteButtonClicked | src/main/java/org/lms/view/librarian/LibrarianFrame.java:370-397 | outcome and stores are those of `DeleteFlow` for the row; the table is rebuilt whenever the delete was attempted |
| Consistency.TotalUpdate | src/main/java/org/lms/user/VisitorDatabase.java:140-178 | replacing one visitor changes the total of open records for a copy by the difference |
| Consistency.TotalRemove | src/main/java/org/lms/user/VisitorDatabase.java:91-100 | removing a visitor removes its open records from the total |
| Consistency.TotalAppend | src/main/java/org/lms/user/VisitorDatabase.java:46-51 | registering a visitor adds its open records to the total for each copy |
| Consistency.MemberAtMostTotal | src/main/java/org/lms/user/VisitorDatabase.java:140-178 | one visitor holds no more open records for a copy than all visitors |
| Consistency.MembersAtMostTotal | src/main/java/org/lms/user/VisitorDatabase.java:140-178 | two different visitors together hold no more than all visitors |
| Consistency.SameIdsSameIndex | src/main/java/org/lms/user/VisitorDatabase.java:108-115 | lists with the same ids in the same places find every id at the same place |
| Consistency.EmptyConsistent | src/main/java/org/lms/book/BookDatabase.java:22-25 | two empty stores are consistent |
| Consistency.OpenRecordIsLoan | src/main/java/org/lms/view/librarian/LibrarianFrame.java:281-301 | in consistent stores an open record is for a copy on loan to the visitor who holds the record |
| Consistency.NotOnLoanNoRecords | src/main/java/org/lms/view/librarian/LibrarianFrame.java:281-301 | a copy not on loan has no open record anywhere |
| Consistency.BorrowSucceedsIff | src/main/java/org/lms/view/librarian/LibrarianFrame.java:201-312 | in consistent stores a borrow succeeds iff the copy exists and is AVAILABLE and the visitor exists with fewer than 10 open borrows |
| Consistency.BorrowKeepsConsistent | src/main/java/org/lms/view/librarian/LibrarianFrame.java:201-312 | the borrow button keeps the stores consistent |
| Consistency.ReturnKeepsConsistent | src/main/java/org/lms/view/librarian/LibrarianFrame.java:320-363 | the return button keeps the stores consistent, never misses the borrower, and returns exactly the copies on loan |
| Consistency.DeleteKeepsConsistent | src/main/java/org/lms/view/librarian/LibrarianFrame.java:370-397 | the delete button keeps the stores consistent |
| Consistency.AddBookKeepsConsistent | src/main/java/org/lms/book/BookDatabase.java:46-84 | adding a title with distinct AVAILABLE copies keeps the stores consistent |
| Consistency.EditBookKeepsConsistent | src/main/java/org/lms/book/BookDatabase.java:93-104 | editing a title keeps the stores consistent |
| Consistency.AddVisitorKeepsConsistent | src/main/java/org/lms/user/VisitorDatabase.java:46-51 | registering a visitor with no open borrow keeps the stores consistent |
| Consistency.EditVisitorKeepsConsistent | src/main/java/org/lms/user/VisitorDatabase.java:74-83 | a profile edit that keeps the borrow records keeps the stores consistent |
| Consistency.DeleteVisitorKeepsConsistent | src/main/java/org/lms/view/visitor/VisitorFrame.java:133-143 | deleting a visitor with no open borrow (the account screen refuses otherwise) keeps the stores consistent |
| Consistency.ReturnAfterBorrow | src/main/java/org/lms/view/librarian/LibrarianFrame.java:320-363 | on the stores a successful borrow leaves, the return button answers RETURNED, makes the copy AVAILABLE again and closes exactly the record the borrow appended |
| Consistency.BorrowThenReturn | src/main/java/org/lms/view/librarian/LibrarianFrame.java:281-352 | borrow then return: the copy is AVAILABLE again, remembering the borrower; the borrower gains one closed record for it; no other copy or visitor changes |

## Left out

- Persistence: `saveToFile` and `loadFromFile` (JSON through Jackson) are file I/O and are not modelled. The stores start empty.
- The `synchronized` singletons `getInstance`: the model uses explicitly constructed stores and has no concurrency.
- Time: `new Date()` is a caller-supplied natural number `now`.
- `split("-")` and `Integer.parseInt`: only digit strings parse, to unbounded naturals. Overflow and a sign are not modelled. Neither is Java's removal of trailing empty pieces: an id ending in `-` reads back as no number here. On an id made only of dashes Java's `split` gives an empty array, so `split[split.length - 1]` throws `ArrayIndexOutOfBoundsException` out of `addBook` (only `NumberFormatException` is caught); the model instead skips that id like one that does not parse. Such an id can only come from a loaded file, since generated ids always end in digits.
- `toLowerCase`: ASCII letters only. Unicode case mapping is not modelled.
- Integers: ids and counts are unbounded, so 32-bit overflow of `int` is not modelled.
- Swing: dialogs, table rendering, the add, edit and back buttons, and the other screens. Their effect is given to the model as parameters:
  - the id typed in the borrow dialog is `visitorId`;
  - the answer to the delete confirmation is `confirmed`;
  - parsing of the typed id, and its error dialog, is not modelled.
- Aliasing: the stores hold values, not shared objects. `getAllBooks` returns a snapshot. The edit panel's in-place `setIsbn` on a stored title is not reproduced, and ISBNs are treated as fixed.
- The table rows keep the (ISBN, copy id) of their copy. A button reads the copy's live status from the store through that pair, as the Java does through the shared `BookCopy` object.
- Librarian.ReturnFlow: when the row's copy is no longer in the store, the model does nothing (COPY_MISSING), whereas the Java would act on the detached object. The table is rebuilt after every deletion, so that state is not reachable from the screen.
- The no-argument `Visitor()` and `BookBase()` constructors (used only for deserialisation), the getters, and the `UserBase` setters are left out. The getters are the fields of the classes.
- The visitor-delete guard (VisitorFrame) is not modelled as code. It appears as the precondition of Consistency.DeleteVisitorKeepsConsistent.
- The quantity check (EditBookPanel) is left out. `addBook` is modelled for any title. Consistency.AddBookKeepsConsistent asks for what the `BookBase` constructor guarantees: distinct ids and AVAILABLE copies.
- `toString` methods are left out.
