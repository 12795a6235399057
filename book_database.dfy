/** The book store: the list of titles, the specification of each of its
    operations as a function of the old list, the class whose methods perform them
    with the loops of the Java `BookDatabase`, and the properties of those functions. */
module BookDb {
  import opened Common
  import opened JavaStrings
  import opened Book

  /** Index of the first title with this ISBN; `|books|` when there is none. */
  function IsbnIndex(books: seq<BookEntry>, isbn: string): (j: nat)
    ensures j <= |books|
    ensures j < |books| ==> books[j].isbn == isbn
    ensures forall m :: 0 <= m < j ==> books[m].isbn != isbn
  {
    if books == [] then 0
    else if books[0].isbn == isbn then 0
    else 1 + IsbnIndex(books[1..], isbn)
  }

  /** The first copy with id `copyId` exists and has status `st`. */
  predicate FirstCopyHasStatus(copies: seq<CopyEntry>, copyId: string, st: BookStatus) {
    var k := CopyIndex(copies, copyId);
    k < |copies| && copies[k].status == st
  }

  /** Index of the first title with this ISBN whose first copy with this id has status
      `st`; `|books|` when there is none. `borrowBook` and `returnBook` search this way:
      they go on to the next title with the same ISBN when the copy is missing or in the
      wrong state. */
  function SlotIndex(books: seq<BookEntry>, isbn: string, copyId: string, st: BookStatus): (j: nat)
    ensures j <= |books|
    ensures j < |books| ==> books[j].isbn == isbn && FirstCopyHasStatus(books[j].copies, copyId, st)
    ensures forall m :: 0 <= m < j ==> !(books[m].isbn == isbn && FirstCopyHasStatus(books[m].copies, copyId, st))
  {
    if books == [] then 0
    else if books[0].isbn == isbn && FirstCopyHasStatus(books[0].copies, copyId, st) then 0
    else 1 + SlotIndex(books[1..], isbn, copyId, st)
  }

  /** The copy an (ISBN, copy id) pair names: in the first title with that ISBN, the
      first copy with that id. */
  function CopyAt(books: seq<BookEntry>, isbn: string, copyId: string): Option<CopyEntry> {
    var j := IsbnIndex(books, isbn);
    if j == |books| then None
    else
      var k := CopyIndex(books[j].copies, copyId);
      if k == |books[j].copies| then None else Some(books[j].copies[k])
  }

  ghost predicate UniqueIsbns(books: seq<BookEntry>) {
    forall a, b :: 0 <= a < b < |books| ==> books[a].isbn != books[b].isbn
  }

  /** No two titles share an ISBN and no title holds two copies with the same id. */
  ghost predicate Catalogued(books: seq<BookEntry>) {
    UniqueIsbns(books) && forall j :: 0 <= j < |books| ==> UniqueCopyIds(books[j].copies)
  }

  /** In a catalogue, the pair (ISBN, copy id) of any stored copy names that copy. */
  lemma CopyAtFinds(books: seq<BookEntry>, j: nat, k: nat)
    requires Catalogued(books)
    requires j < |books| && k < |books[j].copies|
    ensures CopyAt(books, books[j].isbn, books[j].copies[k].copyId) == Some(books[j].copies[k])
  {
    var isbn, copyId := books[j].isbn, books[j].copies[k].copyId;
    assert IsbnIndex(books, isbn) == j;
    assert UniqueCopyIds(books[j].copies);
    assert CopyIndex(books[j].copies, copyId) == k;
  }

  /** Whatever a pair names is stored under that pair. */
  lemma CopyAtStored(books: seq<BookEntry>, isbn: string, copyId: string)
    requires CopyAt(books, isbn, copyId).Some?
    ensures var j := IsbnIndex(books, isbn); var k := CopyIndex(books[j].copies, copyId);
      j < |books| && k < |books[j].copies| && books[j].isbn == isbn &&
      books[j].copies[k].copyId == copyId && CopyAt(books, isbn, copyId) == Some(books[j].copies[k])
  {
  }

  /** Two catalogues with the same ISBNs and copy ids in the same places. */
  ghost predicate SameKeys(a: seq<BookEntry>, b: seq<BookEntry>) {
    |a| == |b| &&
    forall j :: 0 <= j < |a| ==>
      a[j].isbn == b[j].isbn && |a[j].copies| == |b[j].copies| &&
      forall k :: 0 <= k < |a[j].copies| ==> a[j].copies[k].copyId == b[j].copies[k].copyId
  }

  /** Lookups depend on the keys only: catalogues with the same keys find the same places. */
  lemma SameKeysSameIndexes(a: seq<BookEntry>, b: seq<BookEntry>, isbn: string, copyId: string)
    requires SameKeys(a, b)
    ensures IsbnIndex(a, isbn) == IsbnIndex(b, isbn)
    ensures IsbnIndex(a, isbn) < |a| ==>
      CopyIndex(a[IsbnIndex(a, isbn)].copies, copyId) == CopyIndex(b[IsbnIndex(a, isbn)].copies, copyId)
  {
    var ja := IsbnIndex(a, isbn);
    assert ja == IsbnIndex(b, isbn);
    if ja < |a| {
      assert CopyIndex(a[ja].copies, copyId) == CopyIndex(b[ja].copies, copyId);
    }
  }

  /** Catalogues with the same keys are both catalogued or both not. */
  lemma SameKeysCatalogued(a: seq<BookEntry>, b: seq<BookEntry>)
    requires SameKeys(a, b) && Catalogued(a)
    ensures Catalogued(b)
  {
    forall x, y | 0 <= x < y < |b| ensures b[x].isbn != b[y].isbn {
      assert a[x].isbn != a[y].isbn;
    }
    forall j | 0 <= j < |b| ensures UniqueCopyIds(b[j].copies) {
      assert UniqueCopyIds(a[j].copies);
      forall x, y | 0 <= x < y < |b[j].copies| ensures b[j].copies[x].copyId != b[j].copies[y].copyId {
        assert a[j].copies[x].copyId != a[j].copies[y].copyId;
      }
    }
  }

  /** The catalogue with copy `k` of title `j` replaced by `c`. */
  function SetCopy(books: seq<BookEntry>, j: nat, k: nat, c: CopyEntry): seq<BookEntry>
    requires j < |books| && k < |books[j].copies|
  {
    books[j := books[j].(copies := books[j].copies[k := c])]
  }

  /** Replacing one copy by one with the same id changes what one pair names and nothing
      else: the replaced copy's own pair now names the new copy. */
  lemma SetCopyLookups(books: seq<BookEntry>, j: nat, k: nat, c: CopyEntry, isbn: string, copyId: string)
    requires Catalogued(books)
    requires j < |books| && k < |books[j].copies| && c.copyId == books[j].copies[k].copyId
    ensures SameKeys(books, SetCopy(books, j, k, c))
    ensures Catalogued(SetCopy(books, j, k, c))
    ensures CopyAt(SetCopy(books, j, k, c), isbn, copyId) ==
      if isbn == books[j].isbn && copyId == c.copyId then Some(c) else CopyAt(books, isbn, copyId)
  {
    var after := SetCopy(books, j, k, c);
    assert SameKeys(books, after);
    SameKeysSameIndexes(books, after, isbn, copyId);
    SameKeysCatalogued(books, after);
    CopyAtFinds(books, j, k);
    if CopyAt(books, isbn, copyId).Some? {
      CopyAtStored(books, isbn, copyId);
    }
  }

  /** Total number of copies over all titles. */
  function CopyCount(books: seq<BookEntry>): nat {
    if books == [] then 0 else CopyCount(books[..|books| - 1]) + |books[|books| - 1].copies|
  }

  lemma {:induction false} CopyCountUpdate(books: seq<BookEntry>, j: nat, b: BookEntry)
    requires j < |books|
    ensures CopyCount(books[j := b]) == CopyCount(books) - |books[j].copies| + |b.copies|
    decreases |books|
  {
    var last := |books| - 1;
    if j < last {
      assert books[j := b][..last] == books[..last][j := b];
      CopyCountUpdate(books[..last], j, b);
    } else {
      assert books[j := b][..last] == books[..last];
    }
  }

  lemma {:induction false} CopyCountRemove(books: seq<BookEntry>, j: nat)
    requires j < |books|
    ensures CopyCount(Remove(books, j)) == CopyCount(books) - |books[j].copies|
    decreases |books|
  {
    var last := |books| - 1;
    if j < last {
      assert Remove(books, j)[..last - 1] == Remove(books[..last], j);
      CopyCountRemove(books[..last], j);
    } else {
      assert Remove(books, j) == books[..last];
    }
  }

  /** `addBook`: a new ISBN appends the title as given; a known ISBN keeps that title's
      metadata and appends as many fresh copies as the given title holds, numbered after
      the largest number read back from the existing copy ids. */
  function WithBookAdded(books: seq<BookEntry>, book: BookEntry): seq<BookEntry> {
    var j := IsbnIndex(books, book.isbn);
    if j == |books| then books + [book]
    else
      var old_ := books[j];
      books[j := old_.(copies := old_.copies + NewCopies(old_.isbn, MaxSuffix(old_.copies), |book.copies|))]
  }

  /** `editBook`: the first title with the edited ISBN takes the edited title, author,
      type and section. */
  function WithBookEdited(books: seq<BookEntry>, edited: BookEntry): (r: Step<seq<BookEntry>>)
    ensures r.ok <==> exists j :: 0 <= j < |books| && books[j].isbn == edited.isbn
    ensures !r.ok ==> r.state == books
    ensures |r.state| == |books|
    ensures forall j :: 0 <= j < |books| ==>
      r.state[j].isbn == books[j].isbn && r.state[j].copies == books[j].copies
    ensures r.ok ==> var j := IsbnIndex(books, edited.isbn);
      r.state[j].title == edited.title && r.state[j].author == edited.author &&
      r.state[j].bookType == edited.bookType && r.state[j].section == edited.section &&
      forall m :: 0 <= m < |books| && m != j ==> r.state[m] == books[m]
  {
    var j := IsbnIndex(books, edited.isbn);
    if j == |books| then Step(false, books)
    else
      Step(true, books[j := books[j].(author := edited.author, title := edited.title,
                                      bookType := edited.bookType, section := edited.section)])
  }

  /** `deleteBook`: remove the first copy with that id from the first title with that
      ISBN, and the title with it when no copy is left. */
  function WithCopyDeleted(books: seq<BookEntry>, isbn: string, copyId: string): (r: Step<seq<BookEntry>>)
    ensures r.ok <==> CopyAt(books, isbn, copyId).Some?
    ensures !r.ok ==> r.state == books
    ensures r.ok ==> CopyCount(r.state) == CopyCount(books) - 1
    ensures r.ok ==>
      (|r.state| == |books| - 1 <==> |books[IsbnIndex(books, isbn)].copies| == 1) &&
      (|r.state| == |books| <==> |books[IsbnIndex(books, isbn)].copies| > 1)
    ensures r.ok ==> var j := IsbnIndex(books, isbn);
      (forall m :: 0 <= m < j ==> r.state[m] == books[m]) &&
      (|books[j].copies| > 1 ==>
         r.state[j] == books[j].(copies := Remove(books[j].copies, CopyIndex(books[j].copies, copyId))) &&
         forall m :: j < m < |books| ==> r.state[m] == books[m]) &&
      (|books[j].copies| == 1 ==> forall m :: j < m < |books| ==> r.state[m - 1] == books[m])
  {
    var j := IsbnIndex(books, isbn);
    if j == |books| then Step(false, books)
    else
      var k := CopyIndex(books[j].copies, copyId);
      if k == |books[j].copies| then Step(false, books)
      else
        var rest := Remove(books[j].copies, k);
        if rest == [] then
          CopyCountRemove(books, j);
          Step(true, Remove(books, j))
        else
          CopyCountUpdate(books, j, books[j].(copies := rest));
          Step(true, books[j := books[j].(copies := rest)])
  }

  /** `borrowBook`: the copy found becomes UNAVAILABLE and records the borrower. */
  function WithCopyBorrowed(books: seq<BookEntry>, isbn: string, copyId: string, visitorId: int): (r: Step<seq<BookEntry>>)
    ensures r.ok <==> exists j :: (0 <= j < |books| && books[j].isbn == isbn &&
                                   FirstCopyHasStatus(books[j].copies, copyId, AVAILABLE))
    ensures !r.ok ==> r.state == books
    ensures |r.state| == |books|
    ensures forall m :: 0 <= m < |books| ==> r.state[m] == books[m].(copies := r.state[m].copies)
  {
    var j := SlotIndex(books, isbn, copyId, AVAILABLE);
    if j == |books| then Step(false, books)
    else
      var k := CopyIndex(books[j].copies, copyId);
      Step(true, SetCopy(books, j, k, books[j].copies[k].(status := UNAVAILABLE, borrowVisitorId := visitorId)))
  }

  /** `returnBook`: the copy found becomes AVAILABLE; its `borrowVisitorId` stays. */
  function WithCopyReturned(books: seq<BookEntry>, isbn: string, copyId: string): (r: Step<seq<BookEntry>>)
    ensures r.ok <==> exists j :: (0 <= j < |books| && books[j].isbn == isbn &&
                                   FirstCopyHasStatus(books[j].copies, copyId, UNAVAILABLE))
    ensures !r.ok ==> r.state == books
    ensures |r.state| == |books|
    ensures forall m :: 0 <= m < |books| ==> r.state[m] == books[m].(copies := r.state[m].copies)
  {
    var j := SlotIndex(books, isbn, copyId, UNAVAILABLE);
    if j == |books| then Step(false, books)
    else
      var k := CopyIndex(books[j].copies, copyId);
      Step(true, SetCopy(books, j, k, books[j].copies[k].(status := AVAILABLE)))
  }

  /** Copy `e` is stored in some title with this ISBN. */
  ghost predicate Holds(books: seq<BookEntry>, isbn: string, e: CopyEntry) {
    exists j, k :: 0 <= j < |books| && 0 <= k < |books[j].copies| &&
      books[j].isbn == isbn && books[j].copies[k] == e
  }

  /** In a catalogue, a pair names a copy exactly when that copy is stored under the ISBN. */
  lemma CopyAtIffHolds(books: seq<BookEntry>, isbn: string, e: CopyEntry)
    requires Catalogued(books)
    ensures CopyAt(books, isbn, e.copyId) == Some(e) <==> Holds(books, isbn, e)
  {
    if Holds(books, isbn, e) {
      var j, k :| 0 <= j < |books| && 0 <= k < |books[j].copies| &&
        books[j].isbn == isbn && books[j].copies[k] == e;
      CopyAtFinds(books, j, k);
    }
    if CopyAt(books, isbn, e.copyId) == Some(e) {
      CopyAtStored(books, isbn, e.copyId);
    }
  }

  /** Borrowing under a pair succeeds exactly when the copy it names is AVAILABLE; that
      copy becomes UNAVAILABLE and records the borrower, and no other pair changes. */
  lemma BorrowedCopy(books: seq<BookEntry>, isbn: string, copyId: string, visitorId: int)
    requires Catalogued(books)
    ensures var r := WithCopyBorrowed(books, isbn, copyId, visitorId);
      var before := CopyAt(books, isbn, copyId);
      (r.ok <==> before.Some? && before.value.status == AVAILABLE) &&
      Catalogued(r.state) &&
      (r.ok ==> forall i, c :: (CopyAt(r.state, i, c) ==
                                if i == isbn && c == copyId then Some(before.value.(status := UNAVAILABLE, borrowVisitorId := visitorId))
                                else CopyAt(books, i, c)))
  {
    var j := SlotIndex(books, isbn, copyId, AVAILABLE);
    var j0 := IsbnIndex(books, isbn);
    var before := CopyAt(books, isbn, copyId);
    if before.Some? && before.value.status == AVAILABLE {
      assert FirstCopyHasStatus(books[j0].copies, copyId, AVAILABLE);
    }
    if j < |books| {
      assert j0 == j;
      var k := CopyIndex(books[j].copies, copyId);
      var c := books[j].copies[k].(status := UNAVAILABLE, borrowVisitorId := visitorId);
      var after := SetCopy(books, j, k, c);
      SetCopyLookups(books, j, k, c, isbn, copyId);
      forall i, id ensures CopyAt(after, i, id) ==
        if i == isbn && id == copyId then Some(c) else CopyAt(books, i, id)
      {
        SetCopyLookups(books, j, k, c, i, id);
      }
    }
  }

  /** Returning under a pair succeeds exactly when the copy it names is UNAVAILABLE; that
      copy becomes AVAILABLE, keeps its last borrower, and no other pair changes. */
  lemma ReturnedCopy(books: seq<BookEntry>, isbn: string, copyId: string)
    requires Catalogued(books)
    ensures var r := WithCopyReturned(books, isbn, copyId);
      var before := CopyAt(books, isbn, copyId);
      (r.ok <==> before.Some? && before.value.status == UNAVAILABLE) &&
      Catalogued(r.state) &&
      (r.ok ==> forall i, c :: (CopyAt(r.state, i, c) ==
                                if i == isbn && c == copyId then Some(before.value.(status := AVAILABLE))
                                else CopyAt(books, i, c)))
  {
    var j := SlotIndex(books, isbn, copyId, UNAVAILABLE);
    var j0 := IsbnIndex(books, isbn);
    var before := CopyAt(books, isbn, copyId);
    if before.Some? && before.value.status == UNAVAILABLE {
      assert FirstCopyHasStatus(books[j0].copies, copyId, UNAVAILABLE);
    }
    if j < |books| {
      assert j0 == j;
      var k := CopyIndex(books[j].copies, copyId);
      var c := books[j].copies[k].(status := AVAILABLE);
      var after := SetCopy(books, j, k, c);
      SetCopyLookups(books, j, k, c, isbn, copyId);
      forall i, id ensures CopyAt(after, i, id) ==
        if i == isbn && id == copyId then Some(c) else CopyAt(books, i, id)
      {
        SetCopyLookups(books, j, k, c, i, id);
      }
    }
  }

  /** A copy just borrowed cannot be borrowed again, and a copy just returned cannot be
      returned again. */
  lemma NoDoubleBorrowOrReturn(books: seq<BookEntry>, isbn: string, copyId: string, visitorId: int)
    requires Catalogued(books)
    ensures var r := WithCopyBorrowed(books, isbn, copyId, visitorId);
      r.ok ==> !WithCopyBorrowed(r.state, isbn, copyId, visitorId).ok
    ensures var r := WithCopyReturned(books, isbn, copyId);
      r.ok ==> !WithCopyReturned(r.state, isbn, copyId).ok
  {
    var r := WithCopyBorrowed(books, isbn, copyId, visitorId);
    BorrowedCopy(books, isbn, copyId, visitorId);
    if r.ok {
      BorrowedCopy(r.state, isbn, copyId, visitorId);
    }
    var q := WithCopyReturned(books, isbn, copyId);
    ReturnedCopy(books, isbn, copyId);
    if q.ok {
      ReturnedCopy(q.state, isbn, copyId);
    }
  }

  /** Editing a title changes no pair's copy. */
  lemma EditedBookKeepsCopies(books: seq<BookEntry>, edited: BookEntry)
    requires Catalogued(books)
    ensures var r := WithBookEdited(books, edited);
      Catalogued(r.state) && forall i, c :: CopyAt(r.state, i, c) == CopyAt(books, i, c)
  {
    var after := WithBookEdited(books, edited).state;
    assert SameKeys(books, after);
    SameKeysCatalogued(books, after);
    forall i, c ensures CopyAt(after, i, c) == CopyAt(books, i, c) {
      SameKeysSameIndexes(books, after, i, c);
    }
  }

  /** Removing a title that holds one copy keeps the ISBNs and the copy ids distinct. */
  lemma RemovedTitleCatalogued(books: seq<BookEntry>, j: nat)
    requires Catalogued(books) && j < |books|
    ensures Catalogued(Remove(books, j))
  {
    var after := Remove(books, j);
    forall x, y | 0 <= x < y < |after| ensures after[x].isbn != after[y].isbn {
      var x', y' := if x < j then x else x + 1, if y < j then y else y + 1;
      assert after[x] == books[x'] && after[y] == books[y'];
    }
    forall x | 0 <= x < |after| ensures UniqueCopyIds(after[x].copies) {
      var x' := if x < j then x else x + 1;
      assert after[x] == books[x'];
    }
  }

  /** A copy stored at a position is held under its title's ISBN. */
  lemma HeldAt(books: seq<BookEntry>, x: nat, y: nat)
    requires x < |books| && y < |books[x].copies|
    ensures Holds(books, books[x].isbn, books[x].copies[y])
  {
  }

  /** What is held after removing a title was held before, and is not its copy. */
  lemma RemovedTitleKept(books: seq<BookEntry>, j: nat, i: string, e: CopyEntry)
    requires Catalogued(books) && j < |books| && |books[j].copies| == 1
    requires Holds(Remove(books, j), i, e)
    ensures Holds(books, i, e) && i != books[j].isbn
  {
    var after := Remove(books, j);
    var x, y :| 0 <= x < |after| && 0 <= y < |after[x].copies| &&
      after[x].isbn == i && after[x].copies[y] == e;
    var x' := if x < j then x else x + 1;
    assert after[x] == books[x'];
    assert books[x'].isbn != books[j].isbn;
    HeldAt(books, x', y);
  }

  /** Every copy held under another pair is still held after removing a title. */
  lemma RemovedTitleKeeps(books: seq<BookEntry>, j: nat, i: string, e: CopyEntry)
    requires j < |books| && |books[j].copies| == 1
    requires Holds(books, i, e) && !(i == books[j].isbn && e.copyId == books[j].copies[0].copyId)
    ensures Holds(Remove(books, j), i, e)
  {
    var after := Remove(books, j);
    var x, y :| 0 <= x < |books| && 0 <= y < |books[x].copies| &&
      books[x].isbn == i && books[x].copies[y] == e;
    assert x != j;
    var x' := if x < j then x else x - 1;
    assert after[x'] == books[x];
    HeldAt(after, x', y);
  }

  /** Removing a title that holds one copy removes exactly that copy from what is stored. */
  lemma RemovedTitleHolds(books: seq<BookEntry>, j: nat, i: string, e: CopyEntry)
    requires Catalogued(books) && j < |books| && |books[j].copies| == 1
    ensures Holds(Remove(books, j), i, e) <==>
      Holds(books, i, e) && !(i == books[j].isbn && e.copyId == books[j].copies[0].copyId)
  {
    if Holds(Remove(books, j), i, e) {
      RemovedTitleKept(books, j, i, e);
    }
    if Holds(books, i, e) && !(i == books[j].isbn && e.copyId == books[j].copies[0].copyId) {
      RemovedTitleKeeps(books, j, i, e);
    }
  }

  /** Removing one copy of a title keeps the ISBNs and the copy ids distinct. */
  lemma RemovedCopyCatalogued(books: seq<BookEntry>, j: nat, k: nat)
    requires Catalogued(books) && j < |books| && k < |books[j].copies|
    ensures Catalogued(books[j := books[j].(copies := Remove(books[j].copies, k))])
  {
    var cs := books[j].copies;
    var rest := Remove(cs, k);
    assert UniqueCopyIds(cs);
    forall x, y | 0 <= x < y < |rest| ensures rest[x].copyId != rest[y].copyId {
      var x', y' := if x < k then x else x + 1, if y < k then y else y + 1;
      assert rest[x] == cs[x'] && rest[y] == cs[y'];
    }
  }

  /** What is held after removing one copy of a title was held before, and is not that copy. */
  lemma RemovedCopyKept(books: seq<BookEntry>, j: nat, k: nat, i: string, e: CopyEntry)
    requires Catalogued(books) && j < |books| && k < |books[j].copies|
    requires Holds(books[j := books[j].(copies := Remove(books[j].copies, k))], i, e)
    ensures Holds(books, i, e) && !(i == books[j].isbn && e.copyId == books[j].copies[k].copyId)
  {
    var cs := books[j].copies;
    var after := books[j := books[j].(copies := Remove(cs, k))];
    var x, y :| 0 <= x < |after| && 0 <= y < |after[x].copies| &&
      after[x].isbn == i && after[x].copies[y] == e;
    if x == j {
      var y' := if y < k then y else y + 1;
      assert e == cs[y'];
      assert UniqueCopyIds(cs);
      HeldAt(books, j, y');
    } else {
      assert after[x] == books[x];
      assert books[x].isbn != books[j].isbn;
      HeldAt(books, x, y);
    }
  }

  /** Every copy held under another pair is still held after removing one copy of a title. */
  lemma RemovedCopyKeeps(books: seq<BookEntry>, j: nat, k: nat, i: string, e: CopyEntry)
    requires j < |books| && k < |books[j].copies|
    requires Holds(books, i, e) && !(i == books[j].isbn && e.copyId == books[j].copies[k].copyId)
    ensures Holds(books[j := books[j].(copies := Remove(books[j].copies, k))], i, e)
  {
    var cs := books[j].copies;
    var after := books[j := books[j].(copies := Remove(cs, k))];
    var x, y :| 0 <= x < |books| && 0 <= y < |books[x].copies| &&
      books[x].isbn == i && books[x].copies[y] == e;
    if x == j {
      var y' := if y < k then y else y - 1;
      assert after[j].copies[y'] == e;
      HeldAt(after, j, y');
    } else {
      assert after[x] == books[x];
      HeldAt(after, x, y);
    }
  }

  /** Removing one copy of a title removes exactly that copy from what is stored. */
  lemma RemovedCopyHolds(books: seq<BookEntry>, j: nat, k: nat, i: string, e: CopyEntry)
    requires Catalogued(books) && j < |books| && k < |books[j].copies|
    ensures Holds(books[j := books[j].(copies := Remove(books[j].copies, k))], i, e) <==>
      Holds(books, i, e) && !(i == books[j].isbn && e.copyId == books[j].copies[k].copyId)
  {
    if Holds(books[j := books[j].(copies := Remove(books[j].copies, k))], i, e) {
      RemovedCopyKept(books, j, k, i, e);
    }
    if Holds(books, i, e) && !(i == books[j].isbn && e.copyId == books[j].copies[k].copyId) {
      RemovedCopyKeeps(books, j, k, i, e);
    }
  }

  /** Deleting under a pair removes the copy it names and changes no other pair. */
  lemma DeletedCopy(books: seq<BookEntry>, isbn: string, copyId: string)
    requires Catalogued(books)
    ensures var r := WithCopyDeleted(books, isbn, copyId);
      Catalogued(r.state) &&
      (r.ok ==> forall i, c :: (CopyAt(r.state, i, c) ==
                                if i == isbn && c == copyId then None else CopyAt(books, i, c)))
  {
    var r := WithCopyDeleted(books, isbn, copyId);
    if r.ok {
      CopyAtStored(books, isbn, copyId);
      var j := IsbnIndex(books, isbn);
      var k := CopyIndex(books[j].copies, copyId);
      var single := |books[j].copies| == 1;
      if single {
        assert r.state == Remove(books, j);
        RemovedTitleCatalogued(books, j);
      } else {
        assert r.state == books[j := books[j].(copies := Remove(books[j].copies, k))];
        RemovedCopyCatalogued(books, j, k);
      }
      forall i, c ensures CopyAt(r.state, i, c) == if i == isbn && c == copyId then None else CopyAt(books, i, c) {
        forall e ensures Holds(r.state, i, e) <==> Holds(books, i, e) && !(i == isbn && e.copyId == copyId) {
          if single {
            RemovedTitleHolds(books, j, i, e);
          } else {
            RemovedCopyHolds(books, j, k, i, e);
          }
        }
        if CopyAt(r.state, i, c).Some? {
          var e := CopyAt(r.state, i, c).value;
          CopyAtStored(r.state, i, c);
          CopyAtIffHolds(r.state, i, e);
          CopyAtIffHolds(books, i, e);
        }
        if CopyAt(books, i, c).Some? && !(i == isbn && c == copyId) {
          var e := CopyAt(books, i, c).value;
          CopyAtStored(books, i, c);
          CopyAtIffHolds(books, i, e);
          CopyAtIffHolds(r.state, i, e);
        }
      }
    }
  }

  /** What `addBook` does to the list: a new ISBN appends the title, a known one extends
      the first title with that ISBN and leaves the rest alone. */
  lemma AddedBookShape(books: seq<BookEntry>, book: BookEntry)
    ensures var j := IsbnIndex(books, book.isbn);
      (j == |books| ==> WithBookAdded(books, book) == books + [book]) &&
      (j < |books| ==> (WithBookAdded(books, book) ==
        books[j := books[j].(copies := books[j].copies + NewCopies(book.isbn, MaxSuffix(books[j].copies), |book.copies|))]))
  {
  }

  /** The copies of the title `addBook` extends. */
  lemma ExtendedTitleCopies(books: seq<BookEntry>, book: BookEntry)
    requires IsbnIndex(books, book.isbn) < |books|
    ensures var j := IsbnIndex(books, book.isbn);
      WithBookAdded(books, book)[j].copies ==
        books[j].copies + NewCopies(book.isbn, MaxSuffix(books[j].copies), |book.copies|)
  {
  }

  /** A title with an unknown ISBN and distinct, AVAILABLE copies, appended: every pair
      that named a copy still names it and the new pairs name AVAILABLE copies. */
  lemma AppendedTitle(books: seq<BookEntry>, book: BookEntry)
    requires Catalogued(books) && UniqueCopyIds(book.copies) && AllAvailable(book.copies)
    requires IsbnIndex(books, book.isbn) == |books|
    ensures var after := books + [book];
      Catalogued(after) &&
      CopyCount(after) == CopyCount(books) + |book.copies| &&
      (forall i, c :: CopyAt(books, i, c).Some? ==> CopyAt(after, i, c) == CopyAt(books, i, c)) &&
      (forall i, c :: CopyAt(after, i, c).Some? && CopyAt(books, i, c).None? ==>
        CopyAt(after, i, c).value.status == AVAILABLE)
  {
    var after := books + [book];
    assert after[..|after| - 1] == books;
    forall i, c ensures (CopyAt(books, i, c).Some? ==> CopyAt(after, i, c) == CopyAt(books, i, c)) &&
      (CopyAt(after, i, c).Some? && CopyAt(books, i, c).None? ==> CopyAt(after, i, c).value.status == AVAILABLE)
    {
      var ja := IsbnIndex(after, i);
      if ja < |books| {
        assert after[ja] == books[ja];
        assert IsbnIndex(books, i) == ja;
      } else if ja == |books| {
        assert after[ja] == book;
        assert IsbnIndex(books, i) == |books|;
      }
    }
  }

  /** Distinct, AVAILABLE copies appended to title `j`: every pair that named a copy
      still names it and the new pairs name AVAILABLE copies. */
  lemma AppendedCopies(books: seq<BookEntry>, j: nat, ns: seq<CopyEntry>)
    requires Catalogued(books) && j < |books|
    requires UniqueCopyIds(books[j].copies + ns) && AllAvailable(ns)
    ensures var after := books[j := books[j].(copies := books[j].copies + ns)];
      Catalogued(after) &&
      CopyCount(after) == CopyCount(books) + |ns| &&
      (forall i, c :: CopyAt(books, i, c).Some? ==> CopyAt(after, i, c) == CopyAt(books, i, c)) &&
      (forall i, c :: CopyAt(after, i, c).Some? && CopyAt(books, i, c).None? ==>
        CopyAt(after, i, c).value.status == AVAILABLE)
  {
    var cs := books[j].copies;
    var after := books[j := books[j].(copies := cs + ns)];
    CopyCountUpdate(books, j, books[j].(copies := cs + ns));
    forall i, c ensures (CopyAt(books, i, c).Some? ==> CopyAt(after, i, c) == CopyAt(books, i, c)) &&
      (CopyAt(after, i, c).Some? && CopyAt(books, i, c).None? ==> CopyAt(after, i, c).value.status == AVAILABLE)
    {
      var ji := IsbnIndex(books, i);
      var ja := IsbnIndex(after, i);
      assert ji < |books| ==> after[ji].isbn == i;
      assert ja < |after| ==> books[ja].isbn == i;
      assert ja == ji;
      if ji == j {
        var kc := CopyIndex(cs, c);
        var k2 := CopyIndex(cs + ns, c);
        if kc < |cs| {
          assert (cs + ns)[kc] == cs[kc];
          assert k2 == kc;
        } else if k2 < |cs + ns| {
          assert k2 >= |cs| by {
            forall m | 0 <= m < |cs| ensures (cs + ns)[m].copyId != c {
              assert (cs + ns)[m] == cs[m];
            }
          }
          assert (cs + ns)[k2] == ns[k2 - |cs|];
        }
      }
    }
  }

  /** `addBook` with distinct, AVAILABLE copies (what the constructor builds) keeps a
      catalogue a catalogue, adds exactly the given number of copies, leaves every pair
      that named a copy naming the same copy, and the pairs it adds name AVAILABLE copies. */
  lemma AddedBook(books: seq<BookEntry>, book: BookEntry)
    requires Catalogued(books) && UniqueCopyIds(book.copies) && AllAvailable(book.copies)
    ensures var after := WithBookAdded(books, book);
      Catalogued(after) &&
      CopyCount(after) == CopyCount(books) + |book.copies| &&
      (forall i, c :: CopyAt(books, i, c).Some? ==> CopyAt(after, i, c) == CopyAt(books, i, c)) &&
      (forall i, c :: CopyAt(after, i, c).Some? && CopyAt(books, i, c).None? ==>
        CopyAt(after, i, c).value.status == AVAILABLE)
  {
    var j := IsbnIndex(books, book.isbn);
    AddedBookShape(books, book);
    if j == |books| {
      AppendedTitle(books, book);
    } else {
      var cs := books[j].copies;
      var ns := NewCopies(book.isbn, MaxSuffix(cs), |book.copies|);
      assert UniqueCopyIds(cs);
      AppendedCopiesKeepIdsUnique(cs, book.isbn, |book.copies|);
      NewCopiesFacts(book.isbn, MaxSuffix(cs), |book.copies|);
      AppendedCopies(books, j, ns);
    }
  }

  /** The first loop of `addBook` over the numbers read back from the ids: the largest,
      0 when none; an id whose number did not parse (`None`, where `parseInt` throws and
      the exception is swallowed) is skipped. */
  method MaxOfPresent(ns: seq<Option<nat>>) returns (maxId: nat)
    ensures maxId == MaxPresent(ns)
  {
    maxId := 0;
    var k := 0;
    while k < |ns|
      invariant k <= |ns|
      invariant maxId == MaxPresent(ns[..k])
    {
      var suffix := ns[k];
      MaxPresentStep(ns, k);
      if suffix.Some? && suffix.value > maxId {
        maxId := suffix.value;
      }
      k := k + 1;
    }
    assert ns[..k] == ns;
  }

  /** The first loop of `addBook`: the number of each copy id read back, and the largest
      of them kept, 0 when none parses. */
  method MaxCopyNumber(copies: seq<CopyEntry>) returns (maxId: nat)
    ensures maxId == MaxSuffix(copies)
  {
    maxId := MaxOfPresent(Suffixes(copies));
  }

  /** The second loop of `addBook`: one fresh copy per copy of the added title,
      numbered on from `from`. */
  method AppendNewCopies(copies: seq<CopyEntry>, isbn: string, from: nat, count: nat) returns (r: seq<CopyEntry>)
    ensures r == copies + NewCopies(isbn, from, count)
  {
    r := copies;
    var n := 0;
    while n < count
      invariant n <= count
      invariant r == copies + NewCopies(isbn, from, n)
    {
      var added := NewCopy(CopyId(isbn, from + n + 1));
      assert NewCopies(isbn, from, n + 1) == NewCopies(isbn, from, n) + [added];
      r := r + [added];
      n := n + 1;
    }
  }

  /** The book store. Saving to `BookDatabase.json` after each change is not modelled. */
  class BookDatabase {
    var bookBases: seq<BookEntry>

    /** An empty store (the state when no file has been saved yet). */
    constructor ()
      ensures bookBases == []
    {
      bookBases := [];
    }

    /** The loop of `findBookByIsbn`, giving the index of the title it stops at. */
    method IndexOfIsbn(isbn: string) returns (j: nat)
      ensures j == IsbnIndex(bookBases, isbn)
    {
      j := 0;
      while j < |bookBases|
        invariant j <= |bookBases|
        invariant forall m :: 0 <= m < j ==> bookBases[m].isbn != isbn
      {
        if bookBases[j].isbn == isbn {
          return;
        }
        j := j + 1;
      }
    }

    /** `findBookByIsbn`: the first title with this ISBN, or null. */
    method FindBookByIsbn(isbn: string) returns (r: Option<BookEntry>)
      ensures r.None? <==> forall j :: 0 <= j < |bookBases| ==> bookBases[j].isbn != isbn
      ensures r.Some? ==> (r.value.isbn == isbn &&
        exists j :: 0 <= j < |bookBases| && bookBases[j] == r.value &&
          forall m :: 0 <= m < j ==> bookBases[m].isbn != isbn)
    {
      var j := IndexOfIsbn(isbn);
      if j < |bookBases| {
        r := Some(bookBases[j]);
      } else {
        r := None;
      }
    }

    /** `getAllBooks`: a snapshot of the list. */
    method GetAllBooks() returns (r: seq<BookEntry>)
      ensures r == bookBases
    {
      r := bookBases;
    }

    method AddBook(bookBase: BookBase)
      modifies this
      ensures bookBases == WithBookAdded(old(bookBases), old(bookBase.Value()))
    {
      var book := bookBase.Value();
      var i := IndexOfIsbn(book.isbn);
      if i < |bookBases| {
        var existing := bookBases[i];
        var maxId := MaxCopyNumber(existing.copies);
        var copies := AppendNewCopies(existing.copies, existing.isbn, maxId, |book.copies|);
        bookBases := bookBases[i := existing.(copies := copies)];
      } else {
        bookBases := bookBases + [book];
      }
    }

    method EditBook(editedBookBase: BookBase) returns (ok: bool)
      modifies this
      ensures var r := WithBookEdited(old(bookBases), old(editedBookBase.Value()));
        ok == r.ok && bookBases == r.state
    {
      var edited := editedBookBase.Value();
      var j := IndexOfIsbn(edited.isbn);
      if j < |bookBases| {
        bookBases := bookBases[j := bookBases[j].(author := edited.author)];
        bookBases := bookBases[j := bookBases[j].(title := edited.title)];
        bookBases := bookBases[j := bookBases[j].(bookType := edited.bookType)];
        bookBases := bookBases[j := bookBases[j].(section := edited.section)];
        return true;
      }
      return false;
    }

    method DeleteBook(isbn: string, copyId: string) returns (ok: bool)
      modifies this
      ensures var r := WithCopyDeleted(old(bookBases), isbn, copyId);
        ok == r.ok && bookBases == r.state
    {
      var j := IndexOfIsbn(isbn);
      if j < |bookBases| {
        var copies := bookBases[j].copies;
        var k := 0;
        while k < |copies|
          invariant k <= |copies|
          invariant forall m :: 0 <= m < k ==> copies[m].copyId != copyId
        {
          if copies[k].copyId == copyId {
            copies := Remove(copies, k);
            if copies == [] {
              bookBases := Remove(bookBases, j);
            } else {
              bookBases := bookBases[j := bookBases[j].(copies := copies)];
            }
            return true;
          }
          k := k + 1;
        }
      }
      return false;
    }

    method BorrowBook(isbn: string, copyId: string, visitorId: int) returns (ok: bool)
      modifies this
      ensures var r := WithCopyBorrowed(old(bookBases), isbn, copyId, visitorId);
        ok == r.ok && bookBases == r.state
    {
      var i := 0;
      while i < |bookBases|
        invariant i <= |bookBases|
        invariant bookBases == old(bookBases)
        invariant forall m :: 0 <= m < i ==>
          !(bookBases[m].isbn == isbn && FirstCopyHasStatus(bookBases[m].copies, copyId, AVAILABLE))
      {
        if bookBases[i].isbn == isbn {
          var copies := bookBases[i].copies;
          var k := 0;
          while k < |copies|
            invariant k <= |copies|
            invariant forall m :: 0 <= m < k ==> copies[m].copyId != copyId
          {
            if copies[k].copyId == copyId {
              if copies[k].status == AVAILABLE {
                bookBases := SetCopy(bookBases, i, k, copies[k].(status := UNAVAILABLE, borrowVisitorId := visitorId));
                return true;
              }
              break;
            }
            k := k + 1;
          }
        }
        i := i + 1;
      }
      return false;
    }

    method ReturnBook(isbn: string, copyId: string) returns (ok: bool)
      modifies this
      ensures var r := WithCopyReturned(old(bookBases), isbn, copyId);
        ok == r.ok && bookBases == r.state
    {
      var i := 0;
      while i < |bookBases|
        invariant i <= |bookBases|
        invariant bookBases == old(bookBases)
        invariant forall m :: 0 <= m < i ==>
          !(bookBases[m].isbn == isbn && FirstCopyHasStatus(bookBases[m].copies, copyId, UNAVAILABLE))
      {
        if bookBases[i].isbn == isbn {
          var copies := bookBases[i].copies;
          var k := 0;
          while k < |copies|
            invariant k <= |copies|
            invariant forall m :: 0 <= m < k ==> copies[m].copyId != copyId
          {
            if copies[k].copyId == copyId {
              if copies[k].status == UNAVAILABLE {
                bookBases := SetCopy(bookBases, i, k, copies[k].(status := AVAILABLE));
                return true;
              }
              break;
            }
            k := k + 1;
          }
        }
        i := i + 1;
      }
      return false;
    }
  }
}
