/** The book package: the enumerations, the state of a copy (`BookCopy`) and of a
    title (`BookBase`) as values, the two classes with their setters, and the rules
    by which copy ids are made and read back. */
module Book {
  import opened Common
  import opened JavaStrings

  datatype BookType = TECHNOLOGY | SCIENCE | LITERATURE | HISTORY | ART | FICTION

  datatype Section = S1 | S2 | S3

  datatype BookStatus = AVAILABLE | UNAVAILABLE

  /** The fields of one `BookCopy`. `borrowVisitorId` is meaningful only while the copy
      is UNAVAILABLE, and is kept after a return. */
  datatype CopyEntry = CopyEntry(copyId: string, status: BookStatus, borrowVisitorId: int)

  /** The fields of one `BookBase`: the title's metadata and its copies, in order. */
  datatype BookEntry = BookEntry(
    title: string,
    author: string,
    isbn: string,
    bookType: BookType,
    section: Section,
    copies: seq<CopyEntry>)

  /** A copy as `new BookCopy(copyId)` makes it: AVAILABLE, and with the int default 0
      in `borrowVisitorId` ("0 if the book is not borrowed"). */
  function NewCopy(copyId: string): CopyEntry {
    CopyEntry(copyId, AVAILABLE, 0)
  }

  /** `isbn + "-" + n`. */
  function CopyId(isbn: string, n: nat): string {
    isbn + "-" + NatToString(n)
  }

  /** The number `addBook` reads back from a copy id: the last piece of `split("-")`
      parsed as an integer, None where parsing throws. */
  function Suffix(copyId: string): Option<nat> {
    ParseNat(LastSegment(copyId))
  }

  /** Reading back the number of a generated copy id gives that number, whatever the
      ISBN holds (dashes included). */
  lemma SuffixOfCopyId(isbn: string, n: nat)
    ensures Suffix(CopyId(isbn, n)) == Some(n)
  {
    DigitsHoldNoDash(NatToString(n));
    LastSegmentAfterDash(isbn, NatToString(n));
    ParseNatToString(n);
  }

  /** Different numbers give different copy ids. */
  lemma CopyIdInjective(isbn: string, n: nat, m: nat)
    requires n != m
    ensures CopyId(isbn, n) != CopyId(isbn, m)
  {
    SuffixOfCopyId(isbn, n);
    SuffixOfCopyId(isbn, m);
  }

  /** The copies numbered `from + 1` to `from + count`, all AVAILABLE, in order. */
  function NewCopies(isbn: string, from: nat, count: nat): (r: seq<CopyEntry>)
    ensures |r| == count
  {
    if count == 0 then [] else NewCopies(isbn, from, count - 1) + [NewCopy(CopyId(isbn, from + count))]
  }

  /** Copy `k` of `NewCopies(isbn, from, count)` is the fresh copy numbered `from + k + 1`. */
  lemma {:induction false} NewCopiesAt(isbn: string, from: nat, count: nat, k: nat)
    requires k < count
    ensures NewCopies(isbn, from, count)[k] == NewCopy(CopyId(isbn, from + k + 1))
    decreases count
  {
    if k < count - 1 {
      NewCopiesAt(isbn, from, count - 1, k);
    }
  }

  /** Numbering `count` copies after `from` and then `more` after `from + count` is the
      same as numbering `count + more` copies after `from`. */
  lemma {:induction false} NewCopiesSplit(isbn: string, from: nat, count: nat, more: nat)
    ensures NewCopies(isbn, from, count) + NewCopies(isbn, from + count, more) == NewCopies(isbn, from, count + more)
    decreases more
  {
    if more > 0 {
      NewCopiesSplit(isbn, from, count, more - 1);
    }
  }

  ghost predicate UniqueCopyIds(copies: seq<CopyEntry>) {
    forall a, b :: 0 <= a < b < |copies| ==> copies[a].copyId != copies[b].copyId
  }

  ghost predicate AllAvailable(copies: seq<CopyEntry>) {
    forall k :: 0 <= k < |copies| ==> copies[k].status == AVAILABLE
  }

  /** Each freshly numbered copy reads back as its own number. */
  lemma NewCopiesSuffixes(isbn: string, from: nat, count: nat)
    ensures forall k :: 0 <= k < count ==>
      Suffix(NewCopies(isbn, from, count)[k].copyId) == Some(from + k + 1)
  {
    forall k | 0 <= k < count
      ensures Suffix(NewCopies(isbn, from, count)[k].copyId) == Some(from + k + 1)
    {
      NewCopiesAt(isbn, from, count, k);
      SuffixOfCopyId(isbn, from + k + 1);
    }
  }

  /** Freshly numbered copies are all AVAILABLE and have pairwise different ids. */
  lemma NewCopiesFacts(isbn: string, from: nat, count: nat)
    ensures AllAvailable(NewCopies(isbn, from, count))
    ensures UniqueCopyIds(NewCopies(isbn, from, count))
  {
    var cs := NewCopies(isbn, from, count);
    forall k | 0 <= k < count
      ensures cs[k].status == AVAILABLE
    {
      NewCopiesAt(isbn, from, count, k);
    }
    NewCopiesSuffixes(isbn, from, count);
    forall a, b | 0 <= a < b < count
      ensures cs[a].copyId != cs[b].copyId
    {
      var sa, sb := Suffix(cs[a].copyId), Suffix(cs[b].copyId);
      assert sa == Some(from + a + 1) && sb == Some(from + b + 1);
    }
  }

  /** The largest of the numbers present in `ns`, 0 when there is none. */
  function MaxPresent(ns: seq<Option<nat>>): (n: nat)
    ensures forall k :: 0 <= k < |ns| && ns[k].Some? ==> ns[k].value <= n
    ensures n == 0 || exists k :: 0 <= k < |ns| && ns[k] == Some(n)
  {
    if ns == [] then 0
    else
      var m := MaxPresent(ns[..|ns| - 1]);
      assert forall k :: 0 <= k < |ns| - 1 ==> ns[..|ns| - 1][k] == ns[k];
      match ns[|ns| - 1]
      case Some(id) => if id > m then id else m
      case None => m
  }

  /** One more element moves the maximum only when it is present and larger. */
  lemma MaxPresentStep(ns: seq<Option<nat>>, k: nat)
    requires k < |ns|
    ensures MaxPresent(ns[..k + 1]) ==
      if ns[k].Some? && ns[k].value > MaxPresent(ns[..k]) then ns[k].value else MaxPresent(ns[..k])
  {
    assert ns[..k + 1][..k] == ns[..k];
  }

  /** The numbers read back from the ids of `copies`, in order. */
  function Suffixes(copies: seq<CopyEntry>): (ns: seq<Option<nat>>)
    ensures |ns| == |copies|
    ensures forall k :: 0 <= k < |copies| ==> ns[k] == Suffix(copies[k].copyId)
  {
    seq(|copies|, k requires 0 <= k < |copies| => Suffix(copies[k].copyId))
  }

  /** The largest number read back from the ids of `copies`, 0 when none parses; ids
      whose suffix does not parse are skipped. */
  function MaxSuffix(copies: seq<CopyEntry>): nat {
    MaxPresent(Suffixes(copies))
  }

  /** Copies numbered after the largest number read back from `copies` collide with
      none of them: their own numbers are all larger, and an id whose suffix does not
      parse cannot equal one whose suffix does. */
  lemma AppendedCopiesKeepIdsUnique(copies: seq<CopyEntry>, isbn: string, count: nat)
    requires UniqueCopyIds(copies)
    ensures UniqueCopyIds(copies + NewCopies(isbn, MaxSuffix(copies), count))
  {
    var n := MaxSuffix(copies);
    var added := NewCopies(isbn, n, count);
    var all := copies + added;
    NewCopiesFacts(isbn, n, count);
    NewCopiesSuffixes(isbn, n, count);
    forall a, b | 0 <= a < b < |all|
      ensures all[a].copyId != all[b].copyId
    {
      if b >= |copies| {
        if a >= |copies| {
          assert all[a] == added[a - |copies|] && all[b] == added[b - |copies|];
        } else {
          assert Suffix(all[b].copyId) == Some(n + (b - |copies|) + 1);
          assert Suffixes(copies)[a] == Suffix(copies[a].copyId);
        }
      }
    }
  }

  /** The copies a constructor numbered 1 to `count` read back `count` as their maximum. */
  lemma MaxSuffixOfNewCopies(isbn: string, count: nat)
    ensures MaxSuffix(NewCopies(isbn, 0, count)) == count
  {
    NewCopiesSuffixes(isbn, 0, count);
    if count > 0 {
      assert Suffix(NewCopies(isbn, 0, count)[count - 1].copyId) == Some(count);
    }
  }

  /** Copies added after copies numbered 1 to `n` continue the numbering: together they
      are numbered 1 to `n + count`. */
  lemma NumberingContinues(isbn: string, n: nat, count: nat)
    ensures NewCopies(isbn, 0, n) + NewCopies(isbn, MaxSuffix(NewCopies(isbn, 0, n)), count) ==
      NewCopies(isbn, 0, n + count)
  {
    MaxSuffixOfNewCopies(isbn, n);
    NewCopiesSplit(isbn, 0, n, count);
  }

  /** Index of the first copy with id `copyId`; `|copies|` when there is none. */
  function CopyIndex(copies: seq<CopyEntry>, copyId: string): (k: nat)
    ensures k <= |copies|
    ensures k < |copies| ==> copies[k].copyId == copyId
    ensures forall m :: 0 <= m < k ==> copies[m].copyId != copyId
  {
    if copies == [] then 0
    else if copies[0].copyId == copyId then 0
    else 1 + CopyIndex(copies[1..], copyId)
  }

  /** Index of the first AVAILABLE copy; `|copies|` when there is none. */
  function AvailableIndex(copies: seq<CopyEntry>): (k: nat)
    ensures k <= |copies|
    ensures k < |copies| ==> copies[k].status == AVAILABLE
    ensures forall m :: 0 <= m < k ==> copies[m].status != AVAILABLE
  {
    if copies == [] then 0
    else if copies[0].status == AVAILABLE then 0
    else 1 + AvailableIndex(copies[1..])
  }

  /** One physical copy. */
  class BookCopy {
    var copyId: string
    var status: BookStatus
    var borrowVisitorId: int

    function Value(): CopyEntry
      reads this
    {
      CopyEntry(copyId, status, borrowVisitorId)
    }

    /** `BookCopy(copyId)`: the id as given, AVAILABLE, no borrower. */
    constructor (copyId: string)
      ensures Value() == NewCopy(copyId)
    {
      this.copyId := copyId;
      this.status := AVAILABLE;
      this.borrowVisitorId := 0;
    }

    method SetCopyId(copyId: string)
      modifies this
      ensures Value() == old(Value()).(copyId := copyId)
    {
      this.copyId := copyId;
    }

    method SetStatus(status: BookStatus)
      modifies this
      ensures Value() == old(Value()).(status := status)
    {
      this.status := status;
    }

    method SetBorrowVisitorId(borrowVisitorId: int)
      modifies this
      ensures Value() == old(Value()).(borrowVisitorId := borrowVisitorId)
    {
      this.borrowVisitorId := borrowVisitorId;
    }
  }

  /** One title and its copies. */
  class BookBase {
    var title: string
    var author: string
    var isbn: string
    var bookType: BookType
    var section: Section
    var copies: seq<CopyEntry>

    function Value(): BookEntry
      reads this
    {
      BookEntry(title, author, isbn, bookType, section, copies)
    }

    /** The title with copies `isbn-1` to `isbn-numCopies`, all AVAILABLE; none when
        `numCopies <= 0`. */
    constructor (title: string, author: string, isbn: string, bookType: BookType, section: Section, numCopies: int)
      ensures Value() == BookEntry(title, author, isbn, bookType, section,
                                   NewCopies(isbn, 0, if numCopies > 0 then numCopies else 0))
    {
      var made: seq<CopyEntry> := [];
      var i := 1;
      while i <= numCopies
        invariant 1 <= i <= (if numCopies > 0 then numCopies else 0) + 1
        invariant made == NewCopies(isbn, 0, i - 1)
      {
        made := made + [NewCopy(CopyId(isbn, i))];
        i := i + 1;
      }
      this.title := title;
      this.author := author;
      this.isbn := isbn;
      this.bookType := bookType;
      this.section := section;
      this.copies := made;
    }

    /** `borrow()`: the first AVAILABLE copy becomes UNAVAILABLE; false and no change
        when every copy is out. */
    method Borrow() returns (ok: bool)
      modifies this
      ensures ok <==> exists k :: 0 <= k < |old(copies)| && old(copies)[k].status == AVAILABLE
      ensures var k := AvailableIndex(old(copies));
        Value() == old(Value()).(copies :=
          if ok then old(copies)[k := old(copies)[k].(status := UNAVAILABLE)] else old(copies))
    {
      var k := 0;
      while k < |copies|
        invariant k <= |copies|
        invariant forall m :: 0 <= m < k ==> copies[m].status != AVAILABLE
      {
        if copies[k].status == AVAILABLE {
          copies := copies[k := copies[k].(status := UNAVAILABLE)];
          return true;
        }
        k := k + 1;
      }
      return false;
    }

    /** `returnBook(copyId)`: the first copy with that id becomes AVAILABLE, whatever its
        status was; nothing changes when no copy has that id. */
    method ReturnBook(copyId: string)
      modifies this
      ensures var k := CopyIndex(old(copies), copyId);
        Value() == old(Value()).(copies :=
          if k < |old(copies)| then old(copies)[k := old(copies)[k].(status := AVAILABLE)] else old(copies))
    {
      var k := 0;
      while k < |copies|
        invariant k <= |copies|
        invariant forall m :: 0 <= m < k ==> copies[m].copyId != copyId
      {
        if copies[k].copyId == copyId {
          copies := copies[k := copies[k].(status := AVAILABLE)];
          return;
        }
        k := k + 1;
      }
    }

    method SetTitle(title: string)
      modifies this
      ensures Value() == old(Value()).(title := title)
    {
      this.title := title;
    }

    method SetAuthor(author: string)
      modifies this
      ensures Value() == old(Value()).(author := author)
    {
      this.author := author;
    }

    method SetIsbn(isbn: string)
      modifies this
      ensures Value() == old(Value()).(isbn := isbn)
    {
      this.isbn := isbn;
    }

    method SetType(bookType: BookType)
      modifies this
      ensures Value() == old(Value()).(bookType := bookType)
    {
      this.bookType := bookType;
    }

    method SetSection(section: Section)
      modifies this
      ensures Value() == old(Value()).(section := section)
    {
      this.section := section;
    }

    method SetCopies(copies: seq<CopyEntry>)
      modifies this
      ensures Value() == old(Value()).(copies := copies)
    {
      this.copies := copies;
    }
  }
}
