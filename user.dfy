/** Users of the library: the login record every user has, the borrow records a
    visitor keeps, and the `Visitor` object whose profile fields the screens update. */
module User {
  import opened Common

  datatype Role = ADMIN | VISITOR

  datatype Gender = MALE | FEMALE

  datatype BorrowStatus = BORROW | RETURN

  /** The fields every user has. */
  datatype UserBase = UserBase(username: string, password: string, role: Role)

  /** One borrow of one copy. Times are instants supplied by the caller; `returnTime` is
      absent until the copy comes back. */
  datatype BookBorrow = BookBorrow(isbn: string, copyId: string, status: BorrowStatus,
                                   borrowTime: nat, returnTime: Option<nat>)

  /** A visitor as the visitor store holds it. */
  datatype VisitorEntry = VisitorEntry(user: UserBase, visitorId: int, fullName: string,
                                       gender: Gender, age: int, phone: string,
                                       address: string, bookBorrows: seq<BookBorrow>)

  /** The record is still open and is for this copy. */
  predicate ActiveFor(b: BookBorrow, isbn: string, copyId: string) {
    b.isbn == isbn && b.copyId == copyId && b.status == BORROW
  }

  /** Number of records still open, whatever the copy. */
  function ActiveCount(records: seq<BookBorrow>): (n: nat)
    ensures n <= |records|
  {
    if records == [] then 0
    else ActiveCount(records[..|records| - 1]) + (if records[|records| - 1].status == BORROW then 1 else 0)
  }

  /** Number of records still open for one copy. */
  function ActiveCountFor(records: seq<BookBorrow>, isbn: string, copyId: string): (n: nat)
    ensures n <= ActiveCount(records)
  {
    if records == [] then 0
    else
      var last := if ActiveFor(records[|records| - 1], isbn, copyId) then 1 else 0;
      ActiveCountFor(records[..|records| - 1], isbn, copyId) + last
  }

  /** No open record for a copy means no record for it is still open. */
  lemma {:induction false} NoActiveFor(records: seq<BookBorrow>, isbn: string, copyId: string)
    ensures ActiveCountFor(records, isbn, copyId) == 0 <==>
      forall k :: 0 <= k < |records| ==> !ActiveFor(records[k], isbn, copyId)
    decreases |records|
  {
    if records != [] {
      var front := records[..|records| - 1];
      NoActiveFor(front, isbn, copyId);
      assert forall k :: 0 <= k < |front| ==> front[k] == records[k];
    }
  }

  /** A prefix of the records has no more open records than all of them. */
  lemma {:induction false} ActiveCountPrefix(records: seq<BookBorrow>, n: nat)
    requires n <= |records|
    ensures ActiveCount(records[..n]) <= ActiveCount(records)
    decreases |records|
  {
    if n < |records| {
      var front := records[..|records| - 1];
      assert records[..n] == front[..n];
      ActiveCountPrefix(front, n);
    } else {
      assert records[..n] == records;
    }
  }

  /** An appended record adds one to the counts it is open for and leaves the rest. */
  lemma AppendedRecordCounts(records: seq<BookBorrow>, b: BookBorrow, isbn: string, copyId: string)
    ensures ActiveCount(records + [b]) == ActiveCount(records) + (if b.status == BORROW then 1 else 0)
    ensures ActiveCountFor(records + [b], isbn, copyId) ==
      ActiveCountFor(records, isbn, copyId) + (if ActiveFor(b, isbn, copyId) then 1 else 0)
  {
    assert (records + [b])[..|records|] == records;
  }

  /** Replacing record `k` changes each count by what the replaced and the new record
      contribute to it. */
  lemma {:induction false} ReplacedRecordCounts(records: seq<BookBorrow>, k: nat, b: BookBorrow, isbn: string, copyId: string)
    requires k < |records|
    ensures ActiveCount(records[k := b]) ==
      ActiveCount(records) - (if records[k].status == BORROW then 1 else 0) + (if b.status == BORROW then 1 else 0)
    ensures ActiveCountFor(records[k := b], isbn, copyId) ==
      ActiveCountFor(records, isbn, copyId) - (if ActiveFor(records[k], isbn, copyId) then 1 else 0) +
      (if ActiveFor(b, isbn, copyId) then 1 else 0)
    decreases |records|
  {
    var last := |records| - 1;
    if k < last {
      assert records[k := b][..last] == records[..last][k := b];
      ReplacedRecordCounts(records[..last], k, b, isbn, copyId);
    } else {
      assert records[k := b][..last] == records[..last];
    }
  }

  /** Index of the first record still open for this copy; `|records|` when none is. */
  function ActiveIndex(records: seq<BookBorrow>, isbn: string, copyId: string): (k: nat)
    ensures k <= |records|
    ensures k < |records| ==> ActiveFor(records[k], isbn, copyId)
    ensures forall m :: 0 <= m < k ==> !ActiveFor(records[m], isbn, copyId)
  {
    if records == [] then 0
    else if ActiveFor(records[0], isbn, copyId) then 0
    else 1 + ActiveIndex(records[1..], isbn, copyId)
  }

  /** A library visitor. `bookBorrows` is `None` where the Java field is null (a list
      loaded without one); `getBookBorrows` repairs that. */
  class Visitor {
    var user: UserBase
    var visitorId: int
    var fullName: string
    var gender: Gender
    var age: int
    var phone: string
    var address: string
    var bookBorrows: Option<seq<BookBorrow>>

    /** The borrow records, a null list read as an empty one. */
    function Borrows(): seq<BookBorrow>
      reads this
    {
      if bookBorrows.Some? then bookBorrows.value else []
    }

    /** The visitor as the store holds it. */
    function Value(): VisitorEntry
      reads this
    {
      VisitorEntry(user, visitorId, fullName, gender, age, phone, address, Borrows())
    }

    /** The profile constructor: role VISITOR, id 0 until the store assigns one, and an
        empty borrow list. */
    constructor (username: string, password: string, fullName: string, gender: Gender,
                 age: int, phone: string, address: string)
      ensures Value() == VisitorEntry(UserBase(username, password, VISITOR), 0, fullName,
                                      gender, age, phone, address, [])
      ensures bookBorrows == Some([])
    {
      user := UserBase(username, password, VISITOR);
      visitorId := 0;
      this.fullName := fullName;
      this.gender := gender;
      this.age := age;
      this.phone := phone;
      this.address := address;
      bookBorrows := Some([]);
    }

    /** `getBookBorrows`: never null; a null list becomes an empty one and an existing list
        is returned as it is. The records do not change, and once the list exists a call
        changes nothing at all, so calls after the first all return the same list. */
    method GetBookBorrows() returns (r: seq<BookBorrow>)
      modifies this
      ensures r == old(Borrows())
      ensures bookBorrows == Some(r)
      ensures Value() == old(Value())
      ensures old(bookBorrows).Some? ==> unchanged(this)
    {
      if bookBorrows.None? {
        bookBorrows := Some([]);
      }
      r := bookBorrows.value;
    }

    method SetVisitorId(visitorId: int)
      modifies this
      ensures Value() == old(Value()).(visitorId := visitorId)
      ensures bookBorrows == old(bookBorrows)
    {
      this.visitorId := visitorId;
    }

    method SetFullName(fullName: string)
      modifies this
      ensures Value() == old(Value()).(fullName := fullName)
      ensures bookBorrows == old(bookBorrows)
    {
      this.fullName := fullName;
    }

    method SetGender(gender: Gender)
      modifies this
      ensures Value() == old(Value()).(gender := gender)
      ensures bookBorrows == old(bookBorrows)
    {
      this.gender := gender;
    }

    method SetAge(age: int)
      modifies this
      ensures Value() == old(Value()).(age := age)
      ensures bookBorrows == old(bookBorrows)
    {
      this.age := age;
    }

    method SetPhone(phone: string)
      modifies this
      ensures Value() == old(Value()).(phone := phone)
      ensures bookBorrows == old(bookBorrows)
    {
      this.phone := phone;
    }

    method SetAddress(address: string)
      modifies this
      ensures Value() == old(Value()).(address := address)
      ensures bookBorrows == old(bookBorrows)
    {
      this.address := address;
    }
  }
}
