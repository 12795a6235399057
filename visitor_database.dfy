/** The visitor store: the list of visitors, the specification of each operation as a
    function of the old list, the class whose methods perform them, and the
    properties of those functions. */
module VisitorDb {
  import opened Common
  import opened User

  /** Index of the first visitor with this id; `|vs|` when there is none. */
  function IdIndex(vs: seq<VisitorEntry>, visitorId: int): (j: nat)
    ensures j <= |vs|
    ensures j < |vs| ==> vs[j].visitorId == visitorId
    ensures forall m :: 0 <= m < j ==> vs[m].visitorId != visitorId
  {
    if vs == [] then 0
    else if vs[0].visitorId == visitorId then 0
    else 1 + IdIndex(vs[1..], visitorId)
  }

  /** Index of the first visitor with exactly this username; `|vs|` when there is none. */
  function UsernameIndex(vs: seq<VisitorEntry>, username: string): (j: nat)
    ensures j <= |vs|
    ensures j < |vs| ==> vs[j].user.username == username
    ensures forall m :: 0 <= m < j ==> vs[m].user.username != username
  {
    if vs == [] then 0
    else if vs[0].user.username == username then 0
    else 1 + UsernameIndex(vs[1..], username)
  }

  ghost predicate UniqueVisitorIds(vs: seq<VisitorEntry>) {
    forall a, b :: 0 <= a < b < |vs| ==> vs[a].visitorId != vs[b].visitorId
  }

  /** The largest of 1000 and the ids in `vs`. */
  function MaxVisitorId(vs: seq<VisitorEntry>): (n: int)
    ensures n >= 1000
    ensures forall j :: 0 <= j < |vs| ==> vs[j].visitorId <= n
    ensures n == 1000 || exists j :: 0 <= j < |vs| && vs[j].visitorId == n
  {
    if vs == [] then 1000
    else
      var m := MaxVisitorId(vs[..|vs| - 1]);
      assert forall j :: 0 <= j < |vs| - 1 ==> vs[..|vs| - 1][j] == vs[j];
      if vs[|vs| - 1].visitorId > m then vs[|vs| - 1].visitorId else m
  }

  /** `getNextVisitorId`: one more than the largest of 1000 and the ids in use. The next
      id is above every id in use and at least 1001; an empty store starts at 1001, and
      otherwise the next id follows 1000 or an id in use. */
  function NextVisitorId(vs: seq<VisitorEntry>): (n: int)
    ensures n >= 1001
    ensures forall j :: 0 <= j < |vs| ==> vs[j].visitorId < n
    ensures vs == [] ==> n == 1001
    ensures n == 1001 || exists j :: 0 <= j < |vs| && vs[j].visitorId == n - 1
  {
    MaxVisitorId(vs) + 1
  }

  /** `addVisitor`: the visitor, given the next id, goes at the end. */
  function WithVisitorAdded(vs: seq<VisitorEntry>, v: VisitorEntry): (r: seq<VisitorEntry>)
    ensures |r| == |vs| + 1 && r[..|vs|] == vs
    ensures r[|vs|] == v.(visitorId := NextVisitorId(vs))
  {
    vs + [v.(visitorId := NextVisitorId(vs))]
  }

  /** `editVisitor`: the first visitor with the edited visitor's id is replaced by it. */
  function WithVisitorEdited(vs: seq<VisitorEntry>, edited: VisitorEntry): (r: Step<seq<VisitorEntry>>)
    ensures r.ok <==> exists j :: 0 <= j < |vs| && vs[j].visitorId == edited.visitorId
    ensures !r.ok ==> r.state == vs
    ensures r.ok ==> var j := IdIndex(vs, edited.visitorId);
      |r.state| == |vs| && r.state[j] == edited &&
      forall m :: 0 <= m < |vs| && m != j ==> r.state[m] == vs[m]
  {
    var j := IdIndex(vs, edited.visitorId);
    if j == |vs| then Step(false, vs) else Step(true, vs[j := edited])
  }

  /** `deleteVisitor`: the first visitor with the id is removed. */
  function WithVisitorDeleted(vs: seq<VisitorEntry>, visitorId: int): (r: Step<seq<VisitorEntry>>)
    ensures r.ok <==> exists j :: 0 <= j < |vs| && vs[j].visitorId == visitorId
    ensures !r.ok ==> r.state == vs
    ensures r.ok ==> var j := IdIndex(vs, visitorId);
      r.state == vs[..j] + vs[j + 1..]
  {
    var j := IdIndex(vs, visitorId);
    if j == |vs| then Step(false, vs) else Step(true, Remove(vs, j))
  }

  /** The record `borrowBook` appends. */
  function NewBorrow(isbn: string, copyId: string, now: nat): BookBorrow {
    BookBorrow(isbn, copyId, BORROW, now, None)
  }

  /** `borrowBook` on the visitor side: one open record for the copy is appended to the
      first visitor with the id, and to no one else. */
  function WithBorrowRecorded(vs: seq<VisitorEntry>, isbn: string, copyId: string, visitorId: int, now: nat): (r: Step<seq<VisitorEntry>>)
    ensures r.ok <==> exists j :: 0 <= j < |vs| && vs[j].visitorId == visitorId
    ensures !r.ok ==> r.state == vs
    ensures |r.state| == |vs|
    ensures r.ok ==> var j := IdIndex(vs, visitorId);
      r.state[j].bookBorrows == vs[j].bookBorrows + [NewBorrow(isbn, copyId, now)] &&
      r.state[j] == vs[j].(bookBorrows := r.state[j].bookBorrows) &&
      forall m :: 0 <= m < |vs| && m != j ==> r.state[m] == vs[m]
  {
    var j := IdIndex(vs, visitorId);
    if j == |vs| then Step(false, vs)
    else Step(true, vs[j := vs[j].(bookBorrows := vs[j].bookBorrows + [NewBorrow(isbn, copyId, now)])])
  }

  /** The record `returnBook` closes. */
  function Closed(b: BookBorrow, now: nat): BookBorrow {
    b.(status := RETURN, returnTime := Some(now))
  }

  /** `returnBook` on the visitor side: in the first visitor with the id, the first record
      still open for the copy is closed; records already closed are passed over. */
  function WithReturnRecorded(vs: seq<VisitorEntry>, isbn: string, copyId: string, visitorId: int, now: nat): (r: Step<seq<VisitorEntry>>)
    ensures r.ok <==> var j := IdIndex(vs, visitorId);
      j < |vs| && exists k :: 0 <= k < |vs[j].bookBorrows| && ActiveFor(vs[j].bookBorrows[k], isbn, copyId)
    ensures !r.ok ==> r.state == vs
    ensures |r.state| == |vs|
    ensures r.ok ==> var j := IdIndex(vs, visitorId); var k := ActiveIndex(vs[j].bookBorrows, isbn, copyId);
      k < |vs[j].bookBorrows| &&
      r.state[j] == vs[j].(bookBorrows := vs[j].bookBorrows[k := Closed(vs[j].bookBorrows[k], now)]) &&
      forall m :: 0 <= m < |vs| && m != j ==> r.state[m] == vs[m]
  {
    var j := IdIndex(vs, visitorId);
    if j == |vs| then Step(false, vs)
    else
      var records := vs[j].bookBorrows;
      var k := ActiveIndex(records, isbn, copyId);
      if k == |records| then Step(false, vs)
      else Step(true, vs[j := vs[j].(bookBorrows := records[k := Closed(records[k], now)])])
  }

  /** A new visitor gets an id no one holds, so ids stay distinct and the new id finds it. */
  lemma AddedVisitorFound(vs: seq<VisitorEntry>, v: VisitorEntry)
    requires UniqueVisitorIds(vs)
    ensures UniqueVisitorIds(WithVisitorAdded(vs, v))
    ensures IdIndex(WithVisitorAdded(vs, v), NextVisitorId(vs)) == |vs|
  {
    var r := WithVisitorAdded(vs, v);
    var n := NextVisitorId(vs);
    forall a, b | 0 <= a < b < |r| ensures r[a].visitorId != r[b].visitorId {
      if b < |vs| {
        assert r[a] == vs[a] && r[b] == vs[b];
      } else {
        assert r[a] == vs[a];
      }
    }
    forall m | 0 <= m < |vs| ensures r[m].visitorId != n {
      assert r[m] == vs[m];
    }
  }

  /** Deleting a visitor keeps the remaining ids distinct. */
  lemma DeletedVisitorUnique(vs: seq<VisitorEntry>, j: nat)
    requires UniqueVisitorIds(vs) && j < |vs|
    ensures UniqueVisitorIds(Remove(vs, j))
  {
    var ws := Remove(vs, j);
    forall x, y | 0 <= x < y < |ws| ensures ws[x].visitorId != ws[y].visitorId {
      var x', y' := if x < j then x else x + 1, if y < j then y else y + 1;
      assert ws[x] == vs[x'] && ws[y] == vs[y'];
    }
  }

  /** After deleting visitor `j`, every other visitor is found by its id, one place
      earlier when it stood after `j`. */
  lemma DeletedVisitorIndex(vs: seq<VisitorEntry>, j: nat, visitorId: int)
    requires j < |vs| && IdIndex(vs, visitorId) < |vs| && IdIndex(vs, visitorId) != j
    ensures var h := IdIndex(vs, visitorId);
      var h' := if h < j then h else h - 1;
      IdIndex(Remove(vs, j), visitorId) == h' && Remove(vs, j)[h'] == vs[h]
  {
    var ws := Remove(vs, j);
    var h := IdIndex(vs, visitorId);
    var h' := if h < j then h else h - 1;
    assert ws[h'] == vs[h];
    assert ws[h'].visitorId == visitorId;
    forall m | 0 <= m < h' ensures ws[m].visitorId != visitorId {
      if m < j {
        assert ws[m] == vs[m];
      } else {
        assert ws[m] == vs[m + 1];
        assert m + 1 < h;
      }
    }
    var k := IdIndex(ws, visitorId);
    assert k <= h';
    assert k == h';
  }

  /** Borrow records are never removed: a recorded borrow adds one record at the end of
      the borrower's list, a recorded return changes one record in place, and every other
      visitor keeps its records. */
  lemma RecordsOnlyGrow(vs: seq<VisitorEntry>, isbn: string, copyId: string, visitorId: int, now: nat)
    ensures var r := WithBorrowRecorded(vs, isbn, copyId, visitorId, now);
      forall j :: 0 <= j < |vs| ==>
        |r.state[j].bookBorrows| == |vs[j].bookBorrows| + (if r.ok && j == IdIndex(vs, visitorId) then 1 else 0) &&
        r.state[j].bookBorrows[..|vs[j].bookBorrows|] == vs[j].bookBorrows
    ensures var r := WithReturnRecorded(vs, isbn, copyId, visitorId, now);
      forall j :: 0 <= j < |vs| ==>
        |r.state[j].bookBorrows| == |vs[j].bookBorrows| &&
        forall k :: 0 <= k < |vs[j].bookBorrows| ==>
          r.state[j].bookBorrows[k] == vs[j].bookBorrows[k] ||
          r.state[j].bookBorrows[k] == Closed(vs[j].bookBorrows[k], now)
  {
  }

  /** A recorded return ends one open borrow of the copy: the borrower's count of open
      records for it, and its count of open records overall, each drop by one. */
  lemma ReturnRecordedCounts(vs: seq<VisitorEntry>, isbn: string, copyId: string, visitorId: int, now: nat, i: string, c: string)
    requires WithReturnRecorded(vs, isbn, copyId, visitorId, now).ok
    ensures var r := WithReturnRecorded(vs, isbn, copyId, visitorId, now).state;
      var j := IdIndex(vs, visitorId);
      ActiveCount(r[j].bookBorrows) == ActiveCount(vs[j].bookBorrows) - 1 &&
      ActiveCountFor(r[j].bookBorrows, i, c) ==
        ActiveCountFor(vs[j].bookBorrows, i, c) - (if i == isbn && c == copyId then 1 else 0)
  {
    var j := IdIndex(vs, visitorId);
    var records := vs[j].bookBorrows;
    var k := ActiveIndex(records, isbn, copyId);
    ReplacedRecordCounts(records, k, Closed(records[k], now), i, c);
  }

  /** A recorded borrow opens one borrow of the copy for the borrower. */
  lemma BorrowRecordedCounts(vs: seq<VisitorEntry>, isbn: string, copyId: string, visitorId: int, now: nat, i: string, c: string)
    requires WithBorrowRecorded(vs, isbn, copyId, visitorId, now).ok
    ensures var r := WithBorrowRecorded(vs, isbn, copyId, visitorId, now).state;
      var j := IdIndex(vs, visitorId);
      ActiveCount(r[j].bookBorrows) == ActiveCount(vs[j].bookBorrows) + 1 &&
      ActiveCountFor(r[j].bookBorrows, i, c) ==
        ActiveCountFor(vs[j].bookBorrows, i, c) + (if i == isbn && c == copyId then 1 else 0)
  {
    var j := IdIndex(vs, visitorId);
    AppendedRecordCounts(vs[j].bookBorrows, NewBorrow(isbn, copyId, now), i, c);
  }

  /** Recording a return straight after recording a borrow of the same copy closes the
      record just appended when the borrower had no open record for it before. */
  lemma BorrowThenReturnRecorded(vs: seq<VisitorEntry>, isbn: string, copyId: string, visitorId: int, t0: nat, t1: nat)
    requires WithBorrowRecorded(vs, isbn, copyId, visitorId, t0).ok
    requires ActiveCountFor(vs[IdIndex(vs, visitorId)].bookBorrows, isbn, copyId) == 0
    ensures var mid := WithBorrowRecorded(vs, isbn, copyId, visitorId, t0).state;
      var r := WithReturnRecorded(mid, isbn, copyId, visitorId, t1);
      var j := IdIndex(vs, visitorId);
      r.ok && r.state[j].bookBorrows ==
        vs[j].bookBorrows + [BookBorrow(isbn, copyId, RETURN, t0, Some(t1))]
  {
    var j := IdIndex(vs, visitorId);
    var mid := WithBorrowRecorded(vs, isbn, copyId, visitorId, t0).state;
    var records := vs[j].bookBorrows;
    NoActiveFor(records, isbn, copyId);
    assert IdIndex(mid, visitorId) == j;
    var after := mid[j].bookBorrows;
    assert ActiveIndex(after, isbn, copyId) == |records| by {
      forall m | 0 <= m < |records| ensures !ActiveFor(after[m], isbn, copyId) {
        assert after[m] == records[m];
      }
    }
  }

  /** The visitor store. Saving to `VisitorDatabase.json` after each change is not
      modelled. */
  class VisitorDatabase {
    var visitors: seq<VisitorEntry>

    /** An empty store (the state when no file has been saved yet). */
    constructor ()
      ensures visitors == []
    {
      visitors := [];
    }

    /** `getNextVisitorId`. */
    method GetNextVisitorId() returns (n: int)
      ensures n == NextVisitorId(visitors)
    {
      var maxId := 1000;
      var i := 0;
      while i < |visitors|
        invariant i <= |visitors|
        invariant maxId == MaxVisitorId(visitors[..i])
      {
        assert visitors[..i + 1][..i] == visitors[..i];
        if visitors[i].visitorId > maxId {
          maxId := visitors[i].visitorId;
        }
        i := i + 1;
      }
      assert visitors[..i] == visitors;
      n := maxId + 1;
    }

    /** `addVisitor`: the visitor object itself is given the next id, then stored. */
    method AddVisitor(visitor: Visitor)
      modifies this, visitor
      ensures visitor.visitorId == NextVisitorId(old(visitors))
      ensures visitor.Value() == old(visitor.Value()).(visitorId := visitor.visitorId)
      ensures visitors == WithVisitorAdded(old(visitors), old(visitor.Value()))
    {
      var newVisitorId := GetNextVisitorId();
      visitor.SetVisitorId(newVisitorId);
      visitors := visitors + [visitor.Value()];
    }

    /** The loop of `findVisitorById`, giving the index it stops at. */
    method IndexOfId(visitorId: int) returns (j: nat)
      ensures j == IdIndex(visitors, visitorId)
    {
      j := 0;
      while j < |visitors|
        invariant j <= |visitors|
        invariant forall m :: 0 <= m < j ==> visitors[m].visitorId != visitorId
      {
        if visitors[j].visitorId == visitorId {
          return;
        }
        j := j + 1;
      }
    }

    method EditVisitor(editedVisitor: Visitor) returns (ok: bool)
      modifies this
      ensures var r := WithVisitorEdited(old(visitors), editedVisitor.Value());
        ok == r.ok && visitors == r.state
    {
      var j := IndexOfId(editedVisitor.visitorId);
      if j < |visitors| {
        visitors := visitors[j := editedVisitor.Value()];
        return true;
      }
      return false;
    }

    method DeleteVisitor(visitorId: int) returns (ok: bool)
      modifies this
      ensures var r := WithVisitorDeleted(old(visitors), visitorId);
        ok == r.ok && visitors == r.state
    {
      var j := IndexOfId(visitorId);
      if j < |visitors| {
        visitors := Remove(visitors, j);
        return true;
      }
      return false;
    }

    /** `findVisitorById`: the first visitor with the id, or null. */
    method FindVisitorById(visitorId: int) returns (r: Option<VisitorEntry>)
      ensures r.None? <==> forall j :: 0 <= j < |visitors| ==> visitors[j].visitorId != visitorId
      ensures r.Some? ==> (r.value.visitorId == visitorId &&
        exists j :: 0 <= j < |visitors| && visitors[j] == r.value &&
          forall m :: 0 <= m < j ==> visitors[m].visitorId != visitorId)
    {
      var j := IndexOfId(visitorId);
      if j < |visitors| {
        r := Some(visitors[j]);
      } else {
        r := None;
      }
    }

    /** `findVisitorByUsername`: the first visitor whose username equals the argument
        exactly, or null. */
    method FindVisitorByUsername(username: string) returns (r: Option<VisitorEntry>)
      ensures r.None? <==> forall j :: 0 <= j < |visitors| ==> visitors[j].user.username != username
      ensures r.Some? ==> (r.value.user.username == username &&
        exists j :: 0 <= j < |visitors| && visitors[j] == r.value &&
          forall m :: 0 <= m < j ==> visitors[m].user.username != username)
    {
      var j := 0;
      while j < |visitors|
        invariant j <= |visitors|
        invariant forall m :: 0 <= m < j ==> visitors[m].user.username != username
      {
        if visitors[j].user.username == username {
          return Some(visitors[j]);
        }
        j := j + 1;
      }
      return None;
    }

    method BorrowBook(isbn: string, copyId: string, visitorId: int, now: nat) returns (ok: bool)
      modifies this
      ensures var r := WithBorrowRecorded(old(visitors), isbn, copyId, visitorId, now);
        ok == r.ok && visitors == r.state
    {
      var j := IndexOfId(visitorId);
      if j < |visitors| {
        var visitor := visitors[j];
        visitors := visitors[j := visitor.(bookBorrows := visitor.bookBorrows + [NewBorrow(isbn, copyId, now)])];
        return true;
      }
      return false;
    }

    method ReturnBook(isbn: string, copyId: string, visitorId: int, now: nat) returns (ok: bool)
      modifies this
      ensures var r := WithReturnRecorded(old(visitors), isbn, copyId, visitorId, now);
        ok == r.ok && visitors == r.state
    {
      var j := IndexOfId(visitorId);
      if j < |visitors| {
        var records := visitors[j].bookBorrows;
        var k := 0;
        while k < |records|
          invariant k <= |records|
          invariant forall m :: 0 <= m < k ==> !ActiveFor(records[m], isbn, copyId)
        {
          if records[k].isbn == isbn && records[k].copyId == copyId {
            if records[k].status == BORROW {
              visitors := visitors[j := visitors[j].(bookBorrows := records[k := Closed(records[k], now)])];
              return true;
            }
          }
          k := k + 1;
        }
      }
      return false;
    }
  }
}
