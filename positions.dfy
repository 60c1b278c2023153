/**
 * What the three reading-list operations do to the rows of one list, as
 * functions of the rows before: the range updates `order + 1` on
 * `order >= p` and `order - 1` on `order > k`, the insert, the delete and the
 * pair-by-pair overwrite of a reorder. The lemmas state what the operations
 * promise about these functions: which rows move and by how much, that an
 * insert or a removal keeps a dense 1..n list dense, and that a reorder keeps
 * no such promise.
 */
module Positions {
  import opened Models

  // ---------------------------------------------------------------------
  // The range updates
  // ---------------------------------------------------------------------

  /** One row under `update(order = order + 1)` filtered on `order >= p`. */
  function Bumped(it: Item, p: int): Item
  {
    if it.order >= p then it.(order := it.order + 1) else it
  }

  /** One row under `update(order = order - 1)` filtered on `order > k`. */
  function Lowered(it: Item, k: int): Item
  {
    if it.order > k then it.(order := it.order - 1) else it
  }

  function ShiftUp(s: seq<Item>, p: int): seq<Item>
  {
    seq(|s|, i requires 0 <= i < |s| => Bumped(s[i], p))
  }

  function ShiftDown(s: seq<Item>, k: int): seq<Item>
  {
    seq(|s|, i requires 0 <= i < |s| => Lowered(s[i], k))
  }

  /** The rows after deleting the row at index i. */
  function Delete(s: seq<Item>, i: nat): seq<Item>
    requires i < |s|
  {
    s[..i] + s[i + 1..]
  }

  // ---------------------------------------------------------------------
  // Add and remove
  // ---------------------------------------------------------------------

  /** The position an Add without an order takes: after the last row in the ordering, or 1. */
  function AppendPosition(s: seq<Item>): int
  {
    if s == [] then 1 else MaxOrder(s) + 1
  }

  /** Add: shift the rows at p or above up by one, then create b's row at p. */
  function Inserted(s: seq<Item>, b: BookId, p: int): seq<Item>
  {
    ShiftUp(s, p) + [Item(b, p)]
  }

  /** Remove: delete the row at index i, then shift the rows above its order down by one. */
  function Removed(s: seq<Item>, i: nat): seq<Item>
    requires i < |s|
  {
    ShiftDown(Delete(s, i), s[i].order)
  }

  // ---------------------------------------------------------------------
  // Reorder
  // ---------------------------------------------------------------------

  /** One entry of a reorder request; its `book_id` may be missing. */
  datatype BookOrder = BookOrder(book: Option<BookId>, order: int)

  /** The pair names a book that has a row in the list. */
  predicate Reaches(s: seq<Item>, bo: BookOrder)
  {
    bo.book.Some? && Contains(s, bo.book.value)
  }

  /**
   * One pair of a reorder: overwrite the order of the named book's row. A pair
   * without a book (the lookup `book_id=None` matches no row) or naming a book
   * without a row is skipped.
   */
  function ApplyPair(s: seq<Item>, bo: BookOrder): seq<Item>
  {
    match bo.book
    case None => s
    case Some(b) =>
      match Find(s, b)
      case None => s
      case Some(i) => s[i := Item(b, bo.order)]
  }

  /** All pairs of a reorder, applied one after the other in the order given. */
  function Reordered(s: seq<Item>, bos: seq<BookOrder>): seq<Item>
  {
    if bos == [] then s
    else ApplyPair(Reordered(s, bos[..|bos| - 1]), bos[|bos| - 1])
  }

  /**
   * A reorder pair that reaches a row and would write an order the column
   * refuses; the save fails and the whole reorder is rolled back.
   */
  predicate Rejects(s: seq<Item>, bos: seq<BookOrder>)
  {
    exists k :: 0 <= k < |bos| && Reaches(s, bos[k]) && !Storable(bos[k].order)
  }

  /** The pairs of a reorder that name a book with a row in the list. */
  function Known(s: seq<Item>, bos: seq<BookOrder>): seq<BookOrder>
  {
    if bos == [] then []
    else if Reaches(s, bos[|bos| - 1]) then Known(s, bos[..|bos| - 1]) + [bos[|bos| - 1]]
    else Known(s, bos[..|bos| - 1])
  }

  // ---------------------------------------------------------------------
  // Density
  // ---------------------------------------------------------------------

  predicate DistinctOrders(s: seq<Item>)
  {
    forall i, j :: 0 <= i < j < |s| ==> s[i].order != s[j].order
  }

  /** Every order lies in 1..n and no two rows share one. */
  predicate Dense(s: seq<Item>)
  {
    && (forall i :: 0 <= i < |s| ==> 1 <= s[i].order <= |s|)
    && DistinctOrders(s)
  }

  function Orders(s: seq<Item>): set<int>
  {
    set i | 0 <= i < |s| :: s[i].order
  }

  /** The set {1, ..., n}. */
  function Interval(n: int): set<int>
  {
    if n <= 0 then {} else Interval(n - 1) + {n}
  }

  lemma {:induction false} IntervalMembers(n: int)
    ensures forall x :: x in Interval(n) <==> 1 <= x <= n
  {
    if n > 0 {
      IntervalMembers(n - 1);
    }
  }

  lemma {:induction false} IntervalSize(n: nat)
    ensures |Interval(n)| == n
  {
    if n > 0 {
      IntervalSize(n - 1);
      IntervalMembers(n - 1);
    }
  }

  lemma {:induction false} OrdersSizeBound(s: seq<Item>)
    ensures |Orders(s)| <= |s|
  {
    if s != [] {
      OrdersSizeBound(s[1..]);
      assert Orders(s) == {s[0].order} + Orders(s[1..]) by {
        forall x | x in Orders(s) ensures x in {s[0].order} + Orders(s[1..]) {
          var i :| 0 <= i < |s| && s[i].order == x;
          if i > 0 { assert s[1..][i - 1].order == x; }
        }
      }
    } else {
      assert Orders(s) == {};
    }
  }

  lemma {:induction false} OrdersSizeDistinct(s: seq<Item>)
    requires DistinctOrders(s)
    ensures |Orders(s)| == |s|
  {
    if s != [] {
      OrdersSizeDistinct(s[1..]);
      assert Orders(s) == {s[0].order} + Orders(s[1..]) by {
        forall x | x in Orders(s) ensures x in {s[0].order} + Orders(s[1..]) {
          var i :| 0 <= i < |s| && s[i].order == x;
          if i > 0 { assert s[1..][i - 1].order == x; }
        }
      }
      assert s[0].order !in Orders(s[1..]);
    } else {
      assert Orders(s) == {};
    }
  }

  lemma DuplicateShrinksOrders(s: seq<Item>, i: nat, j: nat)
    requires i < j < |s| && s[i].order == s[j].order
    ensures |Orders(s)| < |s|
  {
    var d := Delete(s, j);
    assert Orders(s) == Orders(d) by {
      forall x | x in Orders(s) ensures x in Orders(d) {
        var k :| 0 <= k < |s| && s[k].order == x;
        if k < j { assert d[k] == s[k]; }
        else if k == j { assert d[i] == s[i]; }
        else { assert d[k - 1] == s[k]; }
      }
    }
    OrdersSizeBound(d);
  }

  lemma SubsetOfSameSize(a: set<int>, b: set<int>)
    requires a <= b && |a| == |b|
    ensures a == b
  {
    assert |b - a| == |b| - |a|;
  }

  /** The dense lists are exactly those whose set of orders is {1, ..., n}. */
  lemma DenseIffOrdersOneToN(s: seq<Item>)
    ensures Dense(s) <==> Orders(s) == Interval(|s|)
  {
    IntervalSize(|s|);
    IntervalMembers(|s|);
    if Dense(s) {
      OrdersSizeDistinct(s);
      SubsetOfSameSize(Orders(s), Interval(|s|));
    }
    if Orders(s) == Interval(|s|) {
      forall i | 0 <= i < |s| ensures 1 <= s[i].order <= |s| {
        assert s[i].order in Orders(s);
      }
      if !DistinctOrders(s) {
        var i, j :| 0 <= i < j < |s| && s[i].order == s[j].order;
        DuplicateShrinksOrders(s, i, j);
      }
    }
  }

  /** In a dense list the last row in the ordering holds n, so an appended row gets n + 1. */
  lemma DenseAppendPosition(s: seq<Item>)
    requires Dense(s)
    ensures AppendPosition(s) == |s| + 1
  {
    if s != [] {
      DenseIffOrdersOneToN(s);
      IntervalMembers(|s|);
      assert |s| in Interval(|s|);
      var i :| 0 <= i < |s| && s[i].order == |s|;
    }
  }

  // ---------------------------------------------------------------------
  // What Add promises
  // ---------------------------------------------------------------------

  /**
   * The shift of an Add: each existing row keeps its book, rows at p or above
   * move up by exactly one, rows below p do not move, the rows keep their
   * relative ordering, and no existing row is left at p.
   */
  lemma ShiftUpMoves(s: seq<Item>, p: int)
    ensures |ShiftUp(s, p)| == |s|
    ensures forall i :: 0 <= i < |s| ==>
      ShiftUp(s, p)[i].book == s[i].book
      && ShiftUp(s, p)[i].order == (if s[i].order >= p then s[i].order + 1 else s[i].order)
      && ShiftUp(s, p)[i].order != p
    ensures forall i, j :: 0 <= i < |s| && 0 <= j < |s| ==>
      (s[i].order < s[j].order <==> ShiftUp(s, p)[i].order < ShiftUp(s, p)[j].order)
  {
  }

  /** An Add without an order moves no existing row. */
  lemma AppendShiftsNothing(s: seq<Item>)
    ensures ShiftUp(s, AppendPosition(s)) == s
  {
  }

  /** The density half of InsertKeepsDense, kept apart so that each proof stays small. */
  lemma InsertedIsDense(s: seq<Item>, b: BookId, p: int)
    requires Dense(s)
    requires 1 <= p <= |s| + 1
    ensures Dense(Inserted(s, b, p))
  {
  }

  /** An Add at 1 <= p <= n + 1 turns orders 1..n into 1..n + 1, with the new book at p. */
  lemma InsertKeepsDense(s: seq<Item>, b: BookId, p: int)
    requires Dense(s)
    requires 1 <= p <= |s| + 1
    ensures Dense(Inserted(s, b, p))
    ensures Orders(Inserted(s, b, p)) == Interval(|s| + 1)
    ensures Inserted(s, b, p)[|s|] == Item(b, p)
  {
    InsertedIsDense(s, b, p);
    DenseIffOrdersOneToN(Inserted(s, b, p));
  }

  /** An Add without an order keeps a dense list dense and puts the new book at n + 1. */
  lemma AppendKeepsDense(s: seq<Item>, b: BookId)
    requires Dense(s)
    ensures Dense(Inserted(s, b, AppendPosition(s)))
    ensures Inserted(s, b, AppendPosition(s)) == s + [Item(b, |s| + 1)]
  {
    DenseAppendPosition(s);
    AppendShiftsNothing(s);
    InsertKeepsDense(s, b, |s| + 1);
  }

  /** Add keeps every order at least 1 when the new order is at least 1. */
  lemma InsertKeepsValidOrders(s: seq<Item>, b: BookId, p: int)
    requires AllOrdersValid(s) && ValidOrder(p)
    ensures AllOrdersValid(Inserted(s, b, p))
  {
  }

  /** Add keeps the rows' books unique and in the catalog, and every order storable. */
  lemma InsertKeepsWellFormed(s: seq<Item>, books: set<BookId>, b: BookId, p: int)
    requires WellFormedList(s, books)
    requires b in books && !Contains(s, b) && Storable(p)
    ensures WellFormedList(Inserted(s, b, p), books)
  {
  }

  // ---------------------------------------------------------------------
  // What Remove promises
  // ---------------------------------------------------------------------

  /**
   * The rows after a Remove: the removed row is gone, each other row keeps its
   * book, rows above the removed order move down by exactly one and rows below
   * it do not move.
   */
  lemma RemovedMoves(s: seq<Item>, i: nat)
    requires i < |s|
    ensures |Removed(s, i)| == |s| - 1
    ensures forall j :: 0 <= j < |s| && j != i ==>
      var r := Removed(s, i)[if j < i then j else j - 1];
      r.book == s[j].book
      && r.order == (if s[j].order > s[i].order then s[j].order - 1 else s[j].order)
  {
  }

  /** The density half of RemoveKeepsDense, kept apart so that each proof stays small. */
  lemma RemovedIsDense(s: seq<Item>, i: nat)
    requires Dense(s)
    requires i < |s|
    ensures Dense(Removed(s, i))
  {
  }

  /** A Remove on a dense 1..n list leaves a dense 1..n - 1 list. */
  lemma RemoveKeepsDense(s: seq<Item>, i: nat)
    requires Dense(s)
    requires i < |s|
    ensures Dense(Removed(s, i))
    ensures Orders(Removed(s, i)) == Interval(|s| - 1)
  {
    var t := Removed(s, i);
    assert |t| == |s| - 1;
    RemovedIsDense(s, i);
    DenseIffOrdersOneToN(t);
  }

  /** Remove keeps every order at least 1. */
  lemma RemoveKeepsValidOrders(s: seq<Item>, i: nat)
    requires AllOrdersValid(s) && i < |s|
    ensures AllOrdersValid(Removed(s, i))
  {
  }

  /** Remove keeps the rows' books unique and in the catalog, and every order storable. */
  lemma RemoveKeepsWellFormed(s: seq<Item>, books: set<BookId>, i: nat)
    requires WellFormedList(s, books) && i < |s|
    ensures WellFormedList(Removed(s, i), books)
    ensures !Contains(Removed(s, i), s[i].book)
  {
  }

  // ---------------------------------------------------------------------
  // What Reorder does and does not promise
  // ---------------------------------------------------------------------

  lemma ApplyPairKeepsBooks(s: seq<Item>, bo: BookOrder)
    ensures |ApplyPair(s, bo)| == |s|
    ensures forall i :: 0 <= i < |s| ==> ApplyPair(s, bo)[i].book == s[i].book
  {
  }

  /** A reorder changes orders only: every row keeps its place and its book. */
  lemma {:induction false} ReorderedKeepsBooks(s: seq<Item>, bos: seq<BookOrder>)
    ensures |Reordered(s, bos)| == |s|
    ensures forall i :: 0 <= i < |s| ==> Reordered(s, bos)[i].book == s[i].book
  {
    if bos != [] {
      ReorderedKeepsBooks(s, bos[..|bos| - 1]);
      ApplyPairKeepsBooks(Reordered(s, bos[..|bos| - 1]), bos[|bos| - 1]);
    }
  }

  lemma ReorderedContains(s: seq<Item>, bos: seq<BookOrder>, b: BookId)
    ensures Contains(Reordered(s, bos), b) <==> Contains(s, b)
  {
    ReorderedKeepsBooks(s, bos);
    var t := Reordered(s, bos);
    if Contains(t, b) {
      var i :| 0 <= i < |t| && t[i].book == b;
      assert s[i].book == b;
    }
    if Contains(s, b) {
      var i :| 0 <= i < |s| && s[i].book == b;
      assert t[i].book == b;
    }
  }

  /** The prefix step of a reorder: applying one more pair. */
  lemma ReorderedStep(s: seq<Item>, bos: seq<BookOrder>, k: nat)
    requires k < |bos|
    ensures Reordered(s, bos[..k + 1]) == ApplyPair(Reordered(s, bos[..k]), bos[k])
  {
    assert bos[..k + 1][..k] == bos[..k];
  }

  /**
   * For a reorder that is not rejected, the list stays well formed: same
   * books, and every order it writes is one the column accepts.
   */
  lemma {:induction false} ReorderedKeepsWellFormed(s: seq<Item>, books: set<BookId>, bos: seq<BookOrder>)
    requires WellFormedList(s, books)
    requires !Rejects(s, bos)
    ensures WellFormedList(Reordered(s, bos), books)
  {
    if bos != [] {
      var init := bos[..|bos| - 1];
      var bo := bos[|bos| - 1];
      assert !Rejects(s, init) by {
        forall k | 0 <= k < |init| ensures !(Reaches(s, init[k]) && !Storable(init[k].order)) {
          assert init[k] == bos[k];
        }
      }
      ReorderedKeepsWellFormed(s, books, init);
      var t := Reordered(s, init);
      ReorderedKeepsBooks(s, init);
      ApplyPairKeepsBooks(t, bo);
      if bo.book.Some? && Find(t, bo.book.value).Some? {
        ReorderedContains(s, init, bo.book.value);
        assert Storable(bo.order) by {
          assert Reaches(s, bos[|bos| - 1]);
        }
      }
    }
  }

  /**
   * A later pair for the same book wins: the row of a book ends with the order
   * of the last pair that names it.
   */
  lemma {:induction false} ReorderedLastWins(s: seq<Item>, bos: seq<BookOrder>, i: nat, k: nat)
    requires UniqueBooks(s)
    requires i < |s| && k < |bos| && bos[k].book == Some(s[i].book)
    requires forall k' :: k < k' < |bos| ==> bos[k'].book != Some(s[i].book)
    ensures |Reordered(s, bos)| == |s| && Reordered(s, bos)[i].order == bos[k].order
  {
    ReorderedKeepsBooks(s, bos);
    var init := bos[..|bos| - 1];
    var t := Reordered(s, init);
    ReorderedKeepsBooks(s, init);
    assert UniqueBooks(t);
    if k == |bos| - 1 {
      var f := Find(t, s[i].book);
      assert t[i].book == s[i].book;
      assert f.Some? && f.value == i;
    } else {
      ReorderedLastWins(s, init, i, k);
      assert bos[|bos| - 1].book != Some(s[i].book);
    }
  }

  /** A row whose book no pair names keeps its order. */
  lemma {:induction false} ReorderedUnlisted(s: seq<Item>, bos: seq<BookOrder>, i: nat)
    requires i < |s|
    requires forall k :: 0 <= k < |bos| ==> bos[k].book != Some(s[i].book)
    ensures |Reordered(s, bos)| == |s| && Reordered(s, bos)[i] == s[i]
  {
    ReorderedKeepsBooks(s, bos);
    if bos != [] {
      var init := bos[..|bos| - 1];
      ReorderedUnlisted(s, init, i);
      ReorderedKeepsBooks(s, init);
      assert bos[|bos| - 1].book != Some(s[i].book);
    }
  }

  /** Pairs whose book has no row in the list are skipped: dropping them changes nothing. */
  lemma {:induction false} ReorderedIgnoresUnknown(s: seq<Item>, bos: seq<BookOrder>)
    ensures Reordered(s, bos) == Reordered(s, Known(s, bos))
  {
    if bos != [] {
      var init := bos[..|bos| - 1];
      var bo := bos[|bos| - 1];
      ReorderedIgnoresUnknown(s, init);
      if Reaches(s, bo) {
        var ks := Known(s, init) + [bo];
        assert ks[..|ks| - 1] == Known(s, init);
      } else if bo.book.Some? {
        ReorderedContains(s, init, bo.book.value);
      }
    }
  }

  /**
   * No density check: two different books whose last pairs carry the same
   * order both end up holding it, so the result is never dense.
   */
  lemma ReorderCanDuplicate(s: seq<Item>, bos: seq<BookOrder>, i: nat, j: nat, ki: nat, kj: nat)
    requires UniqueBooks(s)
    requires i < j < |s|
    requires ki < |bos| && bos[ki].book == Some(s[i].book)
    requires kj < |bos| && bos[kj].book == Some(s[j].book)
    requires forall k :: ki < k < |bos| ==> bos[k].book != Some(s[i].book)
    requires forall k :: kj < k < |bos| ==> bos[k].book != Some(s[j].book)
    requires bos[ki].order == bos[kj].order
    ensures |Reordered(s, bos)| == |s|
    ensures Reordered(s, bos)[i].order == Reordered(s, bos)[j].order
    ensures !Dense(Reordered(s, bos))
  {
    ReorderedLastWins(s, bos, i, ki);
    ReorderedLastWins(s, bos, j, kj);
  }

  /** For example: A(1), B(2), C(3) with the single pair (C, 1) gives A(1), B(2), C(1). */
  lemma ReorderExampleDuplicate()
    ensures var s := [Item(1, 1), Item(2, 2), Item(3, 3)];
      var t := Reordered(s, [BookOrder(Some(3), 1)]);
      Dense(s) && !Rejects(s, [BookOrder(Some(3), 1)])
      && t == [Item(1, 1), Item(2, 2), Item(3, 1)] && !Dense(t)
  {
    var s := [Item(1, 1), Item(2, 2), Item(3, 3)];
    var bos := [BookOrder(Some(3), 1)];
    assert bos[..0] == [];
    assert Find(s, 3) == Some(2);
    var t := Reordered(s, bos);
    assert t[0].order == t[2].order;
    assert !Rejects(s, bos) by {
      assert Storable(bos[0].order);
    }
  }

  /**
   * The validator minimum of 1 is not enforced on a reorder: order 0 is
   * accepted by the column and stored.
   */
  lemma ReorderExampleZero()
    ensures var s := [Item(1, 1)];
      var t := Reordered(s, [BookOrder(Some(1), 0)]);
      AllOrdersValid(s) && !Rejects(s, [BookOrder(Some(1), 0)])
      && t == [Item(1, 0)] && !AllOrdersValid(t)
  {
    var s := [Item(1, 1)];
    var bos := [BookOrder(Some(1), 0)];
    assert bos[..0] == [];
    assert Find(s, 1) == Some(0);
    assert !ValidOrder(Reordered(s, bos)[0].order);
    assert !Rejects(s, bos) by {
      assert Storable(bos[0].order);
    }
  }

  /**
   * A pair without a book_id is skipped rather than refused, even with an
   * order the column would not accept.
   */
  lemma ReorderExampleMissingBook()
    ensures var s := [Item(1, 1)];
      var bos := [BookOrder(None, -1)];
      !Rejects(s, bos) && Reordered(s, bos) == s
  {
    var bos := [BookOrder(None, -1)];
    assert bos[..0] == [];
  }

  /**
   * Add at an order past n + 1 leaves a gap: nothing shifts and the list is no
   * longer dense.
   */
  lemma InsertPastEndLeavesGap(s: seq<Item>, b: BookId, p: int)
    requires Dense(s)
    requires p > |s| + 1
    ensures Inserted(s, b, p) == s + [Item(b, p)]
    ensures !Dense(Inserted(s, b, p))
  {
    assert ShiftUp(s, p) == s;
    assert Inserted(s, b, p)[|s|].order == p;
  }
}
