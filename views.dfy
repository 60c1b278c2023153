/**
 * The three reading-list endpoints that change a list's rows: add a book,
 * remove a book, reorder. The store is the part of the database they touch:
 * the ReadingList rows, the ReadingListItem rows of each list and the set of
 * book ids in the catalog. Each operation is one atomic method; an error that
 * the database raises inside the transaction restores the rows as they were.
 *
 * Discrepancy in the source: the range updates of add and remove write
 * `models.F('order') + 1` and `models.F('order') - 1`, but the view module
 * never binds the name `models` (it imports only the model classes). As
 * written, every add or remove that reaches its update raises NameError and
 * the transaction rolls back. The methods below model the intended update,
 * `order = order + 1` on the rows at or above the new position and
 * `order = order - 1` on the rows above the removed one.
 */
module Views {
  import opened Models
  import opened Positions

  /** What a request can fail with; HTTP status codes and messages are left out. */
  datatype Error =
    | NotFound      // no such list owned by the caller, no such book, no such row
    | InvalidInput  // a required field is missing or empty
    | Duplicate     // the book already has a row in the list
    | Rejected      // the database refused a write and the transaction rolled back

  datatype Result<T> = Ok(value: T) | Err(error: Error)

  datatype Outcome = Done | Failed(error: Error)

  /** Python truthiness of an optional integer field: absent or 0 count as not given. */
  predicate Given(x: Option<int>)
  {
    x.Some? && x.value != 0
  }

  /** The lookup `ReadingList.objects.get(id=l, user=user)`. */
  predicate Owns(lists: map<ListId, ReadingList>, user: UserId, l: ListId)
  {
    l in lists && lists[l].user == user
  }

  class Store {
    var lists: map<ListId, ReadingList>
    var items: map<ListId, seq<Item>>
    var books: set<BookId>

    /** The declared constraints and foreign keys of the tables. */
    ghost predicate Valid()
      reads this
    {
      && UniqueNames(lists)
      && items.Keys == lists.Keys
      && forall l :: l in items ==> WellFormedList(items[l], books)
    }

    constructor (lists: map<ListId, ReadingList>, items: map<ListId, seq<Item>>, books: set<BookId>)
      requires UniqueNames(lists) && items.Keys == lists.Keys
      requires forall l :: l in items ==> WellFormedList(items[l], books)
      ensures Valid()
      ensures this.lists == lists && this.items == items && this.books == books
    {
      this.lists := lists;
      this.items := items;
      this.books := books;
    }

    /**
     * Add a book to one of the caller's lists, at `order` when it is given
     * and after the last row otherwise.
     */
    method AddBook(user: UserId, listId: ListId, bookId: Option<BookId>, order: Option<int>)
      returns (r: Result<Item>)
      requires Valid()
      modifies this
      ensures Valid() && lists == old(lists) && books == old(books)
      ensures r.Err? ==> items == old(items)
      ensures !Owns(lists, user, listId) ==> r == Err(NotFound)
      ensures Owns(lists, user, listId) ==>
        var s := old(items)[listId];
        if !Given(bookId) then r == Err(InvalidInput)
        else if bookId.value !in books then r == Err(NotFound)
        else if Contains(s, bookId.value) then r == Err(Duplicate)
        else
          var p := if Given(order) then order.value else AppendPosition(s);
          if !Storable(p) then r == Err(Rejected)
          else r == Ok(Item(bookId.value, p)) && items == old(items)[listId := Inserted(s, bookId.value, p)]
      // the invariant this keeps: a dense list stays dense when the order is
      // absent or within 1..n + 1
      ensures r.Ok? && Dense(old(items)[listId]) && (!Given(order) || order.value <= |old(items)[listId]| + 1) ==>
        Dense(items[listId]) && items[listId][|old(items)[listId]|] == r.value
    {
      if !Owns(lists, user, listId) {
        return Err(NotFound);
      }
      if !Given(bookId) {
        return Err(InvalidInput);
      }
      var b := bookId.value;
      if b !in books {
        return Err(NotFound);
      }
      var s := items[listId];
      if Find(s, b).Some? {
        return Err(Duplicate);
      }
      var p := if Given(order) then order.value else AppendPosition(s);

      // inside the transaction: the range update, then the insert
      var before := items;
      items := items[listId := ShiftUp(s, p)];
      if !Storable(p) {
        // the insert violates the column's check; the update is rolled back
        items := before;
        return Err(Rejected);
      }
      items := items[listId := items[listId] + [Item(b, p)]];
      r := Ok(Item(b, p));

      InsertKeepsWellFormed(s, books, b, p);
      if Dense(s) {
        if Given(order) {
          if p <= |s| + 1 {
            InsertKeepsDense(s, b, p);
          }
        } else {
          AppendKeepsDense(s, b);
        }
      }
    }

    /** Remove a book from one of the caller's lists and close the gap it leaves. */
    method RemoveBook(user: UserId, listId: ListId, bookId: BookId) returns (r: Outcome)
      requires Valid()
      modifies this
      ensures Valid() && lists == old(lists) && books == old(books)
      ensures r.Failed? ==> items == old(items)
      ensures !Owns(lists, user, listId) ==> r == Failed(NotFound)
      ensures Owns(lists, user, listId) ==>
        var s := old(items)[listId];
        match Find(s, bookId)
        case None => r == Failed(NotFound)
        case Some(i) => r == Done && items == old(items)[listId := Removed(s, i)]
      ensures r.Done? ==> !Contains(items[listId], bookId) && |items[listId]| == |old(items)[listId]| - 1
      // the invariant this keeps: a dense list stays dense
      ensures r.Done? && Dense(old(items)[listId]) ==> Dense(items[listId])
    {
      if !Owns(lists, user, listId) {
        return Failed(NotFound);
      }
      var s := items[listId];
      var found := Find(s, bookId);
      if found.None? {
        return Failed(NotFound);
      }
      var i := found.value;

      // inside the transaction: the delete, then the range update
      var removedOrder := s[i].order;
      items := items[listId := Delete(s, i)];
      items := items[listId := ShiftDown(items[listId], removedOrder)];
      r := Done;

      RemoveKeepsWellFormed(s, books, i);
      if Dense(s) {
        RemoveKeepsDense(s, i);
      }
    }

    /**
     * Overwrite the orders of one of the caller's lists, pair by pair. Pairs
     * whose book has no row are skipped; nothing checks that the result is
     * dense.
     */
    method Reorder(user: UserId, listId: ListId, bookOrders: seq<BookOrder>) returns (r: Outcome)
      requires Valid()
      modifies this
      ensures Valid() && lists == old(lists) && books == old(books)
      ensures r.Failed? ==> items == old(items)
      ensures !Owns(lists, user, listId) ==> r == Failed(NotFound)
      ensures Owns(lists, user, listId) ==>
        var s := old(items)[listId];
        if bookOrders == [] then r == Failed(InvalidInput)
        else if Rejects(s, bookOrders) then r == Failed(Rejected)
        else r == Done && items == old(items)[listId := Reordered(s, bookOrders)]
    {
      if !Owns(lists, user, listId) {
        return Failed(NotFound);
      }
      if bookOrders == [] {
        return Failed(InvalidInput);
      }
      var before := items;
      ghost var s := items[listId];
      var k := 0;
      while k < |bookOrders|
        invariant 0 <= k <= |bookOrders|
        invariant lists == old(lists) && books == old(books) && before == old(items)
        invariant items == old(items)[listId := Reordered(s, bookOrders[..k])]
        invariant forall j :: 0 <= j < k ==> !(Reaches(s, bookOrders[j]) && !Storable(bookOrders[j].order))
      {
        var bo := bookOrders[k];
        ReorderedStep(s, bookOrders, k);
        // a missing book_id is looked up as `book_id=None`, which matches no row
        var found := if bo.book.Some? then Find(items[listId], bo.book.value) else None;
        if bo.book.Some? {
          ReorderedContains(s, bookOrders[..k], bo.book.value);
        }
        if found.Some? {
          if !Storable(bo.order) {
            // the save violates the column's check; every earlier save is rolled back
            items := before;
            return Failed(Rejected);
          }
          items := items[listId := items[listId][found.value := Item(bo.book.value, bo.order)]];
        }
        k := k + 1;
      }
      assert bookOrders[..k] == bookOrders;
      ReorderedKeepsWellFormed(s, books, bookOrders);
      r := Done;
    }
  }

  /**
   * A worked example: A(1), B(2), C(3); add D at 2 gives
   * A(1), D(2), B(3), C(4); removing B then gives A(1), D(2), C(3).
   */
  method WorkedExample()
  {
    var a, b, c, d := 10, 11, 12, 13;
    var rows := [Item(a, 1), Item(b, 2), Item(c, 3)];
    var store := new Store(map[1 := ReadingList(7, "to read")], map[1 := rows], {a, b, c, d});

    assert !Contains(rows, d) by {
      assert Find(rows, d) == None;
    }
    assert Inserted(rows, d, 2) == [Item(a, 1), Item(b, 3), Item(c, 4), Item(d, 2)] by {
      assert ShiftUp(rows, 2) == [Item(a, 1), Item(b, 3), Item(c, 4)];
    }
    var added := store.AddBook(7, 1, Some(d), Some(2));
    assert added == Ok(Item(d, 2));
    var rows' := store.items[1];
    assert rows' == [Item(a, 1), Item(b, 3), Item(c, 4), Item(d, 2)];

    assert Find(rows', b) == Some(1);
    assert Removed(rows', 1) == [Item(a, 1), Item(c, 3), Item(d, 2)] by {
      assert Delete(rows', 1) == [Item(a, 1), Item(c, 4), Item(d, 2)];
    }
    var removed := store.RemoveBook(7, 1, b);
    assert removed == Done;
    assert store.items[1] == [Item(a, 1), Item(c, 3), Item(d, 2)];
  }
}
