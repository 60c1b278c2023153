/**
 * The tables behind reading lists: ReadingList rows, ReadingListItem rows and
 * the constraints their model classes declare (field validators, unique_together,
 * the default ordering). Everything here is a value; the store that holds and
 * updates rows is the class in module Views.
 */
module Models {

  type UserId = int
  type ListId = int
  type BookId = int

  datatype Option<T> = None | Some(value: T)

  /** A ReadingList row: the user who owns it and its name. */
  datatype ReadingList = ReadingList(user: UserId, name: string)

  /**
   * A ReadingListItem row: the book it references and its position in the
   * list. The list it belongs to is the key under which the store files it,
   * so every row belongs to exactly one list and references exactly one book.
   */
  datatype Item = Item(book: BookId, order: int)

  /** The MinValueValidator(1) declared on `order`. */
  predicate ValidOrder(order: int)
  {
    order >= 1
  }

  /**
   * What the `order` column itself accepts: a PositiveIntegerField carries a
   * database check `order >= 0`. Model validators are not run by create() or
   * save(), so this, not ValidOrder, is what a write is refused on.
   */
  predicate Storable(order: int)
  {
    order >= 0
  }

  predicate AllOrdersValid(s: seq<Item>)
  {
    forall i :: 0 <= i < |s| ==> ValidOrder(s[i].order)
  }

  predicate AllStorable(s: seq<Item>)
  {
    forall i :: 0 <= i < |s| ==> Storable(s[i].order)
  }

  /** unique_together = ['reading_list', 'book']: a book occurs at most once in a list. */
  predicate UniqueBooks(s: seq<Item>)
  {
    forall i, j :: 0 <= i < j < |s| ==> s[i].book != s[j].book
  }

  predicate Contains(s: seq<Item>, b: BookId)
  {
    exists i :: 0 <= i < |s| && s[i].book == b
  }

  /** unique_together = ['user', 'name']: no user owns two lists of the same name. */
  predicate UniqueNames(lists: map<ListId, ReadingList>)
  {
    forall l1, l2 :: l1 in lists && l2 in lists && l1 != l2 ==>
      lists[l1].user != lists[l2].user || lists[l1].name != lists[l2].name
  }

  /** The rows of one list, as the database keeps them: constraints plus foreign keys into the catalog. */
  predicate WellFormedList(s: seq<Item>, books: set<BookId>)
  {
    && UniqueBooks(s)
    && AllStorable(s)
    && forall i :: 0 <= i < |s| ==> s[i].book in books
  }

  /** The lookup `get(reading_list=..., book_id=b)`: the position of b's row, if any. */
  function Find(s: seq<Item>, b: BookId): (r: Option<nat>)
    ensures r.Some? ==> r.value < |s| && s[r.value].book == b
    ensures r.Some? ==> forall j :: 0 <= j < r.value ==> s[j].book != b
    ensures r.None? <==> !Contains(s, b)
  {
    if s == [] then None
    else if s[0].book == b then Some(0)
    else match Find(s[1..], b)
      case None => None
      case Some(i) => Some(i + 1)
  }

  /** The largest order held by a row of a non-empty list. */
  function MaxOrder(s: seq<Item>): (m: int)
    requires |s| > 0
    ensures exists i :: 0 <= i < |s| && s[i].order == m
    ensures forall i :: 0 <= i < |s| ==> s[i].order <= m
  {
    if |s| == 1 then s[0].order
    else
      var rest := MaxOrder(s[1..]);
      if s[0].order >= rest then s[0].order else rest
  }

  /** ordering = ['order']: rows are enumerated by ascending order. */
  predicate SortedByOrder(t: seq<Item>)
  {
    forall i, j :: 0 <= i < j < |t| ==> t[i].order <= t[j].order
  }

  /**
   * Any enumeration of a list's rows in the declared ordering ends with a row
   * holding the largest order, so `items.last()` yields MaxOrder.
   */
  lemma LastOfOrderedIsMax(s: seq<Item>, t: seq<Item>)
    requires |s| > 0
    requires multiset(t) == multiset(s)
    requires SortedByOrder(t)
    ensures |t| > 0 && t[|t| - 1].order == MaxOrder(s)
  {
    assert |t| == |s| by {
      assert |multiset(t)| == |multiset(s)|;
    }
    var last := t[|t| - 1];
    assert last in multiset(s) by {
      assert last in multiset(t);
    }
    var m := MaxOrder(s);
    var i :| 0 <= i < |s| && s[i].order == m;
    assert s[i] in multiset(t) by {
      assert s[i] in multiset(s);
    }
    var j :| 0 <= j < |t| && t[j] == s[i];
    assert last.order >= m by {
      if j < |t| - 1 {
        assert t[j].order <= last.order;
      }
    }
    var k :| 0 <= k < |s| && s[k] == last;
  }
}
