# Ordered reading lists

A Dafny model of the ordered reading-list item manager of the book management
API. A user owns reading lists; each list holds items, each a book with an
integer `order`. Three endpoints change the items of a list owned by the
caller:

- **add a book**, either at the requested `order` or after the last item. When
  an order `p` is requested, every item at `p` or above moves up by one before
  the new item is created at `p`;
- **remove a book**. The item is deleted and every item above its order moves
  down by one, closing the gap;
- **reorder**. `(book, order)` pairs are applied one after the other as plain
  overwrites. Pairs without a book, or naming a book without an item, are
  skipped, and nothing checks the result.

The model has three modules:

- `models.dfy`, module `Models`. The rows (`ReadingList`, `Item`) and the
  constraints the model classes declare: the minimum order of 1, one item per
  book per list, one list per user and name, and the ascending default
  ordering. It also holds the item lookup `Find` and the largest order
  `MaxOrder`.
- `positions.dfy`, module `Positions`. What each operation does to one list's
  rows, written as functions of the rows before: `ShiftUp`, `ShiftDown`,
  `Inserted`, `Removed` and `Reordered`. The lemmas state what those functions
  promise. A list is `Dense` when its orders are exactly 1..n.
- `views.dfy`, module `Views`. The class `Store` holds the lists, the rows of
  each list and the book catalog. Its methods `AddBook`, `RemoveBook` and
  `Reorder` are the three endpoints, each one atomic step. Each method's
  postcondition gives the full new state and every error case.

Errors are abstract: `NotFound`, `InvalidInput`, `Duplicate` and `Rejected`.
`Rejected` means the database refused a write and the transaction rolled back.
The `order` column is a PositiveIntegerField, so the database rejects a
negative order. The MinValueValidator(1) on it is not run by `create()` or
`save()`. As a result, add never stores an order below 1: an absent or 0 order
means "append", and a negative one is rejected. Reorder, however, can store 0
(`Positions.ReorderExampleZero`).

Three behaviours of the code are worth stating:

- An add at an order past n + 1 leaves a gap (`Positions.InsertPastEndLeavesGap`).
  So add keeps a list dense only for an absent order or an order within 1..n + 1.
- Reorder can also fail with `InvalidInput`, when its list of pairs is empty.
- A book that is already in the list is refused with the error the code gives
  for bad input. The model calls this error `Duplicate`.

One discrepancy in the source is noted but not modelled. views.py writes the
range updates as `models.F('order') + 1` (line 212) and `models.F('order') - 1`
(line 257), but it never imports the name `models`. As written, every add or
remove that reaches its update raises NameError inside the transaction, and
the transaction rolls back. The model describes the intended update: it shifts
the filtered rows by one.

## Model

| member | source | states |
|---|---|---|
| Views.Store.AddBook | book_management/api/views.py:170-224 | An unowned or unknown list gives NotFound. A missing or 0 book_id gives InvalidInput. A book not in the catalog gives NotFound. A book already in the list gives Duplicate, whatever order is passed. A negative order gives Rejected. Every error leaves all rows unchanged. On success the new item is (book, p), where p is the given order or AppendPosition, and the list becomes Inserted(old, book, p). A dense list stays dense when the order is absent or at most n + 1 |
| Views.Store.RemoveBook | book_management/api/views.py:227-261 | An unowned list or a book with no item gives NotFound and changes nothing. Otherwise the list becomes Removed(old, i), where i is the book's row. The book is gone, the list is one item shorter, and a dense list stays dense |
| Views.Store.Reorder | book_management/api/views.py:265-300 | An unowned list gives NotFound. An empty list of pairs gives InvalidInput. A pair that reaches an item with a negative order gives Rejected and rolls back every earlier pair. Pairs without a book_id, or whose book has no item, are skipped. Otherwise the list becomes Reordered(old, pairs). The loop is proved against that function |
| Models.Find | book_management/api/views.py:239-243 | The lookup of a book's item in a list: an index holding that book (the first one) exactly when the list contains the book, otherwise none |
| Models.MaxOrder | book_management/api/views.py:204-205 | The result is the order of some row, and no row holds a larger one |
| Models.LastOfOrderedIsMax | book_management/api/models.py:48-49 | Any enumeration of a list's rows by ascending order ends with a row holding MaxOrder, so `items.last()` gives the largest order |
| Positions.DenseAppendPosition | book_management/api/views.py:203-205 | In a dense list of n items, an add without an order goes to n + 1 |
| Positions.AppendShiftsNothing | book_management/api/views.py:203-212 | An add without an order moves no existing item: the shift at MaxOrder + 1 (or 1) is the identity |
| Positions.AppendKeepsDense | book_management/api/views.py:202-218 | An add without an order on a dense list leaves it dense, and the old rows plus (book, n + 1) |
| Positions.ShiftUpMoves | book_management/api/views.py:209-212 | The shift of an add keeps each row's book and moves items at p or above up by exactly one. Items below p stay put, the relative order of the items is kept, and no item is left at p |
| Positions.InsertKeepsDense | book_management/api/views.py:207-218 | If the orders are exactly 1..n and 1 <= p <= n + 1, then after an add they are exactly 1..n + 1, with the new book at p |
| Positions.InsertKeepsValidOrders | book_management/api/models.py:45 | An add at an order of at least 1 keeps every order at least 1 |
| Positions.InsertKeepsWellFormed | book_management/api/views.py:214-218 | An add of a catalog book that is not yet in the list, at a storable order, keeps the books unique and in the catalog and every order storable |
| Positions.InsertPastEndLeavesGap | book_management/api/views.py:207-218 | An add at an order past n + 1 moves nothing and leaves the list not dense |
| Positions.RemovedMoves | book_management/api/views.py:249-257 | A remove deletes exactly the named row. Every other row keeps its book; rows above the removed order move down by exactly one, and rows below it stay put |
| Positions.RemoveKeepsDense | book_management/api/views.py:249-257 | A remove on a list with orders 1..n leaves orders exactly 1..n - 1 |
| Positions.RemoveKeepsValidOrders | book_management/api/models.py:45 | A remove keeps every order at least 1 |
| Positions.RemoveKeepsWellFormed | book_management/api/views.py:251 | A remove keeps the books unique and in the catalog and every order storable, and the removed book no longer has an item |
| Positions.ReorderedKeepsBooks | book_management/api/views.py:284-296 | A reorder changes orders only: every row keeps its place and its book |
| Positions.ReorderedKeepsWellFormed | book_management/api/views.py:288-294 | A reorder that is not rejected keeps the books unique and in the catalog and every order storable |
| Positions.ReorderedLastWins | book_management/api/views.py:284-294 | A book's item ends with the order of the last pair that names the book |
| Positions.ReorderedUnlisted | book_management/api/views.py:284-296 | An item whose book no pair names keeps its order |
| Positions.ReorderedIgnoresUnknown | book_management/api/views.py:295-296 | Pairs without a book_id, or whose book has no item, are skipped: the result is the same as when they are dropped |
| Positions.ReorderExampleMissingBook | book_management/api/views.py:285-296 | A pair without a book_id is skipped, even with a negative order: the reorder is not rejected and the list is unchanged |
| Positions.ReorderCanDuplicate | book_management/api/views.py:283-296 | Two different books whose last pairs carry the same order both end with it. The result is then not dense |
| Positions.ReorderExampleDuplicate | book_management/api/views.py:284-296 | The pair (C, 1) on A(1), B(2), C(3) is accepted and gives A(1), B(2), C(1), which is not dense |
| Positions.ReorderExampleZero | book_management/api/models.py:45 | A reorder to order 0 is accepted and stored, so the validator minimum of 1 is not kept |
| Positions.DenseIffOrdersOneToN | book_management/api/views.py:207-257 | The invariant that add (lines 207-218) and remove (lines 249-257) keep: a list is dense, with orders in 1..n and no two equal, exactly when its set of orders is {1, ..., n} |

## Left out

- Registration, login, tokens, profiles, the book and reading-list CRUD views, the owner permission, the serializers and the URL routes are not part of this model.
- HTTP status codes and response payloads are left out. Each outcome is an abstract `Error`, or the created item.
- Transactions, isolation and concurrent requests are left out. Each operation is one sequential, atomic method, and rollback restores the rows as they were.
- Timestamps (`created_at`, `added_at`, `updated_at`) and `__str__` are left out.
- The NameError from the unimported `models` name in the two range updates is not modelled. The intended shift is modelled instead.
- Request values are modelled as integers. Strings and floats are left out. A reorder pair with no `book_id` is modelled: its lookup `book_id=None` matches no row, so the pair is skipped. A null order in a reorder pair is left out: the NOT NULL column refuses it at `save()` when the book has an item, and the pair is skipped otherwise.
- Views.Store.AddBook: does not model the column's upper bound of 2147483647, because orders are unbounded integers here.
- Views.Store.Reorder: does not model the column's upper bound of 2147483647, for the same reason.
- One list per user and name is kept only as part of `Store.Valid`. No modelled operation creates or renames a list, so nothing else states it.
- The catalog of books is a fixed set. Creating and deleting books, and the cascade from deleting a book or a list, are not modelled.
- The `Store` keeps a list's rows in storage order. The ascending default ordering appears only through `Models.LastOfOrderedIsMax`. The database's choice between rows with tied orders is left out.
