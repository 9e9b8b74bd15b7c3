/** The stored entities (books/models.py:3-17) and the store that holds them. */
module Models {

  /** A `DateField` value. */
  datatype Date = Date(year: int, month: int, day: int)

  /** `Category`: only a display name. Its identity is its position in the store. */
  datatype Category = Category(name: string)

  /** `Book`. `category` is the position of the referenced category in the store;
      `distributionExpense` is the `DecimalField(decimal_places=2)` in cents. */
  datatype Book = Book(
    title: string,
    subtitle: string,
    authors: string,
    publisher: string,
    publishedDate: Date,
    category: nat,
    distributionExpense: int)

  /** The two tables: categories in creation order, books in creation order. */
  datatype Store = Store(categories: seq<Category>, books: seq<Book>)

  /** The foreign-key constraint: every book references a stored category. */
  predicate WellFormed(s: Store) {
    forall i :: 0 <= i < |s.books| ==> s.books[i].category < |s.categories|
  }

  /** `after` keeps every row of `before` in place and may only add rows after them. */
  predicate Extends(before: Store, after: Store) {
    && |before.categories| <= |after.categories|
    && after.categories[..|before.categories|] == before.categories
    && |before.books| <= |after.books|
    && after.books[..|before.books|] == before.books
  }
}
