/** The earlier React-context store (BookContext.js): the same add and remove
    actions as the collection store, but `addBook` appends without looking
    for a book that already carries the id. */
module BookContext {
  import opened JsArray
  import opened BookModel
  import BookStore

  /** `addBook`: always appends the book exactly as given, so the number of
      books carrying its id grows by one even when the id is already present. */
  function AddBook(books: seq<Book>, book: Book): (r: seq<Book>)
    ensures |r| == |books| + 1 && r[..|books|] == books && r[|books|] == book
    ensures CountId(r, book.id) == CountId(books, book.id) + 1
  {
    CountConcat(books, [book], (b: Book) => b.id == book.id);
    books + [book]
  }

  /** `removeBook`: the same filter as the collection store's; it drops every
      book carrying `id` and keeps all the others, in their original order. */
  function RemoveBook(books: seq<Book>, id: string): (r: seq<Book>)
    ensures !HasId(r, id)
    ensures SubsequenceOf(r, books)
    ensures forall i :: 0 <= i < |books| && books[i].id != id ==> books[i] in r
    ensures |r| + CountId(books, id) == |books|
    ensures !HasId(books, id) ==> r == books
  {
    BookStore.RemoveBook(books, id)
  }

  /** Adding a book whose id is present leaves two books with that id. */
  lemma AddBookAdmitsDuplicate(books: seq<Book>, book: Book)
    requires HasId(books, book.id)
    ensures CountId(AddBook(books, book), book.id) >= 2
    ensures !DistinctIds(AddBook(books, book))
  {
    CountIdPositive(books, book.id);
    var i :| 0 <= i < |books| && books[i].id == book.id;
    var r := AddBook(books, book);
    assert r[i] == books[i] && r[|books|] == book;
  }

  /** The contrast with the collection store: from the same duplicate-free
      list, the collection store ignores a repeated id while this store
      breaks the invariant. */
  lemma DuplicateAddContrast(books: seq<Book>, book: Book)
    requires DistinctIds(books) && HasId(books, book.id)
    ensures BookStore.AddBook(books, book) == books
    ensures DistinctIds(BookStore.AddBook(books, book))
    ensures !DistinctIds(AddBook(books, book))
  {
    AddBookAdmitsDuplicate(books, book);
  }

  /** One removal clears every copy, however many times the book was added. */
  lemma RemoveDropsEveryCopy(books: seq<Book>, book: Book)
    ensures RemoveBook(AddBook(AddBook(books, book), book), book.id) == RemoveBook(books, book.id)
  {
    FilterConcat(books, [book, book], IdIsNot(book.id));
    assert AddBook(AddBook(books, book), book) == books + [book, book];
    assert Filter([book, book], IdIsNot(book.id)) == [];
  }
}
