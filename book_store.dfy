/** The zustand collection store (src/store/useBookStore.ts): every action is
    a `set` updater that builds a new list of books from the old one. */
module BookStore {
  import opened JsArray
  import opened BookModel

  /** `addBook`: a book whose id is already present is ignored; any other book
      is appended as a copy whose position is zeroed. */
  function AddBook(books: seq<Book>, book: Book): (r: seq<Book>)
    ensures HasId(books, book.id) ==> r == books
    ensures !HasId(books, book.id) ==>
      && |r| == |books| + 1
      && r[..|books|] == books
      && r[|books|].id == book.id
      && r[|books|].title == book.title
      && r[|books|].authors == book.authors
      && r[|books|].coverUrl == book.coverUrl
      && r[|books|].position == Some(Origin)
    ensures HasId(r, book.id)
  {
    if HasId(books, book.id) then books
    else
      var r := books + [book.(position := Some(Origin))];
      assert r[|books|].id == book.id;
      r
  }

  /** `removeBook`: drops every book carrying `id` and keeps all the others,
      in their original order. */
  function RemoveBook(books: seq<Book>, id: string): (r: seq<Book>)
    ensures !HasId(r, id)
    ensures SubsequenceOf(r, books)
    ensures forall i :: 0 <= i < |books| && books[i].id != id ==> books[i] in r
    ensures |r| + CountId(books, id) == |books|
    ensures !HasId(books, id) ==> r == books
  {
    CountComplement(books, (b: Book) => b.id == id, IdIsNot(id));
    if !HasId(books, id) then
      FilterKeepsAll(books, IdIsNot(id));
      Filter(books, IdIsNot(id))
    else
      Filter(books, IdIsNot(id))
  }

  /** `updateBookPosition`: rewrites the position of the books carrying `id`;
      every other field, and every other book, is left as it was. */
  function UpdateBookPosition(books: seq<Book>, id: string, position: Option<Position>): (r: seq<Book>)
    ensures |r| == |books|
    ensures forall i :: 0 <= i < |books| ==>
      && r[i].id == books[i].id
      && r[i].title == books[i].title
      && r[i].authors == books[i].authors
      && r[i].coverUrl == books[i].coverUrl
      && r[i].position == (if books[i].id == id then position else books[i].position)
    ensures !HasId(books, id) ==> r == books
  {
    seq(|books|, i requires 0 <= i < |books| =>
      if books[i].id == id then books[i].(position := position) else books[i])
  }

  /** Adding keeps the store free of duplicate ids. */
  lemma AddBookKeepsDistinct(books: seq<Book>, book: Book)
    requires DistinctIds(books)
    ensures DistinctIds(AddBook(books, book))
  {
  }

  /** Removing keeps the store free of duplicate ids. */
  lemma RemoveBookKeepsDistinct(books: seq<Book>, id: string)
    requires DistinctIds(books)
    ensures DistinctIds(RemoveBook(books, id))
  {
    SubsequenceKeepsDistinct(RemoveBook(books, id), books);
  }

  /** Moving a book keeps the store free of duplicate ids. */
  lemma UpdateBookPositionKeepsDistinct(books: seq<Book>, id: string, position: Option<Position>)
    requires DistinctIds(books)
    ensures DistinctIds(UpdateBookPosition(books, id, position))
  {
  }

  /** A second add of the same book changes nothing. */
  lemma AddBookIdempotent(books: seq<Book>, book: Book)
    ensures AddBook(AddBook(books, book), book) == AddBook(books, book)
  {
  }

  /** Round trip: adding a book whose id is new and then removing that id
      gives back the original list. */
  lemma AddThenRemove(books: seq<Book>, book: Book)
    requires !HasId(books, book.id)
    ensures RemoveBook(AddBook(books, book), book.id) == books
  {
    var added := book.(position := Some(Origin));
    assert AddBook(books, book) == books + [added];
    FilterConcat(books, [added], IdIsNot(book.id));
    FilterKeepsAll(books, IdIsNot(book.id));
    assert Filter([added], IdIsNot(book.id)) == [];
  }

  /** Removing after moving a book is the same as removing it directly: the
      position rewrite touches nothing that survives the removal. */
  lemma {:induction false} UpdateThenRemove(books: seq<Book>, id: string, position: Option<Position>)
    ensures RemoveBook(UpdateBookPosition(books, id, position), id) == RemoveBook(books, id)
  {
    if books != [] {
      var u := UpdateBookPosition(books, id, position);
      assert u == [u[0]] + u[1..];
      assert books == [books[0]] + books[1..];
      assert u[1..] == UpdateBookPosition(books[1..], id, position);
      FilterConcat([u[0]], u[1..], IdIsNot(id));
      FilterConcat([books[0]], books[1..], IdIsNot(id));
      UpdateThenRemove(books[1..], id, position);
      assert RemoveBook(u[1..], id) == RemoveBook(books[1..], id);
      if books[0].id != id {
        assert u[0] == books[0];
      }
    }
  }
}
