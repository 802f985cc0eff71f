/** The `Book` record that the collection stores hold and the shelf reads
    (src/types/index.ts), with the id queries both stores use. */
module BookModel {
  import opened JsArray

  datatype Option<T> = None | Some(value: T)

  /** A book's optional placement: three coordinates and a rotation. */
  datatype Position = Position(x: real, y: real, z: real, rotation: real)

  /** The zeroed placement the store gives every book it accepts. */
  const Origin: Position := Position(0.0, 0.0, 0.0, 0.0)

  datatype Book = Book(
    id: string,
    title: string,
    authors: seq<string>,
    coverUrl: string,
    position: Option<Position>)

  /** `books.some(b => b.id === id)` */
  predicate HasId(books: seq<Book>, id: string)
  {
    exists i :: 0 <= i < |books| && books[i].id == id
  }

  /** The collection invariant: no two books share an id. */
  predicate DistinctIds(books: seq<Book>)
  {
    forall i, j :: 0 <= i < j < |books| ==> books[i].id != books[j].id
  }

  /** The test `book => book.id !== id` that both stores filter with. */
  function IdIsNot(id: string): Book -> bool
  {
    (b: Book) => b.id != id
  }

  /** Number of books carrying `id`. */
  function CountId(books: seq<Book>, id: string): nat
  {
    Count(books, (b: Book) => b.id == id)
  }

  /** A list holds `id` exactly when it counts at least one book with it. */
  lemma {:induction false} CountIdPositive(books: seq<Book>, id: string)
    ensures HasId(books, id) <==> CountId(books, id) > 0
  {
    if books != [] {
      CountIdPositive(books[1..], id);
      if books[0].id != id && HasId(books, id) {
        var i :| 0 <= i < |books| && books[i].id == id;
        assert books[1..][i - 1].id == id;
      }
      if HasId(books[1..], id) {
        var i :| 0 <= i < |books[1..]| && books[1..][i].id == id;
        assert books[i + 1].id == id;
      }
    }
  }

  /** Deleting books never creates a clash of ids. */
  lemma {:induction false} SubsequenceKeepsDistinct(r: seq<Book>, s: seq<Book>)
    requires SubsequenceOf(r, s)
    requires DistinctIds(s)
    ensures DistinctIds(r)
    decreases |s|
  {
    if r != [] {
      assert s != [];
      if r[0] == s[0] && SubsequenceOf(r[1..], s[1..]) {
        SubsequenceKeepsDistinct(r[1..], s[1..]);
        SubsequenceMembers(r[1..], s[1..]);
        forall j | 0 < j < |r| ensures r[0].id != r[j].id {
          assert r[1..][j - 1] == r[j];
          var k :| 0 <= k < |s[1..]| && s[1..][k] == r[j];
          assert s[k + 1] == r[j];
        }
      } else {
        SubsequenceKeepsDistinct(r, s[1..]);
      }
    }
  }
}
