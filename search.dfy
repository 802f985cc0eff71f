/** The search page (src/components/SearchPage.tsx): the guard in front of the
    volume search, and the selection of a search result, which turns a Google
    Books volume into a store book unless the store already holds its id. */
module Search {
  import opened BookModel
  import BookStore

  const UNKNOWN_TITLE: string := "Unknown Title"
  const UNKNOWN_AUTHOR: string := "Unknown Author"
  const NO_COVER_URL: string := "https://via.placeholder.com/150x200?text=No+Cover"

  /** A volume as the Google Books API returns it; every nested field may be
      absent from the JSON. */
  datatype ImageLinks = ImageLinks(thumbnail: Option<string>)
  datatype VolumeInfo = VolumeInfo(
    title: Option<string>,
    authors: Option<seq<string>>,
    imageLinks: Option<ImageLinks>)
  datatype GoogleBook = GoogleBook(id: string, volumeInfo: Option<VolumeInfo>)

  // ---------------------------------------------------------------------
  // The optional chains, as JavaScript evaluates them
  // ---------------------------------------------------------------------

  /** `book.volumeInfo?.title` */
  function TitleOf(gb: GoogleBook): Option<string>
  {
    if gb.volumeInfo.Some? then gb.volumeInfo.value.title else None
  }

  /** `book.volumeInfo?.authors` */
  function AuthorsOf(gb: GoogleBook): Option<seq<string>>
  {
    if gb.volumeInfo.Some? then gb.volumeInfo.value.authors else None
  }

  /** `book.volumeInfo?.imageLinks?.thumbnail` */
  function ThumbnailOf(gb: GoogleBook): Option<string>
  {
    if gb.volumeInfo.Some? && gb.volumeInfo.value.imageLinks.Some? then
      gb.volumeInfo.value.imageLinks.value.thumbnail
    else None
  }

  /** `s || fallback` on a possibly undefined string: undefined and the empty
      string are falsy. */
  function StringOr(s: Option<string>, fallback: string): (r: string)
    ensures s.Some? && s.value != "" ==> r == s.value
    ensures s.None? || s.value == "" ==> r == fallback
  {
    if s.Some? && s.value != "" then s.value else fallback
  }

  /** `a || fallback` on a possibly undefined array: every array, even an
      empty one, is truthy. */
  function ArrayOr(a: Option<seq<string>>, fallback: seq<string>): (r: seq<string>)
    ensures a.Some? ==> r == a.value
    ensures a.None? ==> r == fallback
  {
    if a.Some? then a.value else fallback
  }

  // ---------------------------------------------------------------------
  // Selecting a result
  // ---------------------------------------------------------------------

  /** The `newBook` record built from a volume: its id, and each missing (or
      empty) field replaced by its fixed default; no position. */
  function ToBook(gb: GoogleBook): (r: Book)
    ensures r.id == gb.id
    ensures r.position.None?
    ensures TitleOf(gb).None? || TitleOf(gb).value == "" ==> r.title == UNKNOWN_TITLE
    ensures TitleOf(gb).Some? && TitleOf(gb).value != "" ==> r.title == TitleOf(gb).value
    ensures AuthorsOf(gb).None? ==> r.authors == [UNKNOWN_AUTHOR]
    ensures AuthorsOf(gb).Some? ==> r.authors == AuthorsOf(gb).value
    ensures ThumbnailOf(gb).None? || ThumbnailOf(gb).value == "" ==> r.coverUrl == NO_COVER_URL
    ensures ThumbnailOf(gb).Some? && ThumbnailOf(gb).value != "" ==> r.coverUrl == ThumbnailOf(gb).value
    ensures r.title != "" && r.coverUrl != ""
  {
    Book(
      gb.id,
      StringOr(TitleOf(gb), UNKNOWN_TITLE),
      ArrayOr(AuthorsOf(gb), [UNKNOWN_AUTHOR]),
      StringOr(ThumbnailOf(gb), NO_COVER_URL),
      None)
  }

  /** What the user is shown after a selection: the "already added" alert, or
      a return to the previous screen after the book was added. */
  datatype Outcome = AlreadyAdded | Added(book: Book)

  datatype Selection = Selection(store: seq<Book>, outcome: Outcome)

  /** `handleBookSelect`: a volume whose id the store already holds leaves the
      store as it is; any other volume is handed to the store's `addBook`
      once. */
  function HandleBookSelect(existing: seq<Book>, gb: GoogleBook): (r: Selection)
    ensures HasId(existing, gb.id) <==> r.outcome == AlreadyAdded
    ensures r.outcome == AlreadyAdded ==> r.store == existing
    ensures r.outcome.Added? ==>
      r.outcome.book == ToBook(gb) && r.store == BookStore.AddBook(existing, ToBook(gb))
  {
    var isDuplicate := HasId(existing, gb.id);
    if isDuplicate then Selection(existing, AlreadyAdded)
    else
      var newBook := ToBook(gb);
      Selection(BookStore.AddBook(existing, newBook), Added(newBook))
  }

  /** A selection grows the store by at most the selected volume: either
      nothing changes, or exactly one book with the volume's id, title and
      cover and a zeroed position is appended; ids stay distinct. */
  lemma SelectAppendsOnce(existing: seq<Book>, gb: GoogleBook)
    requires DistinctIds(existing)
    ensures var r := HandleBookSelect(existing, gb);
      && DistinctIds(r.store)
      && HasId(r.store, gb.id)
      && (r.outcome.Added? ==>
            && |r.store| == |existing| + 1
            && r.store[..|existing|] == existing
            && r.store[|existing|] == ToBook(gb).(position := Some(Origin)))
  {
    var r := HandleBookSelect(existing, gb);
    BookStore.AddBookKeepsDistinct(existing, ToBook(gb));
    if r.outcome.Added? {
      var b := r.store[|existing|];
      assert b.id == gb.id && b.position == Some(Origin);
    }
  }

  /** Selecting the same volume twice adds it once: the second selection
      reports the duplicate and changes nothing. */
  lemma SelectTwice(existing: seq<Book>, gb: GoogleBook)
    ensures var first := HandleBookSelect(existing, gb);
      var second := HandleBookSelect(first.store, gb);
      second.outcome == AlreadyAdded && second.store == first.store
  {
  }

  // ---------------------------------------------------------------------
  // The search guard
  // ---------------------------------------------------------------------

  /** The characters `String.prototype.trim` removes: white space and line
      terminators. */
  predicate IsJsWhitespace(c: char)
  {
    || c == '\t' || c == '\n' || c == '\U{000B}' || c == '\U{000C}' || c == '\r' || c == ' '
    || c == '\U{00A0}' || c == '\U{1680}' || ('\U{2000}' <= c <= '\U{200A}')
    || c == '\U{2028}' || c == '\U{2029}' || c == '\U{202F}' || c == '\U{205F}'
    || c == '\U{3000}' || c == '\U{FEFF}'
  }

  predicate AllWhitespace(s: string)
  {
    forall i :: 0 <= i < |s| ==> IsJsWhitespace(s[i])
  }

  /** Drops the leading white space: what is dropped is all white space, and
      what is kept is a suffix that starts with a visible character. */
  function TrimStart(s: string): (r: string)
    ensures |r| <= |s| && r == s[|s| - |r|..]
    ensures AllWhitespace(s[..|s| - |r|])
    ensures r != [] ==> !IsJsWhitespace(r[0])
  {
    if s != [] && IsJsWhitespace(s[0]) then
      var r := TrimStart(s[1..]);
      assert s[..|s| - |r|] == [s[0]] + s[1..][..|s| - 1 - |r|];
      r
    else s
  }

  /** Drops the trailing white space: what is dropped is all white space,
      and what is kept is a prefix that ends with a visible character. */
  function TrimEnd(s: string): (r: string)
    ensures |r| <= |s| && r == s[..|r|]
    ensures AllWhitespace(s[|r|..])
    ensures r != [] ==> !IsJsWhitespace(r[|r| - 1])
  {
    if s != [] && IsJsWhitespace(s[|s| - 1]) then
      var r := TrimEnd(s[..|s| - 1]);
      assert s[|r|..] == s[..|s| - 1][|r|..] + [s[|s| - 1]];
      r
    else s
  }

  /** `query.trim()`: a stretch of the query that neither starts nor ends
      with white space. */
  function Trim(s: string): (r: string)
    ensures |r| <= |s|
    ensures r != [] ==> !IsJsWhitespace(r[0]) && !IsJsWhitespace(r[|r| - 1])
  {
    TrimEnd(TrimStart(s))
  }

  /** A query is blank after trimming exactly when it holds nothing but
      white space. */
  lemma TrimBlank(s: string)
    ensures Trim(s) == [] <==> AllWhitespace(s)
  {
    var t := TrimStart(s);
    var k := |s| - |t|;
    if Trim(s) == [] {
      assert t == [];
      forall i | 0 <= i < |s| ensures IsJsWhitespace(s[i]) {
        assert s[..k][i] == s[i];
      }
    }
  }

  /** How the fetch for a non-blank query ended: a JSON body with or without
      an `items` field, or an exception. */
  datatype Response = Items(items: seq<GoogleBook>) | NoItems | FetchFailed

  /** The page's search state: the result list and the loading flag. */
  datatype SearchState = SearchState(results: seq<GoogleBook>, loading: bool)

  /** Whether `searchBooks` goes to the network for this query. */
  predicate Fetches(query: string)
  {
    Trim(query) != []
  }

  /** `searchBooks(query)`, with the fetch's outcome as a parameter: a blank
      query clears the results without fetching and leaves the loading flag
      alone; otherwise the results become the response's items (none when
      the body lacks them, unchanged when the fetch failed) and loading ends
      false. */
  function SearchBooks(st: SearchState, query: string, response: Response): (r: SearchState)
    ensures !Fetches(query) ==> r == SearchState([], st.loading)
    ensures Fetches(query) ==> !r.loading
    ensures Fetches(query) && response.Items? ==> r.results == response.items
    ensures Fetches(query) && response.NoItems? ==> r.results == []
    ensures Fetches(query) && response.FetchFailed? ==> r.results == st.results
  {
    if Trim(query) == [] then st.(results := [])
    else
      var results :=
        match response
        case Items(items) => items
        case NoItems => []
        case FetchFailed => st.results;
      SearchState(results, false)
  }

  /** A query made only of white space never reaches the network, and
      clears the results whatever the response would have been. */
  lemma BlankQueryClears(st: SearchState, query: string, response: Response)
    requires AllWhitespace(query)
    ensures !Fetches(query)
    ensures SearchBooks(st, query, response).results == []
  {
    TrimBlank(query);
  }

  /** A query with any visible character is fetched. */
  lemma VisibleQueryFetches(query: string, i: nat)
    requires i < |query| && !IsJsWhitespace(query[i])
    ensures Fetches(query)
  {
    TrimBlank(query);
  }
}
