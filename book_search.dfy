/** What the two book-list pages share: the client's book record, the
    search filter over title, author and description, and the word count
    shown next to each book. */
module BookSearch {
  import opened Base
  import opened Text

  /** A book as the browser receives it, with the fields the lists use. */
  datatype ClientBook = ClientBook(
    id: int,
    title: string,
    author: Option<string>,
    description: Option<string>,
    content: string)

  /** The search test of `onSearch`: the lower-cased query occurs in the
      lower-cased title, author or description; a missing author or
      description never matches. */
  predicate MatchesQuery(book: ClientBook, query: string): (r: bool)
    ensures query == [] ==> r
  {
    var q := Lower(query);
    || Includes(Lower(book.title), q)
    || (book.author.Some? && Includes(Lower(book.author.value), q))
    || (book.description.Some? && Includes(Lower(book.description.value), q))
  }

  /** JavaScript `books.filter(book => MatchesQuery(book, query))`. */
  function Filter(books: seq<ClientBook>, query: string): (r: seq<ClientBook>)
    ensures |r| <= |books|
  {
    if books == [] then []
    else if MatchesQuery(books[0], query) then [books[0]] + Filter(books[1..], query)
    else Filter(books[1..], query)
  }

  /** A book is in the filtered list exactly when it is in the list and
      matches. */
  lemma {:induction false} FilterMembers(books: seq<ClientBook>, query: string)
    ensures forall b :: b in Filter(books, query) <==> b in books && MatchesQuery(b, query)
  {
    if books != [] {
      FilterMembers(books[1..], query);
      assert forall b :: b in books <==> b == books[0] || b in books[1..];
    }
  }

  /** `a` is `b` with some elements left out, the rest in their order. */
  predicate IsSubsequence(a: seq<ClientBook>, b: seq<ClientBook>)
    decreases |b|
  {
    a == [] || (b != [] && ((a[0] == b[0] && IsSubsequence(a[1..], b[1..])) || IsSubsequence(a, b[1..])))
  }

  /** The filter keeps the list's order. */
  lemma {:induction false} FilterKeepsOrder(books: seq<ClientBook>, query: string)
    ensures IsSubsequence(Filter(books, query), books)
  {
    if books != [] {
      FilterKeepsOrder(books[1..], query);
    }
  }

  /** Filtering twice by the same query is filtering once. */
  lemma {:induction false} FilterIdempotent(books: seq<ClientBook>, query: string)
    ensures Filter(Filter(books, query), query) == Filter(books, query)
  {
    if books != [] {
      FilterIdempotent(books[1..], query);
      if MatchesQuery(books[0], query) {
        var r := Filter(books, query);
        assert r[0] == books[0] && r[1..] == Filter(books[1..], query);
      }
    }
  }

  /** `onSearch`: a query that trims to nothing shows every book;
      otherwise the matching books, in order. */
  function SearchResult(books: seq<ClientBook>, query: string): (r: seq<ClientBook>)
    ensures IsBlank(query) ==> r == books
    ensures |r| <= |books|
  {
    TrimProperties(query);
    if Trim(query) == [] then books else Filter(books, query)
  }

  /** A blank query shows the whole list; any other shows exactly the
      listed books that match it. */
  lemma SearchShows(books: seq<ClientBook>, query: string)
    ensures IsBlank(query) ==> SearchResult(books, query) == books
    ensures !IsBlank(query) ==>
      forall b :: b in SearchResult(books, query) <==> b in books && MatchesQuery(b, query)
  {
    TrimProperties(query);
    FilterMembers(books, query);
  }

  /** `getWordCount`: 0 for empty content, otherwise the number of pieces
      between single spaces. */
  function WordCount(content: string): (r: nat)
    ensures r == 0 <==> content == []
    ensures content != [] ==> r == Count(content, ' ') + 1
  {
    if content == [] then 0 else |Split(content, ' ')|
  }

  /** Words joined by single spaces are counted one by one. */
  lemma WordCountOfJoin(ws: seq<string>)
    requires |ws| >= 1 && Join(ws, " ") != []
    requires forall i :: 0 <= i < |ws| ==> ' ' !in ws[i]
    ensures WordCount(Join(ws, " ")) == |ws|
  {
    SplitJoin(ws, ' ');
  }

  /** The list without the books that carry this id:
      `books.filter(b => b.id !== id)`. */
  function WithoutId(books: seq<ClientBook>, id: int): (r: seq<ClientBook>)
    ensures |r| <= |books|
  {
    if books == [] then []
    else if books[0].id != id then [books[0]] + WithoutId(books[1..], id)
    else WithoutId(books[1..], id)
  }

  /** The removal drops exactly the books with that id. */
  lemma {:induction false} WithoutIdMembers(books: seq<ClientBook>, id: int)
    ensures forall b :: b in WithoutId(books, id) <==> b in books && b.id != id
  {
    if books != [] {
      WithoutIdMembers(books[1..], id);
      assert forall b :: b in books <==> b == books[0] || b in books[1..];
    }
  }

  /** The removal keeps the remaining books in the list's order. */
  lemma {:induction false} WithoutIdKeepsOrder(books: seq<ClientBook>, id: int)
    ensures IsSubsequence(WithoutId(books, id), books)
  {
    if books != [] {
      WithoutIdKeepsOrder(books[1..], id);
    }
  }

  /** Removing a book and then searching is searching and then removing the
      book. */
  lemma {:induction false} RemoveThenSearch(books: seq<ClientBook>, id: int, query: string)
    ensures SearchResult(WithoutId(books, id), query) == WithoutId(SearchResult(books, query), id)
  {
    if Trim(query) != [] && books != [] {
      RemoveThenSearch(books[1..], id, query);
    }
  }
}
