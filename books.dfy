/** The public book list page: all public books, narrowed by a search
    query. */
module Books {
  import opened Text
  import opened BookSearch

  class BooksComponent {
    var allBooks: seq<ClientBook>
    var filteredBooks: seq<ClientBook>
    var searchQuery: string

    /** The page after `loadBooks` has received `books`. */
    constructor(books: seq<ClientBook>)
      ensures allBooks == books && filteredBooks == books && searchQuery == ""
    {
      allBooks := books;
      filteredBooks := books;
      searchQuery := "";
    }

    /** `onSearch`: the shown list becomes the search result over all
        books; the loaded list and the query are kept. */
    method OnSearch()
      modifies this`filteredBooks
      ensures filteredBooks == SearchResult(allBooks, searchQuery)
    {
      if Trim(searchQuery) == [] {
        filteredBooks := allBooks;
        return;
      }
      filteredBooks := Filter(allBooks, searchQuery);
    }
  }
}
