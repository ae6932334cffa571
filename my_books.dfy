/** The page listing the signed-in user's own books: search as on the
    public list, and removal of a book once the server has deleted it. */
module MyBooks {
  import opened Text
  import opened BookSearch

  const DeleteFailed := "Error deleting book. Please try again."

  class MyBooksComponent {
    var userBooks: seq<ClientBook>
    var filteredBooks: seq<ClientBook>
    var searchQuery: string
    var errorMessage: string

    /** The page after `loadUserBooks` has received `books`. */
    constructor(books: seq<ClientBook>)
      ensures userBooks == books && filteredBooks == books && searchQuery == "" && errorMessage == ""
    {
      userBooks := books;
      filteredBooks := books;
      searchQuery := "";
      errorMessage := "";
    }

    /** `onSearch`: the shown list becomes the search result over the
        user's books. */
    method OnSearch()
      modifies this`filteredBooks
      ensures filteredBooks == SearchResult(userBooks, searchQuery)
    {
      if Trim(searchQuery) == [] {
        filteredBooks := userBooks;
        return;
      }
      filteredBooks := Filter(userBooks, searchQuery);
    }

    /** `deleteBook`: nothing happens unless the user confirms; then, when
        the server reports success, every book with that id leaves the
        user's list and the search runs again; when it reports an error,
        only the error message is set. */
    method DeleteBook(book: ClientBook, confirmed: bool, serverAccepted: bool)
      modifies this`userBooks, this`filteredBooks, this`errorMessage
      ensures !confirmed ==> unchanged(this)
      ensures confirmed && serverAccepted ==>
        && userBooks == WithoutId(old(userBooks), book.id)
        && filteredBooks == SearchResult(userBooks, searchQuery)
        && errorMessage == old(errorMessage)
      ensures confirmed && !serverAccepted ==>
        && userBooks == old(userBooks) && filteredBooks == old(filteredBooks)
        && errorMessage == DeleteFailed
    {
      if confirmed {
        if serverAccepted {
          userBooks := WithoutId(userBooks, book.id);
          OnSearch();
        } else {
          errorMessage := DeleteFailed;
        }
      }
    }
  }

  /** After a deletion the deleted book is shown nowhere, and what is shown
      is what the search showed before, minus that book. */
  lemma DeletedBookHidden(books: seq<ClientBook>, id: int, query: string)
    ensures forall b :: b in SearchResult(WithoutId(books, id), query) ==> b.id != id
    ensures SearchResult(WithoutId(books, id), query) == WithoutId(SearchResult(books, query), id)
  {
    RemoveThenSearch(books, id, query);
    WithoutIdMembers(SearchResult(books, query), id);
  }
}
