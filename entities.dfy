/** The server's stored records, with the fields the modelled operations
    read or write. Dates are instants given as integers (ticks). */
module Entities {
  import opened Base

  datatype Book = Book(
    id: int,
    title: string,
    author: Option<string>,
    description: Option<string>,
    personalBest: int,
    content: string,
    isPublic: bool,
    addedAt: int,
    userId: Option<int>)

  datatype TypingTest = TypingTest(
    id: int,
    wpm: int,
    accuracy: real,
    errors: int,
    time: int,
    date: int,
    charactersTyped: int,
    bookId: int,
    userId: int)
}
