/**
 The records of the book-library application and the responses its controller
 gives. Records are values: the controller's store holds them in tables.
 */
module Models {

  /** A value that may be absent (a C# null). */
  datatype Option<+T> = None | Some(value: T)

  /** A row of the Books table. */
  datatype Book = Book(bookId: int, title: string, genre: string, author: string, rating: int)

  /**
   A row of the UserBooks table: a user's membership of a book in a named list.
   The user id may be absent, because the actions that create and edit entries
   take the current user's id without checking it for null.
   */
  datatype LibraryEntry = LibraryEntry(userId: Option<string>, bookId: int, listName: string)

  /** A row of the Reviews table; `datePosted` is the server clock at insertion. */
  datatype Review = Review(reviewId: int, bookId: int, userId: string, rating: int,
                           content: string, datePosted: int)

  /** A library entry joined with its book (`Include(x => x.Book)`). */
  datatype EntryRow = EntryRow(entry: LibraryEntry, book: Option<Book>)

  /** A review joined with its book (`Include(r => r.Book)`). */
  datatype ReviewRow = ReviewRow(review: Review, book: Option<Book>)

  /** The data a rendered view carries. */
  datatype ViewModel =
    | BlankForm                                      // the empty create form
    | BookPage(book: Book)                           // a book shown or re-displayed in a form
    | EditPage(book: Book, listName: Option<string>) // the edit form with the caller's list name as a hint
    | DetailPage(book: Book, reviews: seq<Review>)   // a book with all its reviews
    | LibraryPage(entryRows: seq<EntryRow>)          // the caller's library
    | ReviewListPage(reviewRows: seq<ReviewRow>)     // the caller's reviews
    | ReviewPage(reviewRow: ReviewRow)               // one review awaiting delete confirmation

  /** What an action answers: a view, a 404, or one of the redirects the controller issues. */
  datatype ActionResult =
    | View(data: ViewModel)
    | NotFound
    | RedirectIndex
    | RedirectMyReviews
    | RedirectLogin
}
