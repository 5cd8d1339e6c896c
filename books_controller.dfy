/**
 The books controller over an in-memory store of its three tables. Each POST
 action is a method that changes the tables; each GET action is a function
 that only reads them. What the controller takes from its surroundings is
 passed in: the current user (absent for an anonymous caller), the
 model-validation verdict, the clock and the ids the database generates.
 */
module Books {
  import opened Models
  import opened Queries
  import opened Consistency

  const DefaultListName: string := "General"

  /** The ListName stored for a submitted one: a missing or empty name becomes "General". */
  function ListNameOrDefault(listName: Option<string>): (r: string)
    ensures r != []
    ensures listName.Some? && listName.value != [] ==> r == listName.value
    ensures listName.None? || listName.value == [] ==> r == DefaultListName
  {
    if listName.None? || listName.value == [] then DefaultListName else listName.value
  }

  /** GET Create: the empty form; it reads nothing from the store. */
  function CreateForm(): (r: ActionResult)
    ensures r.View? && r.data.BlankForm?
  {
    View(BlankForm)
  }

  class BooksController {
    var books: seq<Book>
    var userBooks: seq<LibraryEntry>
    var reviews: seq<Review>

    ghost predicate Valid()
      reads this
    {
      Consistent(books, userBooks, reviews)
    }

    constructor (books0: seq<Book>, userBooks0: seq<LibraryEntry>, reviews0: seq<Review>)
      requires Consistent(books0, userBooks0, reviews0)
      ensures Valid()
      ensures books == books0 && userBooks == userBooks0 && reviews == reviews0
    {
      books, userBooks, reviews := books0, userBooks0, reviews0;
    }

    // -------------------------------------------------------------------------
    // Reads
    // -------------------------------------------------------------------------

    /** `_db.Books.Any(e => e.BookId == id)`. */
    function BookExists(id: int): (r: bool)
      reads this
      ensures r <==> HasBook(books, id)
    {
      IndexOfBook(books, id).Some?
    }

    /**
     GET Index: the caller's library entries, each joined with its book, in
     ascending order of ListName; a login redirect for an anonymous caller.
     */
    function Index(user: Option<string>): (r: ActionResult)
      reads this
      ensures user.None? <==> r == RedirectLogin
      ensures user.Some? ==> r.View? && r.data.LibraryPage?
      ensures user.Some? ==> SortedByListName(RowEntries(r.data.entryRows))
      ensures user.Some? ==> forall e :: multiset(RowEntries(r.data.entryRows))[e] ==
                                        if e.userId == user then multiset(userBooks)[e] else 0
      ensures user.Some? ==> forall row :: row in r.data.entryRows ==> row.book == FindBook(books, row.entry.bookId)
    {
      if user.None? then RedirectLogin
      else
        var sorted := SortByListName(EntriesOfUser(userBooks, user));
        var rows := JoinEntryBooks(sorted, books);
        assert RowEntries(rows) == sorted;
        View(LibraryPage(rows))
    }

    /** GET Details: the book with all its reviews, or NotFound. */
    function Details(id: Option<int>): (r: ActionResult)
      reads this
      ensures r == NotFound <==> id.None? || !HasBook(books, id.value)
      ensures r != NotFound ==> r.View? && r.data.DetailPage?
      ensures r != NotFound ==> r.data.book in books && r.data.book.bookId == id.value
      ensures r != NotFound ==> forall v :: multiset(r.data.reviews)[v] ==
                                            if v.bookId == id.value then multiset(reviews)[v] else 0
    {
      if id.None? then NotFound
      else match FindBook(books, id.value)
        case None => NotFound
        case Some(b) => View(DetailPage(b, ReviewsOfBook(reviews, id.value)))
    }

    /** GET Edit: the book, with the caller's ListName for it as a hint, or NotFound. */
    function EditForm(id: Option<int>, user: Option<string>): (r: ActionResult)
      reads this
      ensures r == NotFound <==> id.None? || !HasBook(books, id.value)
      ensures r != NotFound ==> r.View? && r.data.EditPage?
      ensures r != NotFound ==> r.data.book in books && r.data.book.bookId == id.value
      ensures r != NotFound ==>
        (r.data.listName.Some? <==> exists e :: e in userBooks && e.bookId == id.value && e.userId == user)
      ensures r != NotFound && r.data.listName.Some? ==>
        LibraryEntry(user, id.value, r.data.listName.value) in userBooks
    {
      if id.None? then NotFound
      else match FindBook(books, id.value)
        case None => NotFound
        case Some(b) =>
          var hint := match IndexOfEntry(userBooks, id.value, user)
            case None => None
            case Some(k) => Some(userBooks[k].listName);
          View(EditPage(b, hint))
    }

    /** GET Delete: the book awaiting confirmation, or NotFound. */
    function DeleteForm(id: Option<int>): (r: ActionResult)
      reads this
      ensures r == NotFound <==> id.None? || !HasBook(books, id.value)
      ensures r != NotFound ==> r.View? && r.data.BookPage?
      ensures r != NotFound ==> r.data.book in books && r.data.book.bookId == id.value
    {
      if id.None? then NotFound
      else match FindBook(books, id.value)
        case None => NotFound
        case Some(b) => View(BookPage(b))
    }

    /** GET WriteReview: the book to be reviewed, or NotFound. */
    function ReviewForm(id: Option<int>): (r: ActionResult)
      reads this
      ensures r == NotFound <==> id.None? || !HasBook(books, id.value)
      ensures r != NotFound ==> r.View? && r.data.BookPage?
      ensures r != NotFound ==> r.data.book in books && r.data.book.bookId == id.value
    {
      if id.None? then NotFound
      else match FindBook(books, id.value)
        case None => NotFound
        case Some(b) => View(BookPage(b))
    }

    /**
     GET MyReviews: the caller's reviews, each joined with its book, newest
     first; a login redirect for an anonymous caller.
     */
    function MyReviews(user: Option<string>): (r: ActionResult)
      reads this
      ensures user.None? <==> r == RedirectLogin
      ensures user.Some? ==> r.View? && r.data.ReviewListPage?
      ensures user.Some? ==> NewestFirst(RowReviews(r.data.reviewRows))
      ensures user.Some? ==> forall v :: multiset(RowReviews(r.data.reviewRows))[v] ==
                                        if Some(v.userId) == user then multiset(reviews)[v] else 0
      ensures user.Some? ==> forall row :: row in r.data.reviewRows ==> row.book == FindBook(books, row.review.bookId)
    {
      if user.None? then RedirectLogin
      else
        var sorted := SortNewestFirst(ReviewsOfUser(reviews, user.value));
        var rows := JoinReviewBooks(sorted, books);
        assert RowReviews(rows) == sorted;
        View(ReviewListPage(rows))
    }

    /** The review with this id exists and was written by `user`. */
    function IsAuthor(id: int, user: Option<string>): (r: bool)
      reads this
      requires UniqueReviewIds(reviews)
      ensures r <==> exists v :: v in reviews && v.reviewId == id && Some(v.userId) == user
    {
      match FindReview(reviews, id)
      case None => false
      case Some(v) => Some(v.userId) == user
    }

    /**
     GET DeleteReview: NotFound for a missing id or review, a redirect to the
     library when the caller did not write it, and otherwise the review with
     its book awaiting confirmation.
     */
    function DeleteReviewForm(id: Option<int>, user: Option<string>): (r: ActionResult)
      reads this
      ensures r == NotFound <==> id.None? || forall v :: v in reviews ==> v.reviewId != id.value
      ensures r == RedirectIndex <==>
        id.Some? && FindReview(reviews, id.value).Some? && Some(FindReview(reviews, id.value).value.userId) != user
      ensures r.View? ==> r.data.ReviewPage?
      ensures r.View? ==> var row := r.data.reviewRow;
        row.review in reviews && row.review.reviewId == id.value && Some(row.review.userId) == user
        && row.book == FindBook(books, row.review.bookId)
      ensures r == NotFound || r == RedirectIndex || r.View?
    {
      if id.None? then NotFound
      else match FindReview(reviews, id.value)
        case None => NotFound
        case Some(v) =>
          if Some(v.userId) != user then RedirectIndex
          else View(ReviewPage(ReviewRow(v, FindBook(books, v.bookId))))
    }

    /** In a consistent store every row of the library listing finds its book. */
    lemma LibraryRowsHaveBooks(user: Option<string>)
      requires Valid()
      requires user.Some?
      ensures forall row :: row in Index(user).data.entryRows ==> row.book.Some?
    {

    }

    // -------------------------------------------------------------------------
    // Changes
    // -------------------------------------------------------------------------

    /**
     POST Create. A valid submission adds the book under the id the database
     generated (the posted BookId is taken as unset), then one entry linking
     the caller to it under the normalised ListName, and redirects to the
     library; an invalid one re-displays the form.
     */
    method Create(newBook: Book, listName: Option<string>, user: Option<string>, isValid: bool, newId: int)
      returns (r: ActionResult)
      requires Valid()
      requires newId != 0 && !HasBook(books, newId)
      modifies this
      ensures Valid()
      ensures !isValid ==> r == View(BookPage(newBook)) && unchanged(this)
      ensures isValid ==> r == RedirectIndex
      ensures isValid ==> books == old(books) + [newBook.(bookId := newId)]
      ensures isValid ==> userBooks == old(userBooks) + [LibraryEntry(user, newId, ListNameOrDefault(listName))]
      ensures isValid ==> reviews == old(reviews)
      ensures isValid ==> EntriesForBook(userBooks, newId) == [LibraryEntry(user, newId, ListNameOrDefault(listName))]
    {
      if !isValid {
        return View(BookPage(newBook));
      }
      var stored := newBook.(bookId := newId);
      books := books + [stored];
      var entry := LibraryEntry(user, stored.bookId, ListNameOrDefault(listName));
      userBooks := userBooks + [entry];
      r := RedirectIndex;
      AddBookKeepsConsistent(old(books), old(userBooks), reviews, stored, entry);
    }

    /**
     POST Edit. NotFound when the route id and the submitted id differ, or
     when the book is gone by the time the update is saved; the form again
     when validation fails. A submitted id of 0 is the unset key, so `Update`
     inserts the book under the id the database generates, and no entry
     matches it. Otherwise the submitted book replaces the stored one and, if
     the caller has an entry for it, that entry takes the normalised ListName.
     */
    method Edit(id: int, bookData: Book, listName: Option<string>, user: Option<string>, isValid: bool,
                newId: int)
      returns (r: ActionResult)
      requires Valid()
      requires newId != 0 && !HasBook(books, newId)
      modifies this
      ensures Valid()
      ensures id != bookData.bookId ==> r == NotFound && unchanged(this)
      ensures id == bookData.bookId && !isValid ==> r == View(BookPage(bookData)) && unchanged(this)
      ensures id == bookData.bookId && isValid && id == 0 ==>
        && r == RedirectIndex
        && books == old(books) + [bookData.(bookId := newId)]
        && userBooks == old(userBooks)
        && reviews == old(reviews)
      ensures id == bookData.bookId && isValid && id != 0 && !old(HasBook(books, id)) ==>
        r == NotFound && unchanged(this)
      ensures id == bookData.bookId && isValid && old(HasBook(books, id)) ==>
        && r == RedirectIndex
        && |books| == |old(books)|
        && (forall k :: 0 <= k < |books| ==>
              books[k] == if old(books)[k].bookId == id then bookData else old(books)[k])
        && |userBooks| == |old(userBooks)|
        && (forall k :: 0 <= k < |userBooks| ==>
              userBooks[k] == if old(userBooks)[k].bookId == id && old(userBooks)[k].userId == user
                              then old(userBooks)[k].(listName := ListNameOrDefault(listName))
                              else old(userBooks)[k])
        && reviews == old(reviews)
    {
      if id != bookData.bookId {
        return NotFound;
      }
      if !isValid {
        return View(BookPage(bookData));
      }
      if id == 0 {
        NoEntryForUnsetKey(books, userBooks, reviews, user);
        InsertBookKeepsConsistent(books, userBooks, reviews, bookData.(bookId := newId));
        books := books + [bookData.(bookId := newId)];
        return RedirectIndex;
      }
      if !BookExists(bookData.bookId) {
        // SaveChanges reports a concurrency conflict and the handler finds no book.
        return NotFound;
      }
      var i := IndexOfBook(books, id).value;
      books := books[i := bookData];
      var j := IndexOfEntry(userBooks, id, user);
      if j.Some? {
        userBooks := userBooks[j.value := userBooks[j.value].(listName := ListNameOrDefault(listName))];
      }
      r := RedirectIndex;
      ReplaceBookKeepsConsistent(old(books), old(userBooks), reviews, i, bookData,
                                 user, ListNameOrDefault(listName));
    }

    /**
     POST Delete. When the book exists, removes every entry and every review
     that references it and then the book; a missing id changes nothing.
     Always redirects to the library.
     */
    method DeleteConfirmed(id: int) returns (r: ActionResult)
      requires Valid()
      modifies this
      ensures Valid()
      ensures r == RedirectIndex
      ensures !old(HasBook(books, id)) ==> unchanged(this)
      ensures old(HasBook(books, id)) ==>
        && |books| == |old(books)| - 1
        && (forall b :: b in books <==> b in old(books) && b.bookId != id)
        && userBooks == EntriesNotForBook(old(userBooks), id)
        && reviews == ReviewsNotForBook(old(reviews), id)
      ensures !HasBook(books, id) && forall e :: e in userBooks ==> e.bookId != id
      ensures old(HasBook(books, id)) ==> forall v :: v in reviews ==> v.bookId != id
    {
      var i := IndexOfBook(books, id);
      if i.Some? {
        userBooks := EntriesNotForBook(userBooks, id);
        reviews := ReviewsNotForBook(reviews, id);
        RemoveUniqueBook(books, i.value);
        books := RemoveAt(books, i.value);
        forall e | e in userBooks ensures HasBook(books, e.bookId) {
          assert e in old(userBooks);
          var b :| b in old(books) && b.bookId == e.bookId;
          assert b in books;
        }
        DropBookKeepsUniqueMemberships(old(userBooks), id);
        DropBookKeepsUniqueReviewIds(old(reviews), id);
      }
      r := RedirectIndex;
    }

    /**
     POST WriteReview. An anonymous caller is redirected to log in. Otherwise
     one review by the caller, stamped with the clock, is added, whether or not
     the book exists, and the caller is redirected to the library.
     */
    method WriteReview(bookId: int, rating: int, content: string, user: Option<string>, now: int, newReviewId: int)
      returns (r: ActionResult)
      requires Valid()
      requires forall v :: v in reviews ==> v.reviewId != newReviewId
      modifies this
      ensures Valid()
      ensures user.None? ==> r == RedirectLogin && unchanged(this)
      ensures user.Some? ==> r == RedirectIndex
      ensures user.Some? ==> reviews == old(reviews) + [Review(newReviewId, bookId, user.value, rating, content, now)]
      ensures books == old(books) && userBooks == old(userBooks)
    {
      if user.None? {
        return RedirectLogin;
      }
      var review := Review(newReviewId, bookId, user.value, rating, content, now);
      reviews := reviews + [review];
      r := RedirectIndex;
    }

    /**
     POST DeleteReview. Removes the review exactly when it exists and the
     caller wrote it; otherwise nothing changes. Always redirects to the
     caller's reviews.
     */
    method DeleteReviewConfirmed(id: int, user: Option<string>) returns (r: ActionResult)
      requires Valid()
      modifies this
      ensures Valid()
      ensures r == RedirectMyReviews
      ensures books == old(books) && userBooks == old(userBooks)
      ensures old(IsAuthor(id, user)) <==> reviews != old(reviews)
      ensures old(IsAuthor(id, user)) ==>
        |reviews| == |old(reviews)| - 1 && forall v :: v in reviews <==> v in old(reviews) && v.reviewId != id
      ensures !old(IsAuthor(id, user)) ==> reviews == old(reviews)
    {
      var i := IndexOfReview(reviews, id);
      if i.Some? && Some(reviews[i.value].userId) == user {
        RemoveUniqueReview(reviews, i.value);
        reviews := RemoveAt(reviews, i.value);
      }
      r := RedirectMyReviews;
    }
  }

  // ---------------------------------------------------------------------------
  // Two request sequences, followed from an empty store
  // ---------------------------------------------------------------------------

  /**
   A user adds "Dune" with an empty ListName; their library then lists one
   entry, under "General", for the new book.
   */
  method DuneScenario(user: string, newId: int) returns (library: ActionResult)
    requires newId != 0
    ensures library == View(LibraryPage([EntryRow(LibraryEntry(Some(user), newId, "General"),
                                                  Some(Book(newId, "Dune", "SciFi", "Herbert", 5)))]))
  {
    var store := new BooksController([], [], []);
    var dune := Book(0, "Dune", "SciFi", "Herbert", 5);
    var created := store.Create(dune, Some(""), Some(user), true, newId);
    var entry := LibraryEntry(Some(user), newId, "General");
    SingleEntryListing(entry, store.books);
    library := store.Index(Some(user));
  }

  /** The listing of a table holding one entry of its user is that entry, joined. */
  lemma SingleEntryListing(e: LibraryEntry, books: seq<Book>)
    ensures JoinEntryBooks(SortByListName(EntriesOfUser([e], e.userId)), books) == [EntryRow(e, FindBook(books, e.bookId))]
  {

  }

  /** The listing of a table holding one review of its author is that review, joined. */
  lemma SingleReviewListing(v: Review, books: seq<Book>)
    ensures JoinReviewBooks(SortNewestFirst(ReviewsOfUser([v], v.userId)), books) == [ReviewRow(v, FindBook(books, v.bookId))]
  {

  }

  /**
   User `a` reviews book 7; user `b` then asks to delete that review. The
   review survives and still heads `a`'s list of reviews.
   */
  method ForeignDeleteScenario(a: string, b: string, reviewId: int, now: int) returns (mine: ActionResult)
    requires a != b
    ensures mine == View(ReviewListPage([ReviewRow(Review(reviewId, 7, a, 4, "Gripping", now), None)]))
  {
    var store := new BooksController([], [], []);
    var written := store.WriteReview(7, 4, "Gripping", Some(a), now, reviewId);
    var review := Review(reviewId, 7, a, 4, "Gripping", now);
    var deleted := store.DeleteReviewConfirmed(reviewId, Some(b));
    SingleReviewListing(review, store.books);
    mine := store.MyReviews(Some(a));
  }
}
