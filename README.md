# BookEater books controller, modelled in Dafny

BookEater is a personal book-library web application. Its `BooksController`
lets a signed-in user keep books in named lists and write and delete reviews.
The controller works on three tables:

- **Books** (id, title, genre, author, rating);
- **UserBooks**, the library entries (user id, book id, ListName);
- **Reviews** (id, book id, author's user id, rating, content, date posted).

This project models the controller as a state machine over an in-memory store
of those three tables.

- `models.dfy` (module `Models`) holds the records, and the view data and
  results an action returns. A result is `View(data)`, `NotFound`,
  `RedirectIndex`, `RedirectMyReviews` or `RedirectLogin`.
- `queries.dfy` (module `Queries`) holds the query operators the actions use.
  These are filtering (`Where`), first-match lookup (`FirstOrDefault`, `Find`),
  the joins (`Include`), removal of one tracked row, and the two orderings.
  The orderings are ascending by ListName and newest-first by DatePosted.
- `consistency.dfy` (module `Consistency`) states what the tables keep between
  requests and proves that each changing action keeps it. No book holds the
  unset key 0, because the database generates book keys. Book ids, review ids
  and (user, book) memberships are unique. Every entry references an existing
  book. No ListName is stored empty.
- `books_controller.dfy` (module `Books`) holds the class `BooksController`.
  Its fields `books`, `userBooks` and `reviews` stand for `_db.Books`,
  `_db.UserBooks` and `_db.Reviews`.
  - The POST actions are methods that change those fields. Each states its
    whole new state and keeps `Valid()`.
  - The GET actions are functions that only read the fields.
  - Two client methods follow request sequences from an empty store. In the
    first, creating "Dune" with an empty ListName files it under "General". In
    the second, a review survives a delete request from a user who did not
    write it.

Whatever the controller takes from its surroundings is a parameter:

- the current user, `Option<string>`, because `GetCurrentUserId` may return null;
- the validation verdict `isValid`, standing for `ModelState.IsValid`;
- the clock `now`, standing for `DateTime.Now`;
- the ids the database generates, which must be unused; a generated book id is never 0.

In three places the model follows the code where a reader might expect otherwise:

- `Create` and `Edit` do not check for a signed-in user. An entry created by an
  anonymous caller therefore has no user id (`None`).
- `Index` orders rows with `OrderBy` in the database, which does not keep
  insertion order among equal ListNames. The model promises only sortedness
  and that the rows are a permutation of the caller's entries.
- `DeleteConfirmed` on a book id that no book has changes nothing. This holds
  even when reviews still name that id, because `WriteReview` does not check
  that the book exists.

## Model

| member | source | states |
|---|---|---|
| `Books.ListNameOrDefault` | Controllers/BooksController.cs:76 | a missing or empty ListName becomes "General"; any other is kept unchanged; the result is never empty |
| `Books.CreateForm` | Controllers/BooksController.cs:57-60 | GET Create shows the blank form and reads nothing from the store |
| `Books.BooksController.constructor` | Controllers/BooksController.cs:18-21 | the controller starts with the given consistent tables |
| `Books.BooksController.BookExists` | Controllers/BooksController.cs:266-269 | true exactly when some book has the id |
| `Books.BooksController.Index` | Controllers/BooksController.cs:25-37 | an anonymous caller, and only one, is redirected to log in; a signed-in caller gets their entries, each as often as stored, others' entries never, sorted ascending by ListName, each joined with the book of its id |
| `Books.BooksController.LibraryRowsHaveBooks` | Controllers/BooksController.cs:30-34 | in a consistent store every library row finds its book |
| `Books.BooksController.Details` | Controllers/BooksController.cs:41-53 | NotFound exactly for a missing id or a missing book; otherwise that book with exactly the reviews whose book id is it |
| `Books.BooksController.EditForm` | Controllers/BooksController.cs:89-105 | NotFound exactly for a missing id or book; otherwise the book, with a ListName hint present exactly when the caller has an entry for it, and that hint is the caller's stored ListName |
| `Books.BooksController.DeleteForm` | Controllers/BooksController.cs:143-153 | NotFound exactly for a missing id or book; otherwise that book |
| `Books.BooksController.ReviewForm` | Controllers/BooksController.cs:177-185 | NotFound exactly for a missing id or book; otherwise that book |
| `Books.BooksController.MyReviews` | Controllers/BooksController.cs:212-224 | an anonymous caller, and only one, is redirected to log in; a signed-in caller gets exactly their reviews, as a permutation, newest first, each joined with its book |
| `Books.BooksController.IsAuthor` | Controllers/BooksController.cs:252 | true exactly when a review with the id exists and its author is the caller |
| `Books.BooksController.DeleteReviewForm` | Controllers/BooksController.cs:227-243 | NotFound exactly for a missing id or review; RedirectIndex exactly when the review exists and the caller is not its author; otherwise the caller's own review joined with its book |
| `Books.BooksController.Create` | Controllers/BooksController.cs:65-85 | invalid: the form again and nothing changes. Valid: one book appended under the fresh non-zero id, then one entry (caller, new id, normalised ListName), which is then the only entry for that book; reviews untouched; RedirectIndex; consistency kept |
| `Books.BooksController.Edit` | Controllers/BooksController.cs:110-139 | id mismatch: NotFound, nothing changes. Invalid: the form again, nothing changes. Id 0 (the unset key): the submitted book is appended under the fresh generated id, entries and reviews untouched, RedirectIndex. A non-zero id whose book is gone: NotFound, nothing changes. Otherwise exactly the book with the id is replaced, exactly the caller's entry for it is renamed, all else is unchanged, RedirectIndex; consistency kept |
| `Books.BooksController.DeleteConfirmed` | Controllers/BooksController.cs:158-173 | always RedirectIndex. A missing book: nothing changes. Otherwise exactly the book with the id is removed, and exactly the entries and the reviews that reference it; afterwards no book, entry or review has the id; consistency kept |
| `Books.BooksController.WriteReview` | Controllers/BooksController.cs:190-208 | anonymous: RedirectLogin and nothing changes; otherwise exactly one review is appended (given book, rating, content, the caller, the clock), with no check that the book exists, and RedirectIndex; books and entries untouched |
| `Books.BooksController.DeleteReviewConfirmed` | Controllers/BooksController.cs:248-259 | always RedirectMyReviews; the reviews change if and only if the review exists and the caller wrote it, and then exactly that review is removed; books and entries untouched |
| `Books.DuneScenario` | Controllers/BooksController.cs:65-85 | creating "Dune" with an empty ListName on an empty store leaves the creator's library with one row: the entry under "General" for the new id, joined with the stored book |
| `Books.ForeignDeleteScenario` | Controllers/BooksController.cs:248-259 | a review by user a survives a delete request from user b, and a's list of reviews still holds it |
| `Books.SingleEntryListing` | Controllers/BooksController.cs:30-34 | a table with one entry lists exactly that entry, joined with its book |
| `Books.SingleReviewListing` | Controllers/BooksController.cs:217-221 | a table with one review lists exactly that review, joined with its book |
| `Queries.Filter` | Controllers/BooksController.cs:32 | `Where`: each element occurs as often as in the input when it satisfies the predicate, and never otherwise |
| `Queries.IndexWhere` | Controllers/BooksController.cs:97 | `FirstOrDefault`: the first position that satisfies the predicate, or none when no position does |
| `Queries.IndexOfBook` | Controllers/BooksController.cs:93 | the first position of a book with the id; none exactly when no book has it |
| `Queries.FindBook` | Controllers/BooksController.cs:147-148 | a book of the table with that id, absent exactly when no book has it |
| `Queries.IndexOfEntry` | Controllers/BooksController.cs:120-121 | the first entry of that user for that book; none exactly when there is no such entry |
| `Queries.EntriesOfUser` | Controllers/BooksController.cs:32 | exactly the user's entries, with their multiplicities |
| `Queries.EntriesForBook` | Controllers/BooksController.cs:163 | exactly the entries that link to the book |
| `Queries.EntriesNotForBook` | Controllers/BooksController.cs:163-164 | what `RemoveRange(links)` leaves: no entry of the book, every other entry as often as before |
| `Queries.JoinEntryBooks` | Controllers/BooksController.cs:31 | `Include(x => x.Book)`: each entry, in order, with the book of its id |
| `Queries.IndexOfReview` | Controllers/BooksController.cs:250 | the first position of a review with the id; none exactly when no review has it |
| `Queries.FindReview` | Controllers/BooksController.cs:231-233 | a review of the table with that id, absent exactly when none has it |
| `Queries.ReviewsOfBook` | Controllers/BooksController.cs:46 | a book's `Reviews` navigation: exactly the reviews of that book |
| `Queries.ReviewsNotForBook` | Controllers/BooksController.cs:166-167 | what `RemoveRange(reviews)` leaves: no review of the book, every other review as often as before |
| `Queries.ReviewsOfUser` | Controllers/BooksController.cs:219 | exactly the reviews the user wrote |
| `Queries.JoinReviewBooks` | Controllers/BooksController.cs:218 | `Include(r => r.Book)`: each review, in order, with the book of its id |
| `Queries.RemoveAt` | Controllers/BooksController.cs:169 | `Remove` of one tracked row: every other row stays, in order |
| `Queries.StrLeTotal` | Controllers/BooksController.cs:33 | any two ListNames are comparable |
| `Queries.StrLeTransitive` | Controllers/BooksController.cs:33 | the ListName order is transitive |
| `Queries.StrLeAntisymmetric` | Controllers/BooksController.cs:33 | two ListNames that each sort no later than the other are equal |
| `Queries.InsertByListName` | Controllers/BooksController.cs:33 | inserting into a sorted list keeps it sorted and adds exactly the one entry |
| `Queries.SortByListName` | Controllers/BooksController.cs:33 | `OrderBy(x => x.ListName)`: sorted ascending and a permutation of the input |
| `Queries.InsertByDate` | Controllers/BooksController.cs:220 | inserting into a newest-first list keeps it newest first and adds exactly the one review |
| `Queries.SortNewestFirst` | Controllers/BooksController.cs:220 | `OrderByDescending(r => r.DatePosted)`: non-increasing dates and a permutation of the input |
| `Consistency.AddBookKeepsConsistent` | Controllers/BooksController.cs:69-80 | adding a book under an unused non-zero id with one entry for it keeps the tables consistent, and that entry is the only one for the book |
| `Consistency.InsertBookKeepsConsistent` | Controllers/BooksController.cs:118-129 | adding a book under an unused non-zero id, with no entry, keeps the tables consistent |
| `Consistency.NoEntryForUnsetKey` | Controllers/BooksController.cs:120-121 | in a consistent store no entry of any user references the unset key 0, so the entry lookup for it finds nothing |
| `Consistency.ReplaceBookInPlace` | Controllers/BooksController.cs:118 | with unique ids, `Update(bookData)` replaces exactly the book with that id and keeps every id present |
| `Consistency.RenameEntryInPlace` | Controllers/BooksController.cs:120-127 | with unique memberships, renaming the first matching entry renames exactly the entries of that (user, book) pair |
| `Consistency.ReplaceBookKeepsConsistent` | Controllers/BooksController.cs:118-129 | the whole Edit update keeps the tables consistent and changes exactly the matching rows |
| `Consistency.RemoveUniqueBook` | Controllers/BooksController.cs:169 | removing the found book removes exactly the book with its id and keeps ids unique |
| `Consistency.RemoveUniqueReview` | Controllers/BooksController.cs:254 | removing the found review removes exactly the review with its id and keeps ids unique |
| `Consistency.DropBookKeepsUniqueMemberships` | Controllers/BooksController.cs:163-164 | removing a book's entries keeps (user, book) memberships unique |
| `Consistency.DropBookKeepsUniqueReviewIds` | Controllers/BooksController.cs:166-167 | removing a book's reviews keeps review ids unique |

## Left out

- MVC and HTTP plumbing is not modelled: routing, view rendering, `[ValidateAntiForgeryToken]` and `ActionName`. An action's response is the `ActionResult` datatype.
- The rules behind `ModelState.IsValid` are not modelled. The verdict is the boolean parameter `isValid`.
- Claims lookup in `GetCurrentUserId` is not modelled. The caller is an `Option<string>` parameter.
- `DateTime.Now` is not modelled. The clock is an integer parameter `now`.
- Database id generation is not modelled. New book and review ids are parameters that must be unused, and a new book id is non-zero.
- `Books.BooksController.Create`: the posted `BookId` is treated as unset (0), so the database generates the stored id. A non-zero posted id, which would be inserted as given, and the insert failure it causes when that id is taken are not modelled.
- `Books.BooksController.Create`: the two `SaveChangesAsync` calls are one step in the model, so a failure between them is not modelled.
- `Books.BooksController.Edit`: of the concurrency handler, only the recovery "book gone, so NotFound" is modelled. Rethrowing a genuine write conflict is not, because concurrent requests are out of scope.
- async/await, change tracking and concurrent requests are not modelled. Each action applies its change to the store directly.
- `Books.BooksController.Details`: the join of each review with its author (`ThenInclude(r => r.User)`) is not modelled. Users are kept by the identity provider, and a review carries only its author's id.
- `Books.BooksController.Index`: ListNames compare by ordinal character order. The database collation is not modelled, and the order among equal ListNames is not promised.
- `Books.BooksController.Details`: the book's reviews are promised as a multiset, not in any order, because an included collection has no defined order.
- Database constraints beyond the primary keys and the entry-to-book link are not modelled. In particular, nothing rejects a review for a missing book, since the controller itself does not check.
- The `Book`, `LibraryEntry` and `Review` classes and `ApplicationDbContext` are not part of this model. Field types come from how the controller uses them. Ratings and dates are integers.
