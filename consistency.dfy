/**
 The conditions the three tables keep between requests, and the facts that
 show each changing action keeps them.
 */
module Consistency {
  import opened Models
  import opened Queries

  ghost predicate UniqueBookIds(books: seq<Book>) {
    forall i, j :: 0 <= i < j < |books| ==> books[i].bookId != books[j].bookId
  }

  ghost predicate UniqueReviewIds(reviews: seq<Review>) {
    forall i, j :: 0 <= i < j < |reviews| ==> reviews[i].reviewId != reviews[j].reviewId
  }

  /** Two entries for the same book belong to different users. */
  ghost predicate DistinctMembership(x: LibraryEntry, y: LibraryEntry) {
    x.bookId != y.bookId || x.userId != y.userId
  }

  /** At most one entry per (user, book) pair. */
  ghost predicate UniqueMemberships(entries: seq<LibraryEntry>) {
    forall i, j :: 0 <= i < j < |entries| ==> DistinctMembership(entries[i], entries[j])
  }

  /** No stored book holds the unset key 0: the database generates every key. */
  ghost predicate KeysAssigned(books: seq<Book>) {
    forall b :: b in books ==> b.bookId != 0
  }

  /** Every entry references a book of the table. */
  ghost predicate EntriesHaveBooks(books: seq<Book>, entries: seq<LibraryEntry>) {
    forall e :: e in entries ==> HasBook(books, e.bookId)
  }

  /**
   The conditions the tables keep: book keys are generated (never 0), primary
   keys are unique, every library entry
   references an existing book and no ListName is stored empty. A review may
   reference a missing book: nothing checks the book when a review is written.
   */
  ghost predicate Consistent(books: seq<Book>, entries: seq<LibraryEntry>, reviews: seq<Review>) {
    && KeysAssigned(books)
    && UniqueBookIds(books)
    && UniqueReviewIds(reviews)
    && UniqueMemberships(entries)
    && EntriesHaveBooks(books, entries)
    && (forall e :: e in entries ==> e.listName != [])
  }

  // ---------------------------------------------------------------------------
  // Create: a book under an unused id and one entry for it
  // ---------------------------------------------------------------------------

  lemma AppendBookKeepsUnique(books: seq<Book>, b: Book)
    requires UniqueBookIds(books) && !HasBook(books, b.bookId)
    ensures UniqueBookIds(books + [b])
  {

  }

  lemma AppendEntryKeepsUnique(entries: seq<LibraryEntry>, e: LibraryEntry)
    requires UniqueMemberships(entries)
    requires forall x :: x in entries ==> x.bookId != e.bookId
    ensures UniqueMemberships(entries + [e])
  {

  }

  /** A sequence whose multiset is `{x}` is `[x]`. */
  lemma SingletonFromMultiset<T>(s: seq<T>, x: T)
    requires multiset(s) == multiset{x}
    ensures s == [x]
  {

  }

  /**
   Adding a book under an unused id together with one entry for it keeps the
   tables consistent, and that entry is then the only one for the new book.
   */
  lemma AddBookKeepsConsistent(books: seq<Book>, entries: seq<LibraryEntry>, reviews: seq<Review>,
                               b: Book, e: LibraryEntry)
    requires Consistent(books, entries, reviews)
    requires !HasBook(books, b.bookId) && b.bookId != 0
    requires e.bookId == b.bookId && e.listName != []
    ensures Consistent(books + [b], entries + [e], reviews)
    ensures EntriesForBook(entries + [e], b.bookId) == [e]
  {
    var books', entries' := books + [b], entries + [e];
    AppendBookKeepsUnique(books, b);
    AppendEntryKeepsUnique(entries, e);
    forall x | x in entries' ensures HasBook(books', x.bookId) {
      if x == e { assert b in books'; }
      else { var c :| c in books && c.bookId == x.bookId; assert c in books'; }
    }
    var f := EntriesForBook(entries', b.bookId);
    assert forall x :: multiset(f)[x] == multiset{e}[x];
    assert multiset(f) == multiset{e};
    SingletonFromMultiset(f, e);
  }

  /**
   Adding a book under an unused, non-zero id and no entry keeps the tables
   consistent.
   */
  lemma InsertBookKeepsConsistent(books: seq<Book>, entries: seq<LibraryEntry>, reviews: seq<Review>, b: Book)
    requires Consistent(books, entries, reviews)
    requires !HasBook(books, b.bookId) && b.bookId != 0
    ensures Consistent(books + [b], entries, reviews)
  {
    AppendBookKeepsUnique(books, b);
    forall x | x in entries ensures HasBook(books + [b], x.bookId) {
      var c :| c in books && c.bookId == x.bookId;
      assert c in books + [b];
    }
  }

  /** In a consistent store no entry references the unset key 0, so no lookup for it finds one. */
  lemma NoEntryForUnsetKey(books: seq<Book>, entries: seq<LibraryEntry>, reviews: seq<Review>, user: Option<string>)
    requires Consistent(books, entries, reviews)
    ensures IndexOfEntry(entries, 0, user).None?
  {
    forall e | e in entries ensures e.bookId != 0 {
      var c :| c in books && c.bookId == e.bookId;
    }
  }

  // ---------------------------------------------------------------------------
  // Edit: the book replaced in place, the caller's entry renamed
  // ---------------------------------------------------------------------------

  /** With unique ids, replacing the book at `i` replaces exactly the book with its id. */
  lemma ReplaceBookInPlace(books: seq<Book>, i: nat, b: Book)
    requires UniqueBookIds(books) && i < |books| && books[i].bookId == b.bookId
    ensures UniqueBookIds(books[i := b])
    ensures forall k :: 0 <= k < |books| ==> books[i := b][k] == if books[k].bookId == b.bookId then b else books[k]
    ensures forall id :: HasBook(books, id) ==> HasBook(books[i := b], id)
  {

  }

  /**
   With unique memberships, renaming the first entry of `user` for book `id`
   renames exactly the entries of that (user, book) pair.
   */
  lemma RenameEntryInPlace(entries: seq<LibraryEntry>, id: int, user: Option<string>, name: string)
    requires UniqueMemberships(entries)
    ensures var entries' := match IndexOfEntry(entries, id, user)
                            case None => entries
                            case Some(j) => entries[j := entries[j].(listName := name)];
      && |entries'| == |entries|
      && (forall k :: 0 <= k < |entries| ==>
            entries'[k] == if entries[k].bookId == id && entries[k].userId == user
                           then entries[k].(listName := name) else entries[k])
  {

  }

  /**
   Replacing the book at position `i` by one with the same id, and giving the
   caller's entry for it (if any) a non-empty ListName, keeps the tables
   consistent; exactly the rows with that id, and that (user, book) pair, change.
   */
  lemma ReplaceBookKeepsConsistent(books: seq<Book>, entries: seq<LibraryEntry>, reviews: seq<Review>,
                                   i: nat, b: Book, user: Option<string>, name: string)
    requires Consistent(books, entries, reviews)
    requires i < |books| && books[i].bookId == b.bookId && name != []
    ensures var entries' := match IndexOfEntry(entries, b.bookId, user)
                            case None => entries
                            case Some(j) => entries[j := entries[j].(listName := name)];
      && Consistent(books[i := b], entries', reviews)
      && (forall k :: 0 <= k < |books| ==> books[i := b][k] == if books[k].bookId == b.bookId then b else books[k])
      && |entries'| == |entries|
      && (forall k :: 0 <= k < |entries| ==>
            entries'[k] == if entries[k].bookId == b.bookId && entries[k].userId == user
                           then entries[k].(listName := name) else entries[k])
  {
    var books' := books[i := b];
    var entries' := match IndexOfEntry(entries, b.bookId, user)
                    case None => entries
                    case Some(j) => entries[j := entries[j].(listName := name)];
    ReplaceBookInPlace(books, i, b);
    RenameEntryInPlace(entries, b.bookId, user, name);
    forall e | e in entries' ensures HasBook(books', e.bookId) && e.listName != [] {
      var k :| 0 <= k < |entries'| && entries'[k] == e;
      assert entries[k] in entries;
    }
    forall x, y | 0 <= x < y < |entries'| ensures DistinctMembership(entries'[x], entries'[y]) {
      assert DistinctMembership(entries[x], entries[y]);
    }
  }

  // ---------------------------------------------------------------------------
  // DeleteConfirmed and DeleteReviewConfirmed: removing rows
  // ---------------------------------------------------------------------------

  /** Removing the book at position `i` removes exactly the book with its id. */
  lemma RemoveUniqueBook(books: seq<Book>, i: nat)
    requires UniqueBookIds(books) && i < |books|
    ensures UniqueBookIds(RemoveAt(books, i))
    ensures forall b :: b in RemoveAt(books, i) <==> b in books && b.bookId != books[i].bookId
  {

  }

  /** Removing the review at position `i` removes exactly the review with its id. */
  lemma RemoveUniqueReview(reviews: seq<Review>, i: nat)
    requires UniqueReviewIds(reviews) && i < |reviews|
    ensures UniqueReviewIds(RemoveAt(reviews, i))
    ensures forall v :: v in RemoveAt(reviews, i) <==> v in reviews && v.reviewId != reviews[i].reviewId
  {

  }

  /** An entry distinct from every entry of a unique list can go in front of it. */
  lemma ConsUniqueMemberships(x: LibraryEntry, t: seq<LibraryEntry>)
    requires UniqueMemberships(t)
    requires forall y :: y in t ==> DistinctMembership(x, y)
    ensures UniqueMemberships([x] + t)
  {

  }

  /** The head of a unique list is distinct from all of its tail, which is unique too. */
  lemma UniqueMembershipsTail(s: seq<LibraryEntry>)
    requires UniqueMemberships(s) && s != []
    ensures UniqueMemberships(s[1..])
    ensures forall y :: y in s[1..] ==> DistinctMembership(s[0], y)
  {

  }

  /** Dropping the entries of one book keeps memberships unique. */
  lemma {:induction false} DropBookKeepsUniqueMemberships(entries: seq<LibraryEntry>, id: int)
    requires UniqueMemberships(entries)
    ensures UniqueMemberships(EntriesNotForBook(entries, id))
  {
    if entries != [] {
      UniqueMembershipsTail(entries);
      DropBookKeepsUniqueMemberships(entries[1..], id);
      var t := EntriesNotForBook(entries[1..], id);
      if entries[0].bookId != id {
        assert EntriesNotForBook(entries, id) == [entries[0]] + t;
        ConsUniqueMemberships(entries[0], t);
      } else {
        assert EntriesNotForBook(entries, id) == t;
      }
    }
  }

  /** A review whose id differs from all of a unique list can go in front of it. */
  lemma ConsUniqueReviewIds(x: Review, t: seq<Review>)
    requires UniqueReviewIds(t)
    requires forall y :: y in t ==> x.reviewId != y.reviewId
    ensures UniqueReviewIds([x] + t)
  {

  }

  /** The head of a list with unique ids differs from all of its tail, which has unique ids too. */
  lemma UniqueReviewIdsTail(s: seq<Review>)
    requires UniqueReviewIds(s) && s != []
    ensures UniqueReviewIds(s[1..])
    ensures forall y :: y in s[1..] ==> s[0].reviewId != y.reviewId
  {

  }

  /** Dropping the reviews of one book keeps review ids unique. */
  lemma {:induction false} DropBookKeepsUniqueReviewIds(reviews: seq<Review>, id: int)
    requires UniqueReviewIds(reviews)
    ensures UniqueReviewIds(ReviewsNotForBook(reviews, id))
  {
    if reviews != [] {
      UniqueReviewIdsTail(reviews);
      DropBookKeepsUniqueReviewIds(reviews[1..], id);
      var t := ReviewsNotForBook(reviews[1..], id);
      if reviews[0].bookId != id {
        assert ReviewsNotForBook(reviews, id) == [reviews[0]] + t;
        ConsUniqueReviewIds(reviews[0], t);
      } else {
        assert ReviewsNotForBook(reviews, id) == t;
      }
    }
  }
}
