/**
 The queries the controller issues against its tables: filtering (`Where`),
 first-match lookup (`FirstOrDefault`, `Find`), joins (`Include`) and the two
 orderings (`OrderBy(ListName)`, `OrderByDescending(DatePosted)`).
 */
module Queries {
  import opened Models

  // ---------------------------------------------------------------------------
  // Filtering and first-match lookup
  // ---------------------------------------------------------------------------

  /** The elements of `s` that satisfy `p`, each as often as in `s`. */
  function Filter<T(!new)>(s: seq<T>, p: T -> bool): (r: seq<T>)
    ensures |r| <= |s|
    ensures forall x :: x in r ==> x in s && p(x)
    ensures forall x :: multiset(r)[x] == if p(x) then multiset(s)[x] else 0
  {
    if s == [] then []
    else
      assert s == [s[0]] + s[1..];
      if p(s[0]) then [s[0]] + Filter(s[1..], p) else Filter(s[1..], p)
  }

  /** The position of the first element of `s` that satisfies `p`, if any. */
  function IndexWhere<T(!new)>(s: seq<T>, p: T -> bool): (r: Option<nat>)
    ensures r.Some? ==> r.value < |s| && p(s[r.value])
    ensures r.Some? ==> forall k :: 0 <= k < r.value ==> !p(s[k])
    ensures r.None? ==> forall k :: 0 <= k < |s| ==> !p(s[k])
  {
    if s == [] then None
    else if p(s[0]) then Some(0)
    else match IndexWhere(s[1..], p)
      case None => None
      case Some(i) => Some(i + 1)
  }

  /** `s` without its element at position `i` (`Remove` of a tracked row). */
  function RemoveAt<T>(s: seq<T>, i: nat): (r: seq<T>)
    requires i < |s|
    ensures |r| == |s| - 1
    ensures forall k :: 0 <= k < |r| ==> r[k] == if k < i then s[k] else s[k + 1]
  {
    s[..i] + s[i + 1..]
  }

  // ---------------------------------------------------------------------------
  // Books
  // ---------------------------------------------------------------------------

  /** Some book of the table has this id. */
  ghost predicate HasBook(books: seq<Book>, id: int) {
    exists b :: b in books && b.bookId == id
  }

  /** The position of the book with this id (`Books.FindAsync(id)`). */
  function IndexOfBook(books: seq<Book>, id: int): (r: Option<nat>)
    ensures r.None? <==> !HasBook(books, id)
    ensures r.Some? ==> r.value < |books| && books[r.value].bookId == id
    ensures r.Some? ==> forall k :: 0 <= k < r.value ==> books[k].bookId != id
  {
    IndexWhere(books, (b: Book) => b.bookId == id)
  }

  /** The book with this id, if the table holds one. */
  function FindBook(books: seq<Book>, id: int): (r: Option<Book>)
    ensures r.None? <==> !HasBook(books, id)
    ensures r.Some? ==> r.value in books && r.value.bookId == id
  {
    match IndexOfBook(books, id)
    case None => None
    case Some(i) => Some(books[i])
  }

  // ---------------------------------------------------------------------------
  // Library entries
  // ---------------------------------------------------------------------------

  /** The position of the first entry of `user` for book `id` (`UserBooks.FirstOrDefaultAsync`). */
  function IndexOfEntry(entries: seq<LibraryEntry>, id: int, user: Option<string>): (r: Option<nat>)
    ensures r.None? <==> forall e :: e in entries ==> !(e.bookId == id && e.userId == user)
    ensures r.Some? ==> r.value < |entries| && entries[r.value].bookId == id && entries[r.value].userId == user
    ensures r.Some? ==> forall k :: 0 <= k < r.value ==> !(entries[k].bookId == id && entries[k].userId == user)
  {
    IndexWhere(entries, (e: LibraryEntry) => e.bookId == id && e.userId == user)
  }

  /** The entries of one user (`Where(x => x.UserId == myUserId)`). */
  function EntriesOfUser(entries: seq<LibraryEntry>, user: Option<string>): (r: seq<LibraryEntry>)
    ensures forall e :: multiset(r)[e] == if e.userId == user then multiset(entries)[e] else 0
  {
    Filter(entries, (e: LibraryEntry) => e.userId == user)
  }

  /** The entries that do not link to book `id` (what survives `RemoveRange(links)`). */
  function EntriesNotForBook(entries: seq<LibraryEntry>, id: int): (r: seq<LibraryEntry>)
    ensures forall e :: e in r ==> e.bookId != id
    ensures forall e :: multiset(r)[e] == if e.bookId == id then 0 else multiset(entries)[e]
  {
    Filter(entries, (e: LibraryEntry) => e.bookId != id)
  }

  /** The entries that link to book `id`. */
  function EntriesForBook(entries: seq<LibraryEntry>, id: int): (r: seq<LibraryEntry>)
    ensures forall e :: multiset(r)[e] == if e.bookId == id then multiset(entries)[e] else 0
  {
    Filter(entries, (e: LibraryEntry) => e.bookId == id)
  }

  /** Each entry joined with the book it references. */
  function JoinEntryBooks(entries: seq<LibraryEntry>, books: seq<Book>): (r: seq<EntryRow>)
    ensures |r| == |entries|
    ensures forall i :: 0 <= i < |r| ==> r[i].entry == entries[i] && r[i].book == FindBook(books, entries[i].bookId)
  {
    seq(|entries|, i requires 0 <= i < |entries| => EntryRow(entries[i], FindBook(books, entries[i].bookId)))
  }

  /** The entries a list of joined rows shows. */
  function RowEntries(rows: seq<EntryRow>): (r: seq<LibraryEntry>)
    ensures |r| == |rows|
    ensures forall i :: 0 <= i < |r| ==> r[i] == rows[i].entry
  {
    seq(|rows|, i requires 0 <= i < |rows| => rows[i].entry)
  }

  // ---------------------------------------------------------------------------
  // Reviews
  // ---------------------------------------------------------------------------

  /** The position of the review with this id (`Reviews.FindAsync(id)`). */
  function IndexOfReview(reviews: seq<Review>, id: int): (r: Option<nat>)
    ensures r.None? <==> forall v :: v in reviews ==> v.reviewId != id
    ensures r.Some? ==> r.value < |reviews| && reviews[r.value].reviewId == id
    ensures r.Some? ==> forall k :: 0 <= k < r.value ==> reviews[k].reviewId != id
  {
    IndexWhere(reviews, (v: Review) => v.reviewId == id)
  }

  /** The review with this id, if the table holds one. */
  function FindReview(reviews: seq<Review>, id: int): (r: Option<Review>)
    ensures r.None? <==> forall v :: v in reviews ==> v.reviewId != id
    ensures r.Some? ==> r.value in reviews && r.value.reviewId == id
  {
    match IndexOfReview(reviews, id)
    case None => None
    case Some(i) => Some(reviews[i])
  }

  /** The reviews of book `id` (the `Reviews` navigation of a book). */
  function ReviewsOfBook(reviews: seq<Review>, id: int): (r: seq<Review>)
    ensures forall v :: multiset(r)[v] == if v.bookId == id then multiset(reviews)[v] else 0
  {
    Filter(reviews, (v: Review) => v.bookId == id)
  }

  /** The reviews that are not about book `id` (what survives `RemoveRange(reviews)`). */
  function ReviewsNotForBook(reviews: seq<Review>, id: int): (r: seq<Review>)
    ensures forall v :: v in r ==> v.bookId != id
    ensures forall v :: multiset(r)[v] == if v.bookId == id then 0 else multiset(reviews)[v]
  {
    Filter(reviews, (v: Review) => v.bookId != id)
  }

  /** The reviews written by `user` (`Where(r => r.UserId == userId)`). */
  function ReviewsOfUser(reviews: seq<Review>, user: string): (r: seq<Review>)
    ensures forall v :: multiset(r)[v] == if v.userId == user then multiset(reviews)[v] else 0
  {
    Filter(reviews, (v: Review) => v.userId == user)
  }

  /** Each review joined with the book it references. */
  function JoinReviewBooks(reviews: seq<Review>, books: seq<Book>): (r: seq<ReviewRow>)
    ensures |r| == |reviews|
    ensures forall i :: 0 <= i < |r| ==> r[i].review == reviews[i] && r[i].book == FindBook(books, reviews[i].bookId)
  {
    seq(|reviews|, i requires 0 <= i < |reviews| => ReviewRow(reviews[i], FindBook(books, reviews[i].bookId)))
  }

  /** The reviews a list of joined rows shows. */
  function RowReviews(rows: seq<ReviewRow>): (r: seq<Review>)
    ensures |r| == |rows|
    ensures forall i :: 0 <= i < |r| ==> r[i] == rows[i].review
  {
    seq(|rows|, i requires 0 <= i < |rows| => rows[i].review)
  }

  // ---------------------------------------------------------------------------
  // Ordinal string order, used for ORDER BY ListName
  // ---------------------------------------------------------------------------

  /** `a` sorts no later than `b`: a prefix of `b`, or smaller at the first difference. */
  predicate StrLe(a: string, b: string) {
    if a == [] then true
    else if b == [] then false
    else if a[0] != b[0] then a[0] < b[0]
    else StrLe(a[1..], b[1..])
  }

  lemma {:induction false} StrLeTotal(a: string, b: string)
    ensures StrLe(a, b) || StrLe(b, a)
  {
    if a != [] && b != [] && a[0] == b[0] {
      StrLeTotal(a[1..], b[1..]);
    }
  }

  lemma {:induction false} StrLeTransitive(a: string, b: string, c: string)
    requires StrLe(a, b) && StrLe(b, c)
    ensures StrLe(a, c)
  {
    if a != [] && b != [] && c != [] && a[0] == b[0] && b[0] == c[0] {
      StrLeTransitive(a[1..], b[1..], c[1..]);
    }
  }

  /**
   With `StrLeTotal` and `StrLeTransitive`, this makes `StrLe` a total order,
   so the ListName order `OrderBy` sorts by is well defined; only rows with
   equal ListNames may come out in either order.
   */
  lemma {:induction false} StrLeAntisymmetric(a: string, b: string)
    requires StrLe(a, b) && StrLe(b, a)
    ensures a == b
  {
    if a != [] && b != [] {
      StrLeAntisymmetric(a[1..], b[1..]);
      assert a == [a[0]] + a[1..] && b == [b[0]] + b[1..];
    }
  }

  // ---------------------------------------------------------------------------
  // The library listing: ascending by ListName
  // ---------------------------------------------------------------------------

  ghost predicate SortedByListName(s: seq<LibraryEntry>) {
    forall i, j :: 0 <= i < j < |s| ==> StrLe(s[i].listName, s[j].listName)
  }

  /** A sorted list stays sorted behind an entry that sorts no later than all of it. */
  lemma ConsSortedByListName(x: LibraryEntry, t: seq<LibraryEntry>)
    requires SortedByListName(t)
    requires forall y :: y in t ==> StrLe(x.listName, y.listName)
    ensures SortedByListName([x] + t)
  {

  }

  /** The head of a sorted list sorts no later than anything behind it. */
  lemma HeadSortsFirst(s: seq<LibraryEntry>)
    requires SortedByListName(s) && s != []
    ensures forall y :: y in s[1..] ==> StrLe(s[0].listName, y.listName)
  {

  }

  /** Puts `e` into the sorted `s` before the first entry it does not follow. */
  function InsertByListName(e: LibraryEntry, s: seq<LibraryEntry>): (r: seq<LibraryEntry>)
    requires SortedByListName(s)
    ensures SortedByListName(r)
    ensures multiset(r) == multiset(s) + multiset{e}
    ensures forall x :: x in r ==> x == e || x in s
  {
    if s == [] then [e]
    else if StrLe(e.listName, s[0].listName) then
      HeadSortsFirst(s);
      assert forall y :: y in s ==> y == s[0] || y in s[1..];
      forall y | y in s ensures StrLe(e.listName, y.listName) {
        if y != s[0] { StrLeTransitive(e.listName, s[0].listName, y.listName); }
      }
      ConsSortedByListName(e, s);
      [e] + s
    else
      var t := InsertByListName(e, s[1..]);
      StrLeTotal(e.listName, s[0].listName);
      HeadSortsFirst(s);
      ConsSortedByListName(s[0], t);
      assert s == [s[0]] + s[1..];
      [s[0]] + t
  }

  /** The entries of `s` ordered ascending by ListName (ties in no promised order). */
  function SortByListName(s: seq<LibraryEntry>): (r: seq<LibraryEntry>)
    ensures SortedByListName(r)
    ensures multiset(r) == multiset(s)
  {
    if s == [] then []
    else
      assert s == [s[0]] + s[1..];
      InsertByListName(s[0], SortByListName(s[1..]))
  }

  // ---------------------------------------------------------------------------
  // The review listing: newest first
  // ---------------------------------------------------------------------------

  ghost predicate NewestFirst(s: seq<Review>) {
    forall i, j :: 0 <= i < j < |s| ==> s[i].datePosted >= s[j].datePosted
  }

  /** A newest-first list stays so behind a review not older than all of it. */
  lemma ConsNewestFirst(x: Review, t: seq<Review>)
    requires NewestFirst(t)
    requires forall y :: y in t ==> x.datePosted >= y.datePosted
    ensures NewestFirst([x] + t)
  {

  }

  /** The head of a newest-first list is not older than anything behind it. */
  lemma HeadIsNewest(s: seq<Review>)
    requires NewestFirst(s) && s != []
    ensures forall y :: y in s[1..] ==> s[0].datePosted >= y.datePosted
  {

  }

  /** Puts `v` into the newest-first `s` before the first review not newer than it. */
  function InsertByDate(v: Review, s: seq<Review>): (r: seq<Review>)
    requires NewestFirst(s)
    ensures NewestFirst(r)
    ensures multiset(r) == multiset(s) + multiset{v}
    ensures forall x :: x in r ==> x == v || x in s
  {
    if s == [] then [v]
    else if v.datePosted >= s[0].datePosted then
      HeadIsNewest(s);
      assert forall y :: y in s ==> y == s[0] || y in s[1..];
      ConsNewestFirst(v, s);
      [v] + s
    else
      var t := InsertByDate(v, s[1..]);
      HeadIsNewest(s);
      ConsNewestFirst(s[0], t);
      assert s == [s[0]] + s[1..];
      [s[0]] + t
  }

  /** The reviews of `s` ordered by DatePosted, newest first. */
  function SortNewestFirst(s: seq<Review>): (r: seq<Review>)
    ensures NewestFirst(r)
    ensures multiset(r) == multiset(s)
  {
    if s == [] then []
    else
      assert s == [s[0]] + s[1..];
      InsertByDate(s[0], SortNewestFirst(s[1..]))
  }
}
