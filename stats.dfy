/** The counts of `GET /stats`, over a snapshot of the books. */
module Stats {
  import opened Wrappers
  import opened Seqs
  import opened Records

  /** The summary. `averageRating` is left out; `ratedCount` and `ratingSum` are the two integers
      it divides. */
  datatype Summary = Summary(
    totalBooks: int, readCount: int, unreadCount: int, favoritesCount: int,
    ratedCount: int, ratingSum: int)

  const IsRead: Book -> bool := (b: Book) => b.data.read
  const IsUnread: Book -> bool := (b: Book) => !b.data.read
  const IsFavorite: Book -> bool := (b: Book) => b.data.favorite
  const IsRated: Book -> bool := (b: Book) => b.data.rating != None

  /** `rated.reduce((s, b) => s + (b.rating || 0), 0)`. */
  function RatingSum(books: seq<Book>): int {
    if books == [] then 0 else books[0].data.rating.GetOr(0) + RatingSum(books[1..])
  }

  function Summarize(books: seq<Book>): Summary {
    var readCount := |Filter(books, IsRead)|;
    var rated := Filter(books, IsRated);
    Summary(|books|, readCount, |books| - readCount, |Filter(books, IsFavorite)|,
            |rated|, RatingSum(rated))
  }

  /** readCount + unreadCount = totalBooks, the unread count is the number of unread books, and
      the read, favorite and rated counts are each at most the total. */
  lemma SummaryCounts(books: seq<Book>)
    ensures var s := Summarize(books);
      s.readCount + s.unreadCount == s.totalBooks &&
      s.unreadCount == |Filter(books, IsUnread)| &&
      0 <= s.readCount <= s.totalBooks &&
      0 <= s.favoritesCount <= s.totalBooks &&
      0 <= s.ratedCount <= s.totalBooks
  {
    FilterPartition(books, IsRead, IsUnread);
  }

  /** With every rating in 0..5, the rating sum lies between 0 and 5 per rated book, so the
      average the handler divides out is itself a rating. */
  lemma {:induction false} RatingSumBounds(books: seq<Book>)
    requires forall b :: b in books ==> RatingOk(b.data.rating)
    ensures 0 <= RatingSum(books) <= 5 * |Filter(books, IsRated)|
  {
    if books != [] {
      assert books[0] in books;
      RatingSumBounds(books[1..]);
    }
  }
}
