/** The book list of `GET /books`: a conjunction of optional filters over a snapshot of the
    books, then an optional sort on one field compared as text, ascending or reversed. */
module Query {
  import opened Wrappers
  import opened Seqs
  import opened Text
  import opened Coercion
  import opened Records
  import opened Sorting

  /** The query string: each parameter absent or a single string. */
  datatype Params = Params(
    q: Option<string>, author: Option<string>, read: Option<string>, favorite: Option<string>,
    theme: Option<string>, sort: Option<string>, order: Option<string>)

  /** `v && typeof v === "string"`: the parameter is present and not empty. */
  predicate Given(v: Option<string>) {
    v.Some? && v.value != ""
  }

  /** Text search: the lower-cased query occurs in the lower-cased name or author. */
  predicate MatchesSearch(b: Book, q: Option<string>) {
    !Given(q) ||
    var s := ToLower(q.value);
    (b.data.name != "" && Contains(ToLower(b.data.name), s)) ||
    (b.data.author != "" && Contains(ToLower(b.data.author), s))
  }

  /** Author: equal to the parameter, ignoring case. */
  predicate MatchesAuthor(b: Book, author: Option<string>) {
    !Given(author) || ToLower(b.data.author) == ToLower(author.value)
  }

  /** Read: the flag equals `toBool(read)`; an empty `read=` still filters. */
  predicate MatchesRead(b: Book, read: Option<string>) {
    read.None? || b.data.read == ToBool(JStr(read.value))
  }

  /** Favorite: the flag equals `toBool(favorite)`. */
  predicate MatchesFavorite(b: Book, favorite: Option<string>) {
    favorite.None? || b.data.favorite == ToBool(JStr(favorite.value))
  }

  /** Theme: `(b.theme || "")` equal to the parameter, ignoring case. */
  predicate MatchesTheme(b: Book, theme: Option<string>) {
    !Given(theme) || ToLower(b.data.theme.GetOr("")) == ToLower(theme.value)
  }

  /** A book is listed when it passes every filter the query supplies. */
  predicate Matches(b: Book, p: Params) {
    MatchesSearch(b, p.q) && MatchesAuthor(b, p.author) && MatchesRead(b, p.read) &&
    MatchesFavorite(b, p.favorite) && MatchesTheme(b, p.theme)
  }

  function BySearch(q: Option<string>): Book -> bool { b => MatchesSearch(b, q) }
  function ByAuthor(author: Option<string>): Book -> bool { b => MatchesAuthor(b, author) }
  function ByRead(read: Option<string>): Book -> bool { b => MatchesRead(b, read) }
  function ByFavorite(favorite: Option<string>): Book -> bool { b => MatchesFavorite(b, favorite) }
  function ByTheme(theme: Option<string>): Book -> bool { b => MatchesTheme(b, theme) }
  function ByAll(p: Params): Book -> bool { b => Matches(b, p) }

  /** The filtered list, before any sort. */
  function Select(books: seq<Book>, p: Params): (r: seq<Book>)
    ensures forall b :: b in r ==> b in books && Matches(b, p)
    ensures forall b :: b in books && Matches(b, p) ==> b in r
  {
    Filter(books, ByAll(p))
  }

  /** The field the `sort` parameter names: `title` stands for `name`, every other name is used
      as it is. */
  function SortField(sort: string): (r: string)
    ensures sort == "title" ==> r == "name"
    ensures sort != "title" ==> r == sort
  {
    if sort == "title" then "name"
    else if sort == "author" then "author"
    else if sort == "theme" then "theme"
    else if sort == "year" then "year"
    else if sort == "rating" then "rating"
    else sort
  }

  /** `(b[key] || "").toString()`: the text a book is sorted by. A falsy value (an empty string,
      0, false, a missing rating, cover or theme, an unknown field) sorts as "". */
  function SortText(b: Book, key: string): (r: string)
    ensures key !in {"id", "name", "author", "editor", "year", "read", "favorite", "rating", "cover", "theme"} ==> r == ""
    ensures key == "name" ==> r == b.data.name
    ensures key == "author" ==> r == b.data.author
    ensures key == "editor" ==> r == b.data.editor
    ensures key == "id" ==> (r == "" <==> b.id == 0)
    ensures key == "id" && b.id != 0 ==> r == IntText(b.id)
    ensures key == "year" && b.data.year.WholeYear? && b.data.year.value != 0 ==> r == IntText(b.data.year.value)
    ensures key == "year" && b.data.year.InfiniteYear? ==>
              r == (if b.data.year.negative then "-Infinity" else "Infinity")
    ensures key == "read" && b.data.read ==> r == "true"
    ensures key == "favorite" && b.data.favorite ==> r == "true"
    ensures key == "rating" && b.data.rating.Some? && b.data.rating.value != 0 ==> r == IntText(b.data.rating.value)
    ensures key == "cover" && b.data.cover.Some? ==> r == b.data.cover.value
    ensures key == "theme" && b.data.theme.Some? ==> r == b.data.theme.value
    ensures key == "year" && b.data.year.WholeYear? ==> (r == "" <==> b.data.year.value == 0)
    ensures key == "year" && b.data.year.NaNYear? ==> r == ""
    ensures key == "read" ==> (r == "" <==> !b.data.read)
    ensures key == "favorite" ==> (r == "" <==> !b.data.favorite)
    ensures key == "rating" ==> (r == "" <==> b.data.rating.None? || b.data.rating.value == 0)
    ensures key == "cover" ==> (r == "" <==> b.data.cover.None? || b.data.cover.value == "")
    ensures key == "theme" ==> (r == "" <==> b.data.theme.None? || b.data.theme.value == "")
  {
    if key == "id" then (if b.id == 0 then "" else IntText(b.id))
    else if key == "name" then b.data.name
    else if key == "author" then b.data.author
    else if key == "editor" then b.data.editor
    else if key == "year" then
      match b.data.year
      case WholeYear(v) => if v == 0 then "" else IntText(v)
      case NaNYear => ""
      case InfiniteYear(negative) => if negative then "-Infinity" else "Infinity"
    else if key == "read" then (if b.data.read then "true" else "")
    else if key == "favorite" then (if b.data.favorite then "true" else "")
    else if key == "rating" then
      (if b.data.rating.Some? && b.data.rating.value != 0 then IntText(b.data.rating.value) else "")
    else if key == "cover" then b.data.cover.GetOr("")
    else if key == "theme" then b.data.theme.GetOr("")
    else ""
  }

  /** The collation key of a book's sort text: the comparator `localeCompare` with the French
      collation, given as the key function `collate`. */
  function Rank(collate: string -> seq<int>, key: string): Book -> seq<int> {
    b => collate(SortText(b, key))
  }

  /** `(order || "").toLowerCase() === "desc"`. */
  predicate Descending(order: Option<string>) {
    ToLower(order.GetOr("")) == "desc"
  }

  /** The sort step: nothing without a `sort` parameter; otherwise the stable ascending sort by
      the field's text, reversed when `order` is "desc". */
  function Arrange(s: seq<Book>, p: Params, collate: string -> seq<int>): (r: seq<Book>)
    ensures multiset(r) == multiset(s)
  {
    if Given(p.sort) then
      var sorted := SortBy(s, Rank(collate, SortField(p.sort.value)));
      if Descending(p.order) then
        ReversePermutes(sorted);
        Reverse(sorted)
      else
        sorted
    else
      s
  }

  /** The response of `GET /books`. */
  function Run(books: seq<Book>, p: Params, collate: string -> seq<int>): seq<Book> {
    Arrange(Select(books, p), p, collate)
  }

  /** The filters applied one after the other, in the order of the handler, keep exactly what
      their conjunction keeps. */
  lemma SelectIsChain(books: seq<Book>, p: Params)
    ensures Filter(Filter(Filter(Filter(Filter(books,
              BySearch(p.q)), ByAuthor(p.author)), ByRead(p.read)), ByFavorite(p.favorite)),
              ByTheme(p.theme)) == Select(books, p)
  {
    var s1 := Filter(books, BySearch(p.q));
    var both2: Book -> bool := b => MatchesSearch(b, p.q) && MatchesAuthor(b, p.author);
    FilterFilter(books, BySearch(p.q), ByAuthor(p.author), both2);
    var both3: Book -> bool := b => both2(b) && MatchesRead(b, p.read);
    FilterFilter(books, both2, ByRead(p.read), both3);
    var both4: Book -> bool := b => both3(b) && MatchesFavorite(b, p.favorite);
    FilterFilter(books, both3, ByFavorite(p.favorite), both4);
    FilterFilter(books, both4, ByTheme(p.theme), ByAll(p));
  }

  /** The list holds exactly the books that pass every supplied filter, each as often as in
      the store, whatever the sort. */
  lemma RunSelectsExactly(books: seq<Book>, p: Params, collate: string -> seq<int>)
    ensures multiset(Run(books, p, collate)) == multiset(Select(books, p))
    ensures forall b :: b in Run(books, p, collate) <==> b in books && Matches(b, p)
  {
    var r := Run(books, p, collate);
    forall b ensures b in r <==> b in Select(books, p) {
      assert b in r <==> b in multiset(r);
    }
  }

  /** Without a sort the list is an order-preserving subsequence of the store. */
  lemma UnsortedIsSubsequence(books: seq<Book>, p: Params, collate: string -> seq<int>)
    requires !Given(p.sort)
    ensures Run(books, p, collate) == Select(books, p)
    ensures IsSubsequence(Run(books, p, collate), books)
  {
    FilterIsSubsequence(books, ByAll(p));
  }

  /** With a sort the list is ordered by the field's text, ascending, or descending for
      `order=desc`. */
  lemma SortedRun(books: seq<Book>, p: Params, collate: string -> seq<int>)
    requires Given(p.sort)
    ensures var rank := Rank(collate, SortField(p.sort.value));
      if Descending(p.order) then SortedDescendingBy(Run(books, p, collate), rank)
      else SortedBy(Run(books, p, collate), rank)
  {
    var rank := Rank(collate, SortField(p.sort.value));
    var sel := Select(books, p);
    SortBySorted(sel, rank);
    if Descending(p.order) {
      ReverseSortedDescending(SortBy(sel, rank), rank);
    }
  }

  /** Books whose sort texts collate equal stay in store order when ascending, and in reverse
      store order with `order=desc`. */
  lemma SortedRunStable(books: seq<Book>, p: Params, collate: string -> seq<int>, k: seq<int>)
    requires Given(p.sort)
    ensures var rank := Rank(collate, SortField(p.sort.value));
      var same := Filter(Select(books, p), WithKey(rank, k));
      Filter(Run(books, p, collate), WithKey(rank, k)) ==
        if Descending(p.order) then Reverse(same) else same
  {
    var rank := Rank(collate, SortField(p.sort.value));
    var sel := Select(books, p);
    SortByStable(sel, rank, k);
    if Descending(p.order) {
      FilterReverse(SortBy(sel, rank), WithKey(rank, k));
    }
  }

  /** `GET /books?favorite=f` lists exactly the books whose favorite flag is `toBool(f)`, in
      store order. */
  lemma FavoriteFilterExact(books: seq<Book>, f: string, collate: string -> seq<int>)
    ensures var p := Params(None, None, None, Some(f), None, None, None);
      (forall b :: b in Run(books, p, collate) <==> b in books && b.data.favorite == ToBool(JStr(f))) &&
      IsSubsequence(Run(books, p, collate), books)
  {
    var p := Params(None, None, None, Some(f), None, None, None);
    UnsortedIsSubsequence(books, p, collate);
  }

  /** Listing the result of a listing with the same filters changes nothing. */
  lemma SelectIdempotent(books: seq<Book>, p: Params)
    ensures Select(Select(books, p), p) == Select(books, p)
  {
    FilterFilter(books, ByAll(p), ByAll(p), ByAll(p));
  }

  /** Collation by code point, the simplest collation key. */
  function CodePoints(s: string): seq<int> {
    seq(|s|, i requires 0 <= i < |s| => s[i] as int)
  }

  /** Years are compared as text, not as numbers: under a code-point collation a book from
      year 10 sorts before a book from year 9, because "10" < "9". */
  lemma YearSortsAsText(b9: Book, b10: Book)
    requires b9.data.year == WholeYear(9) && b10.data.year == WholeYear(10)
    ensures SortBy([b9, b10], Rank(CodePoints, "year")) == [b10, b9]
  {
    var rank := Rank(CodePoints, "year");
    YearKeys(b9, b10);
    assert !KeyLe([57], [49, 48]);
    SortTwoOutOfOrder(b9, b10, rank);
  }

  /** The code-point keys of the years 9 and 10. */
  lemma YearKeys(b9: Book, b10: Book)
    requires b9.data.year == WholeYear(9) && b10.data.year == WholeYear(10)
    ensures Rank(CodePoints, "year")(b9) == [57]
    ensures Rank(CodePoints, "year")(b10) == [49, 48]
  {
    assert IntText(9) == "9";
    assert IntText(10) == "10";
    assert SortText(b9, "year") == "9";
    assert SortText(b10, "year") == "10";
    var k9, k10 := CodePoints("9"), CodePoints("10");
    assert |k9| == 1 && k9[0] == 57;
    assert |k10| == 2 && k10[0] == 49 && k10[1] == 48;
    assert k9 == [57] && k10 == [49, 48];
  }
}
