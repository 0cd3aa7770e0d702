/** The in-memory store behind the book and note routes: two ordered collections and their two
    id counters, with one method per route handler. */
module BookStore {
  import opened Wrappers
  import opened Seqs
  import opened Text
  import opened Records
  import Query
  import Stats
  import Seed
  import Sorting

  /** The two error responses of the handlers: 404 and 400. */
  datatype Error = NotFound | Validation(message: string)

  datatype Result<T> = Ok(value: T) | Err(error: Error)

  const ContentRequired := "Le champ \"content\" est requis."
  const DeletedMessage := "Livre supprimé avec succès"

  /** `books.some((b) => b.id === id)`. */
  predicate HasBook(books: seq<Book>, id: int) {
    exists i :: 0 <= i < |books| && books[i].id == id
  }

  /** `books.findIndex((b) => b.id === id)`: the first index holding that id, or -1. */
  function FindIndex(books: seq<Book>, id: int): (r: int)
    ensures -1 <= r < |books|
    ensures r == -1 <==> !HasBook(books, id)
    ensures 0 <= r ==> books[r].id == id && forall j :: 0 <= j < r ==> books[j].id != id
  {
    if books == [] then -1
    else if books[0].id == id then 0
    else
      var k := FindIndex(books[1..], id);
      assert forall j :: 1 <= j < |books| ==> books[j] == books[1..][j - 1];
      if k == -1 then -1 else k + 1
  }

  function OtherBook(id: int): Book -> bool { (b: Book) => b.id != id }
  function NoteOf(id: int): Note -> bool { (n: Note) => n.bookId == id }
  function OtherNote(id: int): Note -> bool { (n: Note) => n.bookId != id }

  /** What every state of the store satisfies: both counters are positive; book ids and note
      ids are positive, strictly
      increasing along their collection and below their counter; every book passed the
      required-field check and has a rating in 0..5; every note is non-empty and belongs to a
      stored book. */
  predicate Consistent(books: seq<Book>, notes: seq<Note>, nextBookId: int, nextNoteId: int) {
    1 <= nextBookId && 1 <= nextNoteId &&
    (forall i, j :: 0 <= i < j < |books| ==> books[i].id < books[j].id) &&
    (forall b :: b in books ==> 1 <= b.id < nextBookId && Complete(b.data) && RatingOk(b.data.rating)) &&
    (forall i, j :: 0 <= i < j < |notes| ==> notes[i].id < notes[j].id) &&
    (forall n :: n in notes ==> 1 <= n.id < nextNoteId && n.content != "" && HasBook(books, n.bookId))
  }

  /** In a consistent store no two books share an id. */
  lemma BookIdsUnique(books: seq<Book>, notes: seq<Note>, nextBookId: int, nextNoteId: int)
    requires Consistent(books, notes, nextBookId, nextNoteId)
    ensures forall i, j :: 0 <= i < |books| && 0 <= j < |books| && books[i].id == books[j].id ==> i == j
  {
  }

  /** Every seed book passes the required-field check with a rating in 0..5. */
  lemma SeedBooksStorable()
    ensures forall i :: 0 <= i < |Seed.InitialBooks| ==>
      Complete(Seed.InitialBooks[i]) && RatingOk(Seed.InitialBooks[i].rating)
  {
    forall i | 0 <= i < |Seed.InitialBooks|
      ensures Complete(Seed.InitialBooks[i]) && RatingOk(Seed.InitialBooks[i].rating)
    {
    }
  }

  /** Every seed note is non-empty and names one of the ten seed books. */
  lemma SeedNotesAttached()
    ensures forall i :: 0 <= i < |Seed.InitialNotes| ==>
      1 <= Seed.InitialNotes[i].bookId <= 10 && |Seed.InitialNotes[i].content| > 0
  {
    forall i | 0 <= i < |Seed.InitialNotes|
      ensures 1 <= Seed.InitialNotes[i].bookId <= 10 && |Seed.InitialNotes[i].content| > 0
    {
    }
  }

  /** The seed books numbered 1..10, whatever their covers, with the seed notes numbered 1..8,
      form a consistent store with counters 11 and 9. */
  lemma SeedConsistent(books: seq<Book>)
    requires |books| == |Seed.InitialBooks|
    requires forall i :: 0 <= i < |books| ==>
      books[i].id == i + 1 && books[i].data.(cover := None) == Seed.InitialBooks[i]
    ensures Consistent(books, Seed.Notes(), 11, 9)
  {
    SeedBooksStorable();
    SeedNotesAttached();
    var notes := Seed.Notes();
    forall b | b in books ensures 1 <= b.id < 11 && Complete(b.data) && RatingOk(b.data.rating) {
      var i :| 0 <= i < |books| && books[i] == b;
    }
    forall n | n in notes ensures 1 <= n.id < 9 && n.content != "" && HasBook(books, n.bookId) {
      var i :| 0 <= i < |notes| && notes[i] == n;
      var k := Seed.InitialNotes[i].bookId;
      assert books[k - 1].id == k;
    }
  }

  /** Appending a complete book under the counter's id, and advancing the counter, keeps the
      store consistent. */
  lemma AppendBookConsistent(books: seq<Book>, notes: seq<Note>, nextBookId: int, nextNoteId: int, d: BookData)
    requires Consistent(books, notes, nextBookId, nextNoteId)
    requires Complete(d) && RatingOk(d.rating)
    ensures Consistent(books + [Book(nextBookId, d)], notes, nextBookId + 1, nextNoteId)
  {
    var books' := books + [Book(nextBookId, d)];
    forall n | n in notes ensures HasBook(books', n.bookId) {
      var j :| 0 <= j < |books| && books[j].id == n.bookId;
      assert books'[j] == books[j];
    }
  }

  /** Replacing the fields of one book, under the same id, by a complete record with a rating in
      0..5 keeps the store consistent. */
  lemma ReplaceBookConsistent(books: seq<Book>, notes: seq<Note>, nextBookId: int, nextNoteId: int, i: int, d: BookData)
    requires Consistent(books, notes, nextBookId, nextNoteId)
    requires 0 <= i < |books|
    requires Complete(d) && RatingOk(d.rating)
    ensures Consistent(books[i := Book(books[i].id, d)], notes, nextBookId, nextNoteId)
  {
    var books' := books[i := Book(books[i].id, d)];
    assert books[i] in books;
    forall n | n in notes ensures HasBook(books', n.bookId) {
      var j :| 0 <= j < |books| && books[j].id == n.bookId;
      assert books'[j].id == n.bookId;
    }
  }

  /** Removing a book together with its notes keeps the store consistent. */
  lemma DeleteConsistent(books: seq<Book>, notes: seq<Note>, nextBookId: int, nextNoteId: int, id: int)
    requires Consistent(books, notes, nextBookId, nextNoteId)
    ensures Consistent(Filter(books, OtherBook(id)), Filter(notes, OtherNote(id)), nextBookId, nextNoteId)
  {
    var books' := Filter(books, OtherBook(id));
    var notes' := Filter(notes, OtherNote(id));
    FilterKeepsOrder(books, OtherBook(id), (a: Book, b: Book) => a.id < b.id);
    FilterKeepsOrder(notes, OtherNote(id), (a: Note, b: Note) => a.id < b.id);
    forall n | n in notes' ensures HasBook(books', n.bookId) {
      KeepsOtherBook(books, id, n.bookId);
    }
  }

  /** A book with another id survives the delete of `id`. */
  lemma KeepsOtherBook(books: seq<Book>, id: int, other: int)
    requires HasBook(books, other) && other != id
    ensures HasBook(Filter(books, OtherBook(id)), other)
  {
    var j :| 0 <= j < |books| && books[j].id == other;
    var books' := Filter(books, OtherBook(id));
    assert books[j] in books';
    var k :| 0 <= k < |books'| && books'[k] == books[j];
  }

  /** Appending a non-empty note for a stored book under the counter's id, and advancing the
      counter, keeps the store consistent. */
  lemma AppendNoteConsistent(books: seq<Book>, notes: seq<Note>, nextBookId: int, nextNoteId: int, note: Note)
    requires Consistent(books, notes, nextBookId, nextNoteId)
    requires note.id == nextNoteId && note.content != "" && HasBook(books, note.bookId)
    ensures Consistent(books, notes + [note], nextBookId, nextNoteId + 1)
  {
    var i :| 0 <= i < |books| && books[i].id == note.bookId;
    assert books[i] in books;
  }

  function SameBook(id: int): Book -> bool { (b: Book) => b.id == id }

  /** With strictly increasing ids, an id that occurs occurs exactly once. */
  lemma {:induction false} IdOccursOnce(books: seq<Book>, id: int)
    requires forall i, j :: 0 <= i < j < |books| ==> books[i].id < books[j].id
    requires HasBook(books, id)
    ensures |Filter(books, SameBook(id))| == 1
  {
    var rest := books[1..];
    assert forall i, j :: 0 <= i < j < |rest| ==> rest[i].id < rest[j].id by {
      forall i, j | 0 <= i < j < |rest| ensures rest[i].id < rest[j].id {
        assert rest[i] == books[i + 1] && rest[j] == books[j + 1];
      }
    }
    if books[0].id == id {
      forall x | x in rest ensures !SameBook(id)(x) {
        var k :| 0 <= k < |rest| && rest[k] == x;
        assert books[k + 1] == x;
      }
      FilterKeepsNone(rest, SameBook(id));
    } else {
      var i :| 0 <= i < |books| && books[i].id == id;
      assert rest[i - 1].id == id;
      IdOccursOnce(rest, id);
    }
  }

  /** Deleting a book of a consistent store removes exactly one book. */
  lemma DeleteRemovesOneBook(books: seq<Book>, id: int)
    requires forall i, j :: 0 <= i < j < |books| ==> books[i].id < books[j].id
    requires HasBook(books, id)
    ensures |Filter(books, OtherBook(id))| == |books| - 1
  {
    FilterPartition(books, SameBook(id), OtherBook(id));
    IdOccursOnce(books, id);
  }

  /** What a delete of `id` leaves: exactly the books with another id and exactly the notes of
      other books, each collection in its original order, and no trace of `id`. */
  lemma DeleteEffect(books: seq<Book>, notes: seq<Note>, id: int)
    ensures var books' := Filter(books, OtherBook(id));
      (forall b :: b in books' <==> b in books && b.id != id) &&
      IsSubsequence(books', books) && !HasBook(books', id)
    ensures var notes' := Filter(notes, OtherNote(id));
      (forall n :: n in notes' <==> n in notes && n.bookId != id) &&
      IsSubsequence(notes', notes) && (forall n :: n in notes' ==> n.bookId != id)
  {
    FilterIsSubsequence(books, OtherBook(id));
    FilterIsSubsequence(notes, OtherNote(id));
  }

  /** After a reset the unfiltered, unsorted list is the ten seed books in seed order. */
  lemma ResetListsSeedBooks(collate: string -> seq<int>)
    ensures Query.Run(Seed.Books(), Query.Params(None, None, None, None, None, None, None), collate) == Seed.Books()
  {
    var p := Query.Params(None, None, None, None, None, None, None);
    FilterKeepsAll(Seed.Books(), Query.ByAll(p));
  }

  /** After a reset the notes of book 1 are the first two seed notes. */
  lemma ResetNotesOfFirstBook()
    ensures Filter(Seed.Notes(), NoteOf(1)) == Seed.Notes()[..2]
  {
    var notes := Seed.Notes();
    var first, later := notes[..2], notes[2..];
    assert notes == first + later;
    FilterAppend(first, later, NoteOf(1));
    LaterSeedNotes();
    FilterKeepsNone(later, NoteOf(1));
    FirstSeedNotes();
    FilterKeepsAll(first, NoteOf(1));
  }

  /** The first two seed notes belong to book 1. */
  lemma FirstSeedNotes()
    ensures forall n :: n in Seed.Notes()[..2] ==> n.bookId == 1
  {
    var notes := Seed.Notes();
    forall n | n in notes[..2] ensures n.bookId == 1 {
      var k :| 0 <= k < 2 && notes[k] == n;
      assert n.bookId == Seed.InitialNotes[k].bookId;
    }
  }

  /** No seed note after the second belongs to book 1. */
  lemma LaterSeedNotes()
    ensures forall n :: n in Seed.Notes()[2..] ==> n.bookId != 1
  {
    var notes := Seed.Notes();
    forall n | n in notes[2..] ensures n.bookId != 1 {
      var k :| 2 <= k < |notes| && notes[k] == n;
      assert n.bookId == Seed.InitialNotes[k].bookId;
    }
  }

  class Store {
    var books: seq<Book>
    var notes: seq<Note>
    var nextBookId: int
    var nextNoteId: int

    ghost predicate Valid()
      reads this
    {
      Consistent(books, notes, nextBookId, nextNoteId)
    }

    /** The start-up state: the seed books with covers drawn by `cover`, the seed notes, and the
        counters one above the last seed id. */
    constructor (cover: nat -> string)
      ensures Valid()
      ensures books == Seed.BooksWithCovers(cover) && notes == Seed.Notes()
      ensures nextBookId == 11 && nextNoteId == 9
    {
      var initial := Seed.BooksWithCovers(cover);
      var initialNotes := Seed.Notes();
      books := initial;
      notes := initialNotes;
      nextBookId := |initial| + 1;
      nextNoteId := |initialNotes| + 1;
      new;
      SeedConsistent(initial);
    }

    /** `GET /books`: the filters one after the other, then the optional sort and reversal. */
    method ListBooks(p: Query.Params, collate: string -> seq<int>) returns (result: seq<Book>)
      ensures result == Query.Run(books, p, collate)
    {
      result := books;
      ghost var s1 := Filter(books, Query.BySearch(p.q));
      if Query.Given(p.q) {
        result := Filter(result, Query.BySearch(p.q));
      } else {
        FilterKeepsAll(result, Query.BySearch(p.q));
      }
      assert result == s1;
      ghost var s2 := Filter(s1, Query.ByAuthor(p.author));
      if Query.Given(p.author) {
        result := Filter(result, Query.ByAuthor(p.author));
      } else {
        FilterKeepsAll(result, Query.ByAuthor(p.author));
      }
      assert result == s2;
      ghost var s3 := Filter(s2, Query.ByRead(p.read));
      if p.read.Some? {
        result := Filter(result, Query.ByRead(p.read));
      } else {
        FilterKeepsAll(result, Query.ByRead(p.read));
      }
      assert result == s3;
      ghost var s4 := Filter(s3, Query.ByFavorite(p.favorite));
      if p.favorite.Some? {
        result := Filter(result, Query.ByFavorite(p.favorite));
      } else {
        FilterKeepsAll(result, Query.ByFavorite(p.favorite));
      }
      assert result == s4;
      if Query.Given(p.theme) {
        result := Filter(result, Query.ByTheme(p.theme));
      } else {
        FilterKeepsAll(result, Query.ByTheme(p.theme));
      }
      Query.SelectIsChain(books, p);
      assert result == Query.Select(books, p);

      if Query.Given(p.sort) {
        var key := Query.SortField(p.sort.value);
        result := Sorting.SortBy(result, Query.Rank(collate, key));
        if Query.Descending(p.order) {
          result := Reverse(result);
        }
      }
    }

    /** `GET /books/:id`: the book with that id, or NotFound. */
    method GetBook(id: int) returns (r: Result<Book>)
      requires Valid()
      ensures r.Ok? <==> HasBook(books, id)
      ensures r.Ok? ==> r.value in books && r.value.id == id
      ensures r.Ok? ==> forall b :: b in books && b.id == id ==> b == r.value
      ensures r.Err? ==> r.error == NotFound
    {
      var i := FindIndex(books, id);
      if i == -1 {
        return Err(NotFound);
      }
      BookIdsUnique(books, notes, nextBookId, nextNoteId);
      r := Ok(books[i]);
    }

    /** `POST /books`: normalizes the payload over no record; a complete record is appended with
        the next book id, otherwise nothing changes. */
    method CreateBook(payload: Payload) returns (r: Result<Book>)
      requires Valid()
      modifies this
      ensures Valid()
      ensures notes == old(notes) && nextNoteId == old(nextNoteId)
      ensures var candidate := Normalize(payload, None);
        if Complete(candidate) then
          r == Ok(Book(old(nextBookId), candidate)) &&
          books == old(books) + [r.value] && nextBookId == old(nextBookId) + 1
        else
          r == Err(Validation(RequiredMessage)) &&
          books == old(books) && nextBookId == old(nextBookId)
      ensures r.Ok? ==> forall b :: b in old(books) ==> b.id < r.value.id
    {
      var incoming := Normalize(payload, None);
      var err := ValidateRequired(incoming);
      if err.Some? {
        return Err(Validation(err.value));
      }
      var book := Book(nextBookId, incoming);
      AppendBookConsistent(books, notes, nextBookId, nextNoteId, incoming);
      nextBookId := nextBookId + 1;
      books := books + [book];
      r := Ok(book);
    }

    /** `PUT /books/:id`: the payload is normalized over the stored record; a complete result
        replaces that record in place under the same id. An unknown id or an incomplete result
        changes nothing. */
    method UpdateBook(id: int, payload: Payload) returns (r: Result<Book>)
      requires Valid()
      modifies this
      ensures Valid()
      ensures notes == old(notes) && nextBookId == old(nextBookId) && nextNoteId == old(nextNoteId)
      ensures !HasBook(old(books), id) ==> r == Err(NotFound) && books == old(books)
      ensures HasBook(old(books), id) ==>
        var i := FindIndex(old(books), id);
        var merged := Normalize(payload, Some(old(books)[i].data));
        if Complete(merged) then
          r == Ok(Book(id, merged)) && books == old(books)[i := r.value]
        else
          r == Err(Validation(RequiredMessage)) && books == old(books)
    {
      var idx := FindIndex(books, id);
      if idx == -1 {
        return Err(NotFound);
      }
      var merged := Normalize(payload, Some(books[idx].data));
      var err := ValidateRequired(merged);
      if err.Some? {
        return Err(Validation(err.value));
      }
      assert books[idx] in books;
      ReplaceBookConsistent(books, notes, nextBookId, nextNoteId, idx, merged);
      books := books[idx := Book(books[idx].id, merged)];
      r := Ok(books[idx]);
    }

    /** `DELETE /books/:id`: removes the books with that id and, in the same step, the notes
        attached to it; both collections keep the order of what remains. An unknown id changes
        nothing. */
    method DeleteBook(id: int) returns (r: Result<string>)
      requires Valid()
      modifies this
      ensures Valid()
      ensures nextBookId == old(nextBookId) && nextNoteId == old(nextNoteId)
      ensures !HasBook(old(books), id) ==>
        r == Err(NotFound) && books == old(books) && notes == old(notes)
      ensures HasBook(old(books), id) ==>
        r == Ok(DeletedMessage) && |books| == |old(books)| - 1 &&
        books == Filter(old(books), OtherBook(id)) && notes == Filter(old(notes), OtherNote(id))
    {
      if !HasBook(books, id) {
        return Err(NotFound);
      }
      DeleteConsistent(books, notes, nextBookId, nextNoteId, id);
      DeleteRemovesOneBook(books, id);
      books := Filter(books, OtherBook(id));
      notes := Filter(notes, OtherNote(id));
      r := Ok(DeletedMessage);
    }

    /** `GET /books/:id/notes`: the notes of an existing book, in store order. */
    method ListNotes(id: int) returns (r: Result<seq<Note>>)
      ensures !HasBook(books, id) ==> r == Err(NotFound)
      ensures HasBook(books, id) ==> r == Ok(Filter(notes, NoteOf(id)))
      ensures r.Ok? ==> forall n :: n in r.value <==> n in notes && n.bookId == id
    {
      if !HasBook(books, id) {
        return Err(NotFound);
      }
      r := Ok(Filter(notes, NoteOf(id)));
    }

    /** `POST /books/:id/notes`: for an existing book and a content that is not blank once
        trimmed, appends a note with the next note id, the trimmed content and the time `now`;
        otherwise nothing changes. */
    method CreateNote(id: int, content: Option<string>, now: string) returns (r: Result<Note>)
      requires Valid()
      modifies this
      ensures Valid()
      ensures books == old(books) && nextBookId == old(nextBookId)
      ensures !HasBook(old(books), id) ==>
        r == Err(NotFound) && notes == old(notes) && nextNoteId == old(nextNoteId)
      ensures HasBook(old(books), id) && Trim(content.GetOr("")) == "" ==>
        r == Err(Validation(ContentRequired)) && notes == old(notes) && nextNoteId == old(nextNoteId)
      ensures HasBook(old(books), id) && Trim(content.GetOr("")) != "" ==>
        r == Ok(Note(old(nextNoteId), id, Trim(content.GetOr("")), now)) &&
        notes == old(notes) + [r.value] && nextNoteId == old(nextNoteId) + 1
    {
      if !HasBook(books, id) {
        return Err(NotFound);
      }
      var text := Trim(content.GetOr(""));
      if text == "" {
        return Err(Validation(ContentRequired));
      }
      var note := Note(nextNoteId, id, text, now);
      AppendNoteConsistent(books, notes, nextBookId, nextNoteId, note);
      nextNoteId := nextNoteId + 1;
      notes := notes + [note];
      r := Ok(note);
    }

    /** `GET /stats`: the counts over the current books. */
    method GetStats() returns (s: Stats.Summary)
      requires Valid()
      ensures s == Stats.Summarize(books)
      ensures s.readCount + s.unreadCount == s.totalBooks
      ensures 0 <= s.readCount <= s.totalBooks && 0 <= s.favoritesCount <= s.totalBooks
      ensures 0 <= s.ratingSum <= 5 * s.ratedCount
    {
      s := Stats.Summarize(books);
      Stats.SummaryCounts(books);
      Stats.RatingSumBounds(Filter(books, Stats.IsRated));
    }

    /** `POST /reset`: the seed books and notes, numbered from 1 in seed order, and the counters
        11 and 9. */
    method Reset()
      modifies this
      ensures Valid()
      ensures books == Seed.Books() && notes == Seed.Notes()
      ensures nextBookId == 11 && nextNoteId == 9
      ensures |books| == 10 && forall i :: 0 <= i < 10 ==> books[i] == Book(i + 1, Seed.InitialBooks[i])
      ensures |notes| == 8 && forall i :: 0 <= i < 8 ==> notes[i].id == i + 1
    {
      books := Seed.Books();
      notes := Seed.Notes();
      nextBookId := 11;
      nextNoteId := 9;
      SeedConsistent(books);
    }

    /** `POST /resetWithFaker`: as Reset, with a cover drawn by `cover` for each seed book. */
    method ResetWithFaker(cover: nat -> string)
      modifies this
      ensures Valid()
      ensures books == Seed.BooksWithCovers(cover) && notes == Seed.Notes()
      ensures nextBookId == 11 && nextNoteId == 9
    {
      books := Seed.BooksWithCovers(cover);
      notes := Seed.Notes();
      nextBookId := 11;
      nextNoteId := 9;
      SeedConsistent(books);
    }
  }
}
