/** The seed data the store starts from and returns to on reset: ten books and eight notes. */
module Seed {
  import opened Wrappers
  import opened Records

  /** `initialBooks`, in order; none of them has a cover. */
  const InitialBooks: seq<BookData> := [
    BookData("Dune", "Frank Herbert", "Chilton Books", WholeYear(1965),
             true, true, Some(5), None, Some("Science-Fiction")),
    BookData("Le Meilleur des mondes", "Aldous Huxley", "Chatto & Windus", WholeYear(1932),
             false, false, Some(4), None, Some("Dystopie")),
    BookData("1984", "George Orwell", "Secker & Warburg", WholeYear(1949),
             true, true, Some(5), None, Some("Dystopie")),
    BookData("Fondation", "Isaac Asimov", "Gnome Press", WholeYear(1951),
             false, false, Some(3), None, Some("Science-Fiction")),
    BookData("Les Misérables", "Victor Hugo", "A. Lacroix, Verboeckhoven & Cie", WholeYear(1862),
             false, false, Some(4), None, Some("Classique")),
    BookData("L'Étranger", "Albert Camus", "Gallimard", WholeYear(1942),
             true, false, Some(5), None, Some("Philosophique")),
    BookData("Harry Potter à l'école des sorciers", "J.K. Rowling", "Bloomsbury", WholeYear(1997),
             true, true, Some(5), None, Some("Fantasy")),
    BookData("Le Seigneur des Anneaux", "J.R.R. Tolkien", "Allen & Unwin", WholeYear(1954),
             true, true, Some(5), None, Some("Fantasy")),
    BookData("Neuromancien", "William Gibson", "Ace Books", WholeYear(1984),
             false, false, Some(4), None, Some("Cyberpunk")),
    BookData("Le Petit Prince", "Antoine de Saint-Exupéry", "Reynal & Hitchcock", WholeYear(1943),
             true, true, Some(5), None, Some("Conte philosophique"))
  ]

  /** One entry of `initialNotes`: a note without its id. */
  datatype NoteSeed = NoteSeed(bookId: int, content: string, dateISO: string)

  /** `initialNotes`, in order, with each date in the form `toISOString` gives it. */
  const InitialNotes: seq<NoteSeed> := [
    NoteSeed(1, "Un classique de la SF politique et écologique.", "2024-05-10T00:00:00.000Z"),
    NoteSeed(1, "Très dense mais fascinant.", "2024-05-12T00:00:00.000Z"),
    NoteSeed(3, "Une vision glaçante du totalitarisme.", "2024-04-01T00:00:00.000Z"),
    NoteSeed(5, "Des descriptions magnifiques, mais parfois un peu longues.", "2024-03-14T00:00:00.000Z"),
    NoteSeed(7, "Idéal pour les plus jeunes lecteurs, mais plaisant à tout âge.", "2024-02-02T00:00:00.000Z"),
    NoteSeed(8, "Un univers légendaire, épique et intemporel.", "2024-01-20T00:00:00.000Z"),
    NoteSeed(10, "Poétique, simple et profond à la fois.", "2024-06-15T00:00:00.000Z"),
    NoteSeed(6, "La philosophie de l'absurde à son sommet.", "2024-07-21T00:00:00.000Z")
  ]

  /** The seed books numbered 1..10 in order, as `POST /reset` stores them. */
  function Books(): seq<Book> {
    seq(|InitialBooks|, i requires 0 <= i < |InitialBooks| => Book(i + 1, InitialBooks[i]))
  }

  /** The seed books numbered 1..10, each with the cover `cover(i)` drawn for it, as the start-up
      state and `POST /resetWithFaker` store them. */
  function BooksWithCovers(cover: nat -> string): seq<Book> {
    seq(|InitialBooks|, i requires 0 <= i < |InitialBooks| =>
      Book(i + 1, InitialBooks[i].(cover := Some(cover(i)))))
  }

  /** The seed notes numbered 1..8 in order. */
  function Notes(): seq<Note> {
    seq(|InitialNotes|, i requires 0 <= i < |InitialNotes| =>
      Note(i + 1, InitialNotes[i].bookId, InitialNotes[i].content, InitialNotes[i].dateISO))
  }
}
