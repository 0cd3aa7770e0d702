/** The records the store keeps and the two helpers that build and check a book before it is
    stored: `normalizeBookInput` and `validateBookRequired`. */
module Records {
  import opened Wrappers
  import opened Coercion

  /** A book's year after `Number(...)`: a whole number, NaN, or an infinity. */
  datatype Year = WholeYear(value: int) | NaNYear | InfiniteYear(negative: bool)

  /** The fields of a book apart from its id, as `normalizeBookInput` returns them. */
  datatype BookData = BookData(
    name: string, author: string, editor: string, year: Year,
    read: bool, favorite: bool, rating: Option<int>, cover: Option<string>, theme: Option<string>)

  datatype Book = Book(id: int, data: BookData)

  datatype Note = Note(id: int, bookId: int, content: string, dateISO: string)

  /** A request body for creating or updating a book; `None` is a field that is missing or
      `null`. Each present field already has the type the store coerces it to. */
  datatype Payload = Payload(
    name: Option<string>, author: Option<string>, editor: Option<string>, year: Option<Year>,
    read: Option<JsValue>, favorite: Option<JsValue>, rating: Option<JsNumber>,
    cover: Option<string>, theme: Option<string>)

  const EmptyPayload := Payload(None, None, None, None, None, None, None, None, None)

  /** The message `validateBookRequired` returns. */
  const RequiredMessage := "Champs requis: name, author, editor, year (numérique)."

  /** A stored rating is either absent or a whole number from 0 to 5. */
  predicate RatingOk(rating: Option<int>) {
    rating.None? || 0 <= rating.value <= 5
  }

  /** `normalizeBookInput(payload, existing)`: every field is taken from the payload when it is
      present there (coerced as the source coerces it), otherwise from the existing record,
      otherwise from its default (`""`, 0, `false` or no value). Create passes no existing record. */
  function Normalize(p: Payload, existing: Option<BookData>): (r: BookData)
    ensures (existing.None? || RatingOk(existing.value.rating)) ==> RatingOk(r.rating)
  {
    BookData(
      name := p.name.GetOr(if existing.Some? then existing.value.name else ""),
      author := p.author.GetOr(if existing.Some? then existing.value.author else ""),
      editor := p.editor.GetOr(if existing.Some? then existing.value.editor else ""),
      year := p.year.GetOr(if existing.Some? then existing.value.year else WholeYear(0)),
      read := if p.read.Some? then ToBool(p.read.value)
              else if existing.Some? then existing.value.read else false,
      favorite := if p.favorite.Some? then ToBool(p.favorite.value)
                  else if existing.Some? then existing.value.favorite else false,
      rating := if p.rating.Some? then ClampRating(p.rating)
                else if existing.Some? then existing.value.rating else None,
      cover := if p.cover.Some? then p.cover else if existing.Some? then existing.value.cover else None,
      theme := if p.theme.Some? then p.theme else if existing.Some? then existing.value.theme else None)
  }

  /** The condition `validateBookRequired` checks: name, author and editor non-empty and a
      finite year. */
  predicate Complete(d: BookData) {
    d.name != "" && d.author != "" && d.editor != "" && d.year.WholeYear?
  }

  /** `validateBookRequired(b)`: no error exactly when the record is complete. */
  function ValidateRequired(d: BookData): (r: Option<string>)
    ensures r == None <==> Complete(d)
    ensures r != None ==> r.value == RequiredMessage
  {
    if d.name == "" || d.author == "" || d.editor == "" || !d.year.WholeYear? then Some(RequiredMessage)
    else None
  }

  /** Normalizing an empty payload over an existing record reproduces that record. */
  lemma NormalizeEmptyPayload(d: BookData)
    ensures Normalize(EmptyPayload, Some(d)) == d
  {
  }

  /** Without a payload and without an existing record every field takes its default. */
  lemma NormalizeDefaults()
    ensures Normalize(EmptyPayload, None) ==
      BookData("", "", "", WholeYear(0), false, false, None, None, None)
  {
  }

  /** Field by field, the later payload wins over the earlier one: `p2 ?? p1`. */
  function Overlay(p2: Payload, p1: Payload): Payload {
    Payload(
      if p2.name.Some? then p2.name else p1.name,
      if p2.author.Some? then p2.author else p1.author,
      if p2.editor.Some? then p2.editor else p1.editor,
      if p2.year.Some? then p2.year else p1.year,
      if p2.read.Some? then p2.read else p1.read,
      if p2.favorite.Some? then p2.favorite else p1.favorite,
      if p2.rating.Some? then p2.rating else p1.rating,
      if p2.cover.Some? then p2.cover else p1.cover,
      if p2.theme.Some? then p2.theme else p1.theme)
  }

  /** Two successive updates with `p1` then `p2` leave the same record as one update with the
      two payloads overlaid. */
  lemma NormalizeComposes(p1: Payload, p2: Payload, existing: Option<BookData>)
    ensures Normalize(p2, Some(Normalize(p1, existing))) == Normalize(Overlay(p2, p1), existing)
  {
  }

  /** Applying the same payload a second time changes nothing (a repeated PUT is idempotent). */
  lemma NormalizeIdempotent(p: Payload, existing: Option<BookData>)
    ensures Normalize(p, Some(Normalize(p, existing))) == Normalize(p, existing)
  {
    NormalizeComposes(p, p, existing);
    assert Overlay(p, p) == p;
  }

  /** The payload a client sends when it posts back the fields of a record it read. */
  function PayloadOf(d: BookData): Payload {
    Payload(Some(d.name), Some(d.author), Some(d.editor), Some(d.year),
            Some(JBool(d.read)), Some(JBool(d.favorite)),
            if d.rating.Some? then Some(Finite(d.rating.value as real)) else None,
            d.cover, d.theme)
  }

  /** Creating a book from the fields of a stored record recreates them exactly. */
  lemma {:induction false} NormalizePayloadOf(d: BookData)
    requires RatingOk(d.rating)
    ensures Normalize(PayloadOf(d), None) == d
  {
    if d.rating.Some? {
      ClampRatingKeepsValidRating(d.rating.value);
    }
  }

  /** A create whose payload has a non-empty name, author and editor but no year passes the
      required-field check: the missing year defaults to 0, which is finite. */
  lemma MissingYearAccepted(p: Payload)
    requires p.name.Some? && p.name.value != ""
    requires p.author.Some? && p.author.value != ""
    requires p.editor.Some? && p.editor.value != ""
    requires p.year.None?
    ensures Normalize(p, None).year == WholeYear(0)
    ensures ValidateRequired(Normalize(p, None)) == None
  {
  }
}
