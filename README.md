# Book list store — a Dafny model

This project models the core of a small book-list backend (`server.js`). The backend keeps an
in-memory collection of books and a collection of notes attached to them. The model covers:

- the helpers that coerce and check a request before it reaches the store: `clampRating`,
  `toBool`, `normalizeBookInput` and `validateBookRequired`;
- the store itself: the `books` and `notes` collections, the counters `nextBookId` and
  `nextNoteId`, and one method per route body (list, get, create, update, delete, list notes,
  create note, stats, reset, reset with drawn covers);
- the list query of `GET /books`: the text, author, read, favorite and theme filters, then the
  optional sort on one field compared as text, reversed for `order=desc`;
- the counts of `GET /stats`.

The store is the class `BookStore.Store`. Its fields are the module-level state of the server.
Its methods change that state as the handlers do, and state the new state in their `ensures`.
Every state satisfies `BookStore.Consistent`:

- book ids and note ids are positive, strictly increasing and below their counter;
- every stored book passed the required-field check and has a rating in 0..5;
- every note is non-empty and belongs to a stored book.

The pure helpers, the query and the stats are functions. Lemmas prove what the handlers promise
about them.

Modules: `Wrappers` (Option), `Seqs` (`filter`, `reverse`, subsequences), `Text` (`toLowerCase`,
`trim`, `includes`, integer `toString`), `Coercion` (numbers, JSON values, `Math.round`,
`clampRating`, `toBool`), `Records` (books, notes, payloads, normalization, validation),
`Sorting` (the stable sort by a collation key), `Query` (`GET /books`), `Stats` (`GET /stats`),
`Seed` (the seed data) and `BookStore` (the store, its invariant and its route methods).

Inputs from outside the core are parameters:

- `now` is the timestamp `new Date().toISOString()` would give;
- `cover(i)` is the image URL the placeholder generator would draw for the i-th seed book;
- `collate` maps a string to its collation key under the French, base-sensitivity collation of
  `localeCompare`; keys are compared lexicographically.

Two behaviours of the code that its own messages and field names do not suggest; the model
does what the code does:

- A create without a `year` is accepted with year 0 (server.js:240 and 249-250). The
  validation message lists `year` as required, but a missing year becomes `existing.year ?? 0`,
  and 0 passes `Number.isFinite`. See `Records.MissingYearAccepted`.
- Every falsy field value sorts as the empty string (server.js:328): 0, `false`, `""` and a
  missing value alike, because of `(b[key] || "")`. So a rating of 0, an unread flag and a
  year 0 sort with the empty values. See `Query.SortText`.

## Model

| member | source | states |
|---|---|---|
| Coercion.Round | server.js:227 | `Math.round`: the integer r with r − ½ ≤ x < r + ½, so halves round up |
| Coercion.Clamp | server.js:227 | `Math.max(0, Math.min(5, n))`: in 0..5, n itself when in range, else the nearer bound |
| Coercion.ClampRating | server.js:223-228 | no rating exactly for a missing value or NaN; otherwise the rounded value clamped into 0..5, infinities to the bound on their side |
| Coercion.ClampRatingKeepsValidRating | server.js:223-228 | a whole rating 0..5 passes through unchanged |
| Coercion.ClampRatingIdempotent | server.js:223-228 | clamping a clamped rating changes nothing |
| Coercion.Truthy | server.js:233 | definition of `Boolean(v)`: false exactly for `false`, "", 0 and NaN; used by ToBool |
| Coercion.ToBool | server.js:230-234 | a boolean is kept; a string is true exactly when it lower-cases to "true"; any other value gives its truthiness |
| Coercion.ToBoolStrings | server.js:232 | the strings accepted as true are exactly the 16 upper/lower-case spellings of "true" |
| Coercion.ToBoolIgnoresCase | server.js:232 | a string and its lower-cased form coerce alike |
| Text.ToLower | server.js:297 | `toLowerCase` keeps the length and lower-cases each character by itself (LowerChar) |
| Text.ToLowerIdempotent | server.js:297 | lower-casing twice is lower-casing once |
| Text.IsWhite | server.js:389 | definition: the white-space and line-terminator characters `trim` removes |
| Text.Trim | server.js:389 | the result is the slice of the input between a white prefix and a white suffix; it is empty exactly when the input is all white space; otherwise it starts and ends with a non-white character, so exactly the leading and trailing white space is removed |
| Text.TrimIdempotent | server.js:389 | trimming a trimmed string changes nothing |
| Text.Contains | server.js:300-301 | `includes` holds exactly when the needle occurs as a contiguous slice |
| Text.NatText | server.js:328-329 | the decimal text of a natural number: only digits, non-empty, no leading zero except for 0 itself |
| Text.IntText | server.js:328-329 | the decimal text of an integer: '-' exactly for negatives, then at least one digit and only digits, no leading zero except for 0 itself, and the digits read back as the number's absolute value |
| Text.NatTextRoundTrip | server.js:328-329 | reading back the decimal text of a natural number gives the number |
| Text.NatTextInjective | server.js:328-329 | distinct numbers have distinct decimal texts |
| Records.Normalize | server.js:236-246 | the normalized rating is absent or in 0..5 whenever the existing record's rating is |
| Records.Complete | server.js:249 | definition: name, author and editor non-empty and the year finite; the condition ValidateRequired accepts and the store invariant keeps |
| Records.ValidateRequired | server.js:248-253 | no error exactly when name, author and editor are non-empty and the year is finite; otherwise the fixed message |
| Records.NormalizeEmptyPayload | server.js:236-246 | an empty payload over an existing record reproduces that record |
| Records.NormalizeDefaults | server.js:236-246 | with no payload field and no existing record every field takes its default ("", 0, false, none) |
| Records.NormalizeComposes | server.js:236-246 | updating with p1 then p2 equals one update with p2 overlaid over p1 |
| Records.NormalizeIdempotent | server.js:236-246 | applying the same payload twice equals applying it once |
| Records.NormalizePayloadOf | server.js:236-246 | creating from the fields of a stored record recreates them exactly |
| Records.MissingYearAccepted | server.js:240-249 | a create with name, author and editor but no year passes validation with year 0 |
| Seqs.Filter | server.js:371-372 | `filter` keeps exactly the elements satisfying the predicate, no more elements than the input |
| Seqs.FilterIsSubsequence | server.js:371-372 | `filter` keeps the relative order: the result is a subsequence of the input |
| Seqs.FilterKeepsOrder | server.js:371-372 | every relation between earlier and later elements survives filtering |
| Seqs.FilterFilter | server.js:296-316 | filtering by p then q equals filtering by p ∧ q |
| Seqs.FilterPartition | server.js:406-407 | what p keeps and what ¬p keeps add up to the input's length |
| Seqs.Reverse | server.js:332 | `reverse` puts element i at position n − 1 − i |
| Seqs.ReversePermutes | server.js:332 | `reverse` is a permutation |
| Seqs.FilterReverse | server.js:332 | filtering commutes with reversal |
| Sorting.KeyLe | server.js:330 | definition of `localeCompare(a, b) <= 0` on collation keys: lexicographic order; properties in KeyLeTotal, KeyLeTransitive, KeyLeAntisymmetric |
| Sorting.KeyLeTotal | server.js:330 | any two collation keys are comparable |
| Sorting.KeyLeTransitive | server.js:330 | the key order is transitive |
| Sorting.KeyLeAntisymmetric | server.js:330 | keys that compare both ways are equal |
| Sorting.SortBy | server.js:327-331 | the sort is a permutation of its input |
| Sorting.SortBySorted | server.js:327-331 | the sorted result is ascending by key |
| Sorting.SortByStable | server.js:327-331 | elements with equal keys keep their original relative order |
| Sorting.ReverseSortedDescending | server.js:332 | reversing an ascending result gives a descending one |
| Query.MatchesSearch | server.js:296-302 | definition: no or empty `q`, or the lower-cased query occurs in the non-empty lower-cased name or author; used by Select |
| Query.MatchesAuthor | server.js:305-308 | definition: no or empty `author`, or equal to the book's author ignoring case; used by Select |
| Query.MatchesRead | server.js:309-310 | definition: `read` absent, or the flag equals `toBool(read)`, an empty `read=` included; used by Select |
| Query.MatchesFavorite | server.js:311-312 | definition: `favorite` absent, or the flag equals `toBool(favorite)`; properties in FavoriteFilterExact |
| Query.MatchesTheme | server.js:313-316 | definition: no or empty `theme`, or `(b.theme \|\| "")` equal to it ignoring case; used by Select |
| Query.SortField | server.js:319-326 | `title` names the field `name`; every other parameter value names itself |
| Query.SortText | server.js:328-329 | name, author, editor, cover and theme sort as their own text (a missing one as ""); id, year and rating as their decimal text, except 0, which sorts as ""; an infinite year as "Infinity" or "-Infinity", a NaN year as ""; read and favorite as "true" when set and "" otherwise; an unknown field as "" |
| Query.Rank | server.js:327-330 | definition: the collation key of a book's sort text, the comparator's key; used by SortedRun and SortedRunStable |
| Query.Descending | server.js:332 | definition: `order`, or "", lower-cases to "desc"; properties in SortedRun |
| Query.Run | server.js:292-336 | definition: the filtered list, then the sort step; properties in RunSelectsExactly, UnsortedIsSubsequence, SortedRun and SortedRunStable |
| Query.Matches | server.js:296-316 | definition: the conjunction of the five filters; Select keeps exactly the books it accepts |
| Query.Select | server.js:296-316 | the filtered list holds exactly the books of the store that pass every supplied filter |
| Query.SelectIsChain | server.js:296-316 | the five filters applied in the handler's order keep exactly what their conjunction keeps |
| Query.Arrange | server.js:318-333 | the sort step is a permutation of the filtered list |
| Query.RunSelectsExactly | server.js:292-336 | the response holds each matching book as often as the store does, and nothing else |
| Query.UnsortedIsSubsequence | server.js:292-316 | without `sort` the response is the filtered list, an order-preserving subsequence of the store |
| Query.SortedRun | server.js:318-333 | with `sort` the response is ascending by the field's collated text, descending for `order=desc` |
| Query.SortedRunStable | server.js:318-333 | books whose texts collate equal stay in store order, or reverse store order for `desc` |
| Query.FavoriteFilterExact | server.js:311-312 | `?favorite=f` returns exactly the books whose flag equals `toBool(f)`, in store order |
| Query.SelectIdempotent | server.js:296-316 | filtering the result again with the same query changes nothing |
| Query.YearSortsAsText | server.js:324-330 | years sort as text: under code-point collation year 10 comes before year 9 |
| Stats.RatingSum | server.js:409-411 | definition of the `reduce` sum, a missing rating adding 0; bounds in RatingSumBounds |
| Stats.Summarize | server.js:404-411 | definition of the counts; properties in SummaryCounts and RatingSumBounds |
| Stats.SummaryCounts | server.js:405-408 | readCount + unreadCount = totalBooks; unreadCount counts the unread books; read, favorite and rated counts are at most the total |
| Stats.RatingSumBounds | server.js:409-411 | with ratings in 0..5 the rating sum lies in 0..5 × the number of rated books |
| BookStore.HasBook | server.js:368 | definition of `books.some((b) => b.id === id)`, also at lines 379 and 386; FindIndex is −1 exactly when it fails |
| BookStore.Consistent | server.js:208-220 | definition of the store invariant: positive counters, strictly increasing ids below their counter, valid books, non-empty notes of stored books; kept by every state-changing method |
| BookStore.FindIndex | server.js:355 | `findIndex`: −1 exactly when no book has the id, otherwise the first index holding it |
| BookStore.BookIdsUnique | server.js:349 | in a consistent store no two books share an id |
| Seed.InitialBooks | server.js:52-163 | the ten seed books, field by field, without ids; properties in SeedBooksStorable |
| Seed.InitialNotes | server.js:165-206 | the eight seed notes with their `toISOString` dates; properties in SeedNotesAttached |
| Seed.Books | server.js:424-428 | definition: seed book i numbered i + 1, cover kept; properties in SeedConsistent and Store.Reset |
| Seed.BooksWithCovers | server.js:208-212 | definition: seed book i numbered i + 1 with cover `cover(i)`; properties in SeedConsistent and the constructor |
| Seed.Notes | server.js:214-217 | definition: seed note i numbered i + 1; properties in SeedConsistent and ResetNotesOfFirstBook |
| BookStore.SeedBooksStorable | server.js:52-163 | every seed book passes validation with a rating in 0..5 |
| BookStore.SeedNotesAttached | server.js:165-206 | every seed note is non-empty and names one of the ten seed books |
| BookStore.SeedConsistent | server.js:208-220 | the seed books numbered 1..10 and seed notes 1..8, with counters 11 and 9, form a consistent store |
| BookStore.AppendBookConsistent | server.js:349-350 | appending a complete book under the counter's id and advancing the counter keeps the invariant |
| BookStore.ReplaceBookConsistent | server.js:362 | replacing one book's fields under the same id keeps the invariant |
| BookStore.DeleteConsistent | server.js:371-372 | removing a book with its notes keeps the invariant, notes included |
| BookStore.AppendNoteConsistent | server.js:393-399 | appending a non-empty note of a stored book under the counter's id keeps the invariant |
| BookStore.IdOccursOnce | server.js:368 | with increasing ids an existing id occurs exactly once |
| BookStore.DeleteRemovesOneBook | server.js:371 | deleting an existing id removes exactly one book |
| BookStore.DeleteEffect | server.js:366-374 | delete keeps exactly the books with another id and the notes of other books, both in order, and no book with that id remains |
| BookStore.ResetListsSeedBooks | server.js:424-428 | after a reset the plain list is the ten seed books in seed order |
| BookStore.ResetNotesOfFirstBook | server.js:429-432 | after a reset the notes of book 1 are the first two seed notes |
| BookStore.Store.constructor | server.js:208-220 | start-up state: seed books with drawn covers, seed notes, counters 11 and 9, consistent |
| BookStore.Store.ListBooks | server.js:292-336 | the handler's step-by-step filters, then the sort and the reversal, give exactly the specified list |
| BookStore.Store.GetBook | server.js:338-342 | the book with that id, the only one, or NotFound exactly when there is none |
| BookStore.Store.CreateBook | server.js:344-352 | a complete candidate is appended with id nextBookId, above every earlier id, and the counter advances; otherwise a validation error and nothing changes; notes never change |
| BookStore.Store.UpdateBook | server.js:354-364 | an existing id has its record replaced in place under the same id when the merge is complete; otherwise NotFound or a validation error and nothing changes; no other book and no note changes |
| BookStore.Store.DeleteBook | server.js:366-374 | an existing id removes exactly one book and the notes attached to it; an unknown id is NotFound and changes nothing; counters never change |
| BookStore.Store.ListNotes | server.js:377-382 | NotFound for a missing book; otherwise exactly the notes of that book, in store order |
| BookStore.Store.CreateNote | server.js:384-401 | NotFound for a missing book and a validation error for blank content, both leaving notes and counter unchanged; otherwise one note with the next id, the book id, the trimmed content and `now` is appended |
| BookStore.Store.GetStats | server.js:404-409 | the summary of the current books; read and unread add up to the total; the rating sum is at most 5 per rated book |
| BookStore.Store.Reset | server.js:424-438 | books get ids 1..10 in seed order, notes ids 1..8, counters 11 and 9, and the state is consistent |
| BookStore.Store.ResetWithFaker | server.js:440-455 | as Reset, with a drawn cover on each seed book |

## Left out

- The HTTP layer is not modelled: Express, CORS, JSON body parsing, routing, status codes and
  response serialization. Every handler returns a `Result`: a value, `NotFound` (404) or
  `Validation` (400).
- The image upload is not modelled: the S3 client, multer's limits and MIME filter, and
  `POST /upload`. These are foreign I/O and asynchronous code.
- The placeholder image generator is not modelled. Its URLs come in as the parameter `cover`.
- The clock is not modelled. `new Date().toISOString()` comes in as the parameter `now`.
- The French `localeCompare` collation is not modelled. It comes in as the collation-key
  function `collate`.
- The sort algorithm of the JavaScript engine is not modelled. The model uses a stable insertion
  sort as the reference. ECMAScript requires `sort` to be stable, and for a consistent
  comparator a stable sort has only one possible result, but that uniqueness is not proved here.
- `result.sort` and `result.reverse` work in place on a local copy of `books`. The model
  reassigns a local sequence instead. The copy is never shared, so nothing observable differs.
- `averageRating` is not modelled, because it uses floating-point division and `toFixed(2)`.
  The model computes the two integers it divides: `ratedCount` and `ratingSum`.
- `Number()` and `String()` on arbitrary values are not modelled. Each payload field arrives
  already typed, or absent(`None`); `null` and `undefined` are both `None`. A non-string `name`,
  `author`, `editor`, `cover` or `theme` is not modelled, and neither is a non-string note
  `content`: a truthy one makes `trim` throw (a 500 response), a falsy one such as 0 or `false`
  is treated as the empty string (a 400 response). `CreateNote` takes the content as an
  optional string.
- Fractional years are not modelled. A year is a whole number, NaN or an infinity, because the
  model gives a decimal text only to integers.
- Numbers are exact reals. Floating-point rounding, -0 and `toString`'s exponent notation for
  very large numbers are not modelled.
- Route ids arrive as integers. A non-numeric or fractional id equals no stored id, so it
  behaves like an unknown integer id.
- Query parameters are each absent or a single string. A repeated parameter, which Express turns
  into an array, is not modelled.
- A `sort` key that names a property every JavaScript object inherits is not modelled
  (`constructor`, `toString`, `__proto__`, …). The model treats it as an unknown field, which
  sorts as "".
- Text.LowerChar: lower-cases only ASCII and Latin-1 capitals, because full Unicode case mapping
  is out of scope. Strings are sequences of code points, not UTF-16 code units.
- The seed notes' `dateISO` values are written as the strings `toISOString` gives for those
  dates; the date computation itself is not modelled.
- `dotenv` and the environment (port, bucket, endpoint) are not modelled.
