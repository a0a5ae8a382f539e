# Book list: a verified model of its collection logic

The page keeps a list of book records in one local-storage slot (key
`books.v1`). Three user commands change the list: create (form submission),
delete-one (a record's delete button) and clear-all. Delete-one loads the
whole collection, removes the matching records and saves the result. Create
first rejects a blank title without loading or saving; otherwise it loads the
collection, prepends the new record and saves. Clear-all saves only after a
confirmed prompt on a non-empty collection. A renderer derives the
visible list from the stored collection. This project models that logic in
Dafny:

- `wrappers.dfy` (`Wrappers`): the `Option` type for absent fields.
- `text.dfy` (`Text`): `String.prototype.trim` over an explicit set of
  white-space and line-terminator characters.
- `decimal.dfy` (`Decimal`): `String(n)` for an integral year.
- `books.dfy` (`Books`): the record, the submitted form, how the create
  command builds a record, and the delete filter. It also has the invariants
  "every title is non-empty" and "identifiers are unique", with the lemmas
  that the commands keep them.
- `storage.dfy` (`Storage`): the persisted slot, and a `Store` class whose
  `LoadBooks` never fails and whose `SaveBooks` overwrites the slot.
- `commands.dfy` (`Commands`): the three commands as methods on the store,
  plus a walk-through of the record lifecycle.
- `render.dfy` (`Render`): the meta-line parts, the item derived for each
  record, and `Render`, which builds the view in a loop.

Nondeterminism is passed in as parameters. The generated identifier (`id`)
and the clock reading (`createdAt`) are inputs of `Create`. The answer to the
confirmation prompt is the `confirmed` input of `ClearAll`. Number parsing is
the `parseYear` input of `Create`. It stands for `Number(text)` followed by
the `isFinite` test: `None` means the number is not finite.

Behaviour of the code worth noting:

- Saving what was loaded is not a no-op on the stored text. An unparseable
  slot reads as the empty collection and is then overwritten with the empty
  collection. `Storage.SaveOfLoad` states what does hold: the loaded
  collection is unchanged, and a written slot stays exactly as it was.
- Delete-one removes every record with the given identifier, not one.
  The collection shrinks by exactly one only when identifiers are unique
  (`Books.DeleteRemovesOne`).
- Delete-one always writes, even when nothing matched. So an unparseable
  slot becomes the empty collection after a delete.
- Clear-all on an unparseable slot sees an empty collection, so it writes
  nothing and the unparseable text stays.
- The meta-line separator is the literal `" ? "`, as the page has it.

## Model

| member | source | states |
|---|---|---|
| `Text.Trim` | script.js:74-78 | empty exactly when the input is all white space; otherwise the slice between the leading and trailing white-space runs, which neither starts nor ends with white space |
| `Text.TrimOfTrimmed` | script.js:74-78 | a string with no white space at either end trims to itself |
| `Text.TrimIdempotent` | script.js:74-78 | trimming twice equals trimming once |
| `Text.TrimIgnoresPadding` | script.js:74-78 | white space added at either end does not change the trimmed text |
| `Decimal.IntToDecimal` | script.js:46 | `String(year)` is non-empty, starts with `-` exactly for negative years, and is the digits of the magnitude otherwise |
| `Decimal.DecimalRoundTrip` | script.js:46 | reading the rendered digits back gives the number |
| `Decimal.IntToDecimalInjective` | script.js:46 | different years render as different strings |
| `Books.BuildBook` | script.js:74-89 | no record exactly when the trimmed title is empty; else id and timestamp as given, the title is the trimmed input and non-empty, author/isbn/description present exactly when their trimmed input is non-empty and then equal to it, year present exactly when its trimmed text is non-empty and parses to a finite number, and then that number |
| `Books.BuildBookWellFormed` | script.js:74-89 | every built record has a non-empty trimmed title and non-empty trimmed optional fields |
| `Books.Without` | script.js:57 | after the filter no record has the deleted identifier, the result is no longer than the input, and it is the input itself when no record had that identifier |
| `Books.WithoutCounts` | script.js:57 | a record with another identifier is kept as often as it occurs; one with the deleted identifier not at all |
| `Books.WithoutAppend` | script.js:57 | the filter keeps order: filtering a concatenation concatenates the filtered parts |
| `Books.WithoutSingleton` | script.js:57 | a single record is kept exactly when its identifier differs |
| `Books.DeleteRemovesOne` | script.js:57 | with unique identifiers, deleting the identifier at position k removes exactly that record; length drops by one and the rest keep their order |
| `Books.WithoutPreservesInvariants` | script.js:57 | deleting keeps every title non-empty and identifiers unique |
| `Books.PrependPreservesInvariants` | script.js:91-92 | prepending a well-formed record with a new identifier keeps every title non-empty and identifiers unique |
| `Storage.Store.LoadBooks` | script.js:13-18 | never fails: returns the written collection, or the empty one when the slot is missing or unparseable |
| `Storage.Store.SaveBooks` | script.js:20-22 | overwrites the slot with the collection, which a later load returns |
| `Storage.SaveOfLoad` | script.js:13-22 | saving what was loaded leaves the loaded collection unchanged and a written slot untouched; it turns a missing or unparseable slot into the written empty collection |
| `Commands.Create` | script.js:71-100 | a blank title gives "Title is required" and no write; otherwise the slot holds the built record followed by the old collection in order (length one more), the toast is "Book created", and the title and identifier invariants are kept when the identifier is new |
| `Commands.DeleteOne` | script.js:56-61 | saves the loaded collection without the identifier; no such record remains; nothing changes in the collection when none matched; the invariants are kept |
| `Commands.ClearAll` | script.js:106-113 | prompts exactly when the collection is non-empty; an empty collection or a declined prompt leaves the slot untouched with no toast; a confirmed prompt saves the empty collection and shows "All books cleared" |
| `Commands.Lifecycle` | script.js:56-113 | from an empty slot: create "Dune", create "Foundation" (1951), giving [Foundation, Dune]; delete Dune, giving [Foundation]; clear all, giving [] |
| `Render.MetaParts` | script.js:44-47 | at most three non-empty parts, one for each shown field, in the order author, year (only when non-zero), `#`isbn; non-empty exactly when one of those fields is shown |
| `Render.Join` | script.js:48 | joining no parts gives the empty line, one part gives that part, and a longer list starts with its first part |
| `Render.JoinAppend` | script.js:48 | joining two non-empty lists of parts is the two joined lines with the separator between them, so every line is its parts separated by the separator |
| `Render.MetaLineOfFullRecord` | script.js:44-48 | with all three fields shown the line is author, separator, year, separator, `#`isbn |
| `Render.ItemOf` | script.js:36-66 | an item carries the record's title and the identifier its delete button removes; the meta line is present exactly when meta parts exist, and is then their non-empty join; the description line is present exactly when the description is non-empty |
| `Render.Render` | script.js:28-69 | shows the empty state exactly when the loaded collection is empty; otherwise one item per record, in collection order |

## Left out

- Page construction, `innerHTML`, element creation and event wiring: they are display only. `Render` returns the data the page shows.
- The notification area and its 1.6-second auto-hide timer: display only. The commands return the notification they would show.
- The form reset, the focus move and the form-clear button's notification: they do not touch the collection.
- `confirm()`: it is the `confirmed` parameter of `ClearAll`.
- `Date.now()` and `Math.random()`: the identifier and timestamp are parameters. Identifier uniqueness is not claimed. The invariant lemmas assume the new identifier is not already present.
- JSON serialization and `localStorage`: these are foreign library calls. The slot is a datatype whose written state decodes to exactly what was saved. No shape check is done on parsed data, because the code does none; text that parses to something other than a list of records is not modelled.
- A failing `localStorage.setItem` (for example a full quota): it is not caught in the code, and it is not modelled.
- `Number()` and `isFinite`: floating point, given as the `parseYear` parameter of `Create`.
- `Books.BuildBook`: the year is an integer. A finite non-integral number such as 19.5, which the code would store, is not representable.
- `Decimal.IntToDecimal`: uses plain decimal for every integer. JavaScript switches to exponent notation from 10^21 on.
- `Text.IsWhitespace`: works on Unicode scalar values rather than UTF-16 code units. This makes no difference for the white-space characters, which are all in the Basic Multilingual Plane.
