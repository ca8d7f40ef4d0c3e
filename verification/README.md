# Notes manager: a verified model of its note collection

`script.js` is a browser notes app. It keeps one shared list `notes` of
note records with the fields text, category, priority, color, timestamp,
pinned and archived. Each handler (add, save an edit, delete, pin, archive)
changes that list. It then writes the list to local storage under the key
`"notes"` and re-renders it with `displayNotes()`. A search box shows the
notes whose text contains the query, ignoring case.

The project models that collection in three modules:

- `strings.dfy` (module `Strings`): the three string operations the app
  relies on: `String.prototype.trim` (ECMAScript WhiteSpace and
  LineTerminator), `toLowerCase` restricted to ASCII, and `includes`.
- `notes.dfy` (module `Notes`): the note record and the pure list
  operations:
  - the search filter;
  - the display sort with the comparator `(a, b) => b.pinned - a.pinned`;
  - the rows the display loop renders;
  - the single-note updates;
  - `splice(index, 1)`.

  The sort is proved to be a stable partition: pinned notes first, each
  group in input order. It is also proved equal to a reference stable
  insertion sort driven by the source's own comparator. ECMAScript has
  required `Array.prototype.sort` to be stable since ES2019.
- `store.dfy` (module `Store`): the class `NoteStore`.
  - Its fields are the list `notes` and the rendered rows `screen`.
  - It has two ghost fields: `persisted`, the copy in local storage, and
    `writes`, the number of storage writes.
  - Each handler is a method whose `ensures` clause gives the whole new
    state.

Two behaviours of the code shape the model.

- **The display sort works in place.** `displayNotes()` with its default
  argument sorts `notes` itself, so after every handler the storage list is
  in display order. The class invariant `Valid()` says two things: no
  unpinned note comes before a pinned one, and the stored copy holds the
  same notes as the list. The copy is written before the sort, so only the
  order may differ. Because of this, every row's index is the storage
  position of its note (`DisplayNotes`). After a search, the indices are
  positions in the sorted search result, as the code has it.
- **Bad indices.** `togglePin` and `toggleArchive` read `notes[index]`
  before writing. On an index with no note that throws, and nothing is
  written. Those methods return `ok == false` and leave the state
  unchanged. `SaveNote` does the same, although `saveNote` can throw for
  more indices than that (see "Left out"). `deleteNote` uses `splice`,
  which does not throw (see below); `SpliceOne` follows its rules.

Behaviour worth knowing, which the model follows:

- **Delete with a bad index.** `deleteNote` does not reject an index that
  names no note. A negative index removes the note at `length + index`, or
  the first note when that is still negative. An index at or past the end
  removes nothing, and the list is still written and re-rendered.
- **Saving empty text.** `addNote` rejects text that is empty once
  trimmed, but `saveNote` stores the trimmed edited text even when it is
  empty. `Edit` does the same.
- **Pinning twice.** Pinning a note and then unpinning it does not in
  general restore the list, because the in-place sort moves the note
  (`PinTwiceReorders`). Archiving twice does restore it
  (`ToggleArchiveTwice`).

## Model

| member | source | states |
|---|---|---|
| Strings.IsWhiteSpace | script.js:41 | the characters trim removes never include an ASCII letter or digit |
| Strings.TrimStart | script.js:41 | the result is a suffix of the input; every character cut off is white space; the result does not start with white space |
| Strings.TrimEnd | script.js:41 | the result is a prefix of the input; every character cut off is white space; the result does not end with white space |
| Strings.Trim | script.js:41 | trim gives a contiguous piece of the input that neither starts nor ends with white space, and everything cut off before and after it is white space; it is empty exactly when the input is all white space |
| Strings.TrimBothEnds | script.js:41 | trimming the start and then the end leaves the piece at the position after the leading white space, with only white space cut off on either side; it is empty exactly when everything is white space |
| Strings.TrimKeeps | script.js:41 | text with no white space at either end is its own trim |
| Strings.TrimIdempotent | script.js:86 | re-trimming a saved text changes nothing |
| Strings.LowerChar | script.js:119 | ASCII upper-case letters map to their lower-case letter; every other character is kept |
| Strings.Lower | script.js:119-120 | same length; each upper-case ASCII letter becomes its lower-case letter (code point + 32); every other character is kept |
| Strings.LowerIdempotent | script.js:119-120 | lowering twice is lowering once |
| Strings.Includes | script.js:120 | a string that includes a query is at least as long as the query |
| Strings.OccursAtStart | script.js:120 | the query occurs at position 0 exactly when it is a prefix |
| Strings.OccursShift | script.js:120 | an occurrence past position 0 is an occurrence in the rest of the string, one position earlier |
| Strings.IncludesIff | script.js:120 | `includes` holds exactly when the query occurs at some position (both directions) |
| Strings.IncludesEmpty | script.js:119-120 | the empty query is included in every text |
| Notes.Filter | script.js:120 | `Array.prototype.filter` returns no more elements than its input |
| Notes.FilterMembers | script.js:120 | every element the filter returns is in the input and passes the test |
| Notes.FilterPicksPositions | script.js:120 | the filter's k-th element is the element at the k-th passing position; the positions increase; a position is picked exactly when its element passes |
| Notes.FilterPartition | script.js:16 | splitting by a test and its negation loses and duplicates nothing (multisets) |
| Notes.FilterEachPasses | script.js:120 | every element the filter returns, taken by index, passes the test |
| Notes.Matches | script.js:120 | the filter callback: a note matches when its lower-cased text includes the lower-cased query, so a match needs a query no longer than the text |
| Notes.MatchesIgnoresQueryCase | script.js:119-120 | a query and its lower-cased form match the same notes |
| Notes.Search | script.js:119-120 | the search result is no longer than the list; every note in it is in the list and matches the lower-cased query |
| Notes.SearchExact | script.js:119-120 | the result is exactly the matching notes in storage order: its k-th note is at the k-th matching position, and a position is among them exactly when its note matches |
| Notes.SearchEmptyQuery | script.js:119-120 | the empty query returns the whole list, archived notes included |
| Notes.KeyFirst | script.js:16 | the partition by a key (passing elements, then the rest) has the length of its input |
| Notes.KeyFirstPermutes | script.js:16 | the partition by a key is a permutation of its input |
| Notes.KeyFirstSorted | script.js:16 | in the partition no element failing the key comes before one passing it |
| Notes.KeyFirstStable | script.js:16 | the partition keeps the input order within each group |
| Notes.KeyFirstFixpoint | script.js:16 | the partition leaves a list alone exactly when the list is already sorted by the key |
| Notes.KeyFirstNonePass | script.js:16 | a sorted list whose head fails the key has no passing element, so the partition leaves it alone |
| Notes.InsertIntoFailing | script.js:16 | inserting into failing elements puts a passing element first and a failing one last |
| Notes.InsertIntoGroups | script.js:16 | with the comparator ranking by a boolean key, insertion puts a passing element at the end of the passing group and a failing one at the very end |
| Notes.KeyFirstIsStableSort | script.js:16 | for such a comparator, the stable insertion sort equals the partition |
| Notes.ComparePinned | script.js:16 | the comparator `b.pinned - a.pinned` is negative exactly when only `a` is pinned, positive exactly when only `b` is pinned, and zero when both agree |
| Notes.InsertBy | script.js:16 | insertion for the reference stable sort adds exactly the inserted element |
| Notes.SortBy | script.js:16 | the reference stable sort (insertion in input order, after ties) is a permutation of its input |
| Notes.PinSort | script.js:16 | the display sort is a permutation of its input with every pinned note before every unpinned one |
| Notes.PinSortStable | script.js:16 | within the pinned group and within the unpinned group the input order is kept |
| Notes.PinSortFixpoint | script.js:16 | the sort leaves a list alone exactly when no unpinned note precedes a pinned one |
| Notes.PinSortIdempotent | script.js:16 | sorting twice is sorting once |
| Notes.PinSortIsStableSort | script.js:16 | the display sort equals the stable insertion sort by the comparator `b.pinned - a.pinned` |
| Notes.Render | script.js:17-37 | the rows for a list are at most one per note |
| Notes.RowsFromLength | script.js:17-37 | the loop appends at most one row per remaining position |
| Notes.RowsFromNotes | script.js:17-37 | the rows from a position on carry the notes of that suffix that are not archived, in order |
| Notes.RowsFromIndices | script.js:17-37 | every row from a position on names the position of its note, and the positions increase |
| Notes.RowsFromMembers | script.js:17-37 | a position from the start point on has a row exactly when its note is not archived |
| Notes.RenderSpec | script.js:17-37 | the rendered notes are the walked list without archived notes, in order; no archived note is rendered; each row's index is the position of its note; indices increase; a position has a row exactly when its note is not archived |
| Notes.Edit | script.js:86-87 | a save sets text to the trimmed edited text and timestamp to the save time; every other field is kept |
| Notes.FlipPinned | script.js:103 | only `pinned` changes, to its negation |
| Notes.FlipArchived | script.js:109 | only `archived` changes, to its negation |
| Notes.FlipTwice | script.js:102-112 | flipping `pinned`, or `archived`, of the same note twice restores the list |
| Notes.PinSortSwaps | script.js:16 | an unpinned note followed by a pinned one swap places in the sort |
| Notes.UnpinnedPairStays | script.js:16 | two unpinned notes keep their order in the sort |
| Notes.PinSecondOfTwo | script.js:102-106 | pinning the second of two unpinned notes moves it to the front |
| Notes.UnpinFirstOfTwo | script.js:102-106 | unpinning a pinned front note leaves it in front of the unpinned note after it |
| Notes.PinTwiceReorders | script.js:102-106 | pinning and then unpinning a note (re-sorted each time) swaps two unpinned notes instead of restoring them |
| Notes.SpliceStart | script.js:97 | splice's start position: an in-range start is kept; a negative one counts from the end; one past the end becomes the length; one before the beginning becomes 0 |
| Notes.SpliceOne | script.js:97 | `splice(start, 1)`: a start at or past the end removes nothing; an in-range start removes that note; a negative start removes the note at `length + start`, or the first note when that is still negative |
| Notes.DeleteShifts | script.js:97 | deleting at a valid index leaves one note fewer; earlier notes stay; each later note moves down one place unchanged; the multiset loses exactly that note |
| Notes.SortedAppendUnpinned | script.js:47-56 | appending an unpinned note keeps the list in display order |
| Notes.SortedSplice | script.js:97 | splice keeps the list in display order |
| Notes.SortedRemove | script.js:97 | removing one note keeps the list in display order |
| Notes.SortedUpdateSamePin | script.js:86-87 | replacing a note by one with the same `pinned` keeps the list in display order |
| Store.RenderRows | script.js:17-37 | the display loop produces exactly the rows `Render` describes |
| Store.NoteStore.constructor | script.js:12 | the list is the stored one, or empty when nothing is stored; the first display sorts it, renders it and writes nothing |
| Store.NoteStore.UpdateLocalStorage | script.js:114-116 | the stored copy becomes the current list; one write more; nothing else changes |
| Store.NoteStore.DisplayNotes | script.js:14-38 | the list is sorted in place and rendered; the invariant holds; every row's index is the storage position of its note |
| Store.NoteStore.AddNote | script.js:40-63 | empty trimmed text changes nothing and writes nothing; otherwise exactly one new unpinned, unarchived note with the trimmed text, the given fields and the time `now` is appended last, the list is written once and rendered, and the invariant is kept |
| Store.NoteStore.SaveNote | script.js:79-94 | an index with no note changes nothing; otherwise only that note's text and timestamp change, the list is written and rendered, and no note moves |
| Store.NoteStore.DeleteNote | script.js:96-100 | the list becomes `notes.splice(index, 1)` (unchanged for an index at or past the end), is written and rendered, and stays in display order |
| Store.NoteStore.TogglePin | script.js:102-106 | an index with no note changes nothing; otherwise the written list is the old one with that note's `pinned` flipped, and the list becomes its display sort |
| Store.NoteStore.ToggleArchive | script.js:108-112 | an index with no note changes nothing; otherwise only that note's `archived` flips in place, and the list is written and rendered |
| Store.NoteStore.SearchNotes | script.js:118-122 | the screen shows the rendered, sorted search result; the list and the stored copy are untouched |
| Store.ToggleArchiveTwice | script.js:108-112 | archiving the same note twice restores the list |

## Left out

- DOM work: the `innerHTML` template, `createElement`, `contentEditable`
  and showing or hiding the buttons (script.js:15, 18-35, 72-77, 88-92).
  All of `editNote` is left out too. A row is its index and its note.
- Store.NoteStore.SaveNote: `ok` holds for more indices than the source's
  no-throw condition. The source first looks up the row element through
  `notesList.children[index]` (script.js:80-81). That lookup is undefined
  for any index with no rendered row, and the call then throws before
  anything is written. Archived notes have no rendered row, so with one
  archived note `saveNote(0)` throws, while `SaveNote(0, ...)` saves. The
  edited text is a parameter. Which paragraph that lookup finds when
  archived notes come earlier in the list is not modelled either.
- Resetting the form fields after an add (script.js:57-60): these are input
  widgets, not note state.
- `localStorage` and JSON (script.js:12, 115): storage is the ghost field
  `persisted`, and loading takes an optional list. A stored value that is
  not valid JSON makes `JSON.parse` throw at page load, and that case is
  not modelled.
- `Date.now()` and `toLocaleString()` (script.js:26, 52, 87): the time is
  the parameter `now`, an integer, and nothing is assumed about its order
  between calls.
- Strings.Lower: only ASCII letters are lowered. Full Unicode case mapping
  is not modelled.
- `exportNotes` (script.js:128-138): it only builds a download link.
- `toggleDarkMode` (script.js:124-126): it only toggles a CSS class.
- The event listeners and the `window.*` assignments (script.js:140-153).
  The assignments at script.js:149-153 sit outside the `DOMContentLoaded`
  callback, where `editNote` and the other handlers are not in scope. As
  written, they throw a ReferenceError, so the inline `onclick` attributes
  cannot reach edit, save, delete, pin or archive. The model treats those
  handlers as callable.
- Store.NoteStore.SearchNotes: a later button press addresses a note by
  its position in the search result. Nothing is claimed about which
  storage note that position then reaches.
- Concurrency: one handler runs at a time, as in a browser event loop.
