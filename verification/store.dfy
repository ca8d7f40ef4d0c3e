/** The note collection of script.js: the shared `notes` list, what the
    display currently shows, and the copy written to local storage. Every
    handler that changes the list writes the copy and then calls
    displayNotes() with its default argument, which sorts `notes` itself in
    place before rendering it. */
module Store {
  import opened Strings
  import opened Notes

  datatype Option<T> = None | Some(value: T)

  /** The forEach loop of displayNotes: walks the sorted list and appends a
      row for every note that is not archived. */
  method RenderRows(sorted: seq<Note>) returns (rows: seq<Row>)
    ensures rows == Render(sorted)
  {
    rows := [];
    var i := 0;
    while i < |sorted|
      invariant 0 <= i <= |sorted|
      invariant rows + RowsFrom(sorted, i) == Render(sorted)
    {
      var head := if IsShown(sorted[i]) then [Row(i, sorted[i])] else [];
      assert RowsFrom(sorted, i) == head + RowsFrom(sorted, i + 1);
      assert rows + RowsFrom(sorted, i) == rows + head + RowsFrom(sorted, i + 1);
      if !sorted[i].archived {
        rows := rows + [Row(i, sorted[i])];
      }
      i := i + 1;
    }
    assert rows + [] == rows;
  }

  class NoteStore {
    /** The shared list every handler reads and writes. */
    var notes: seq<Note>
    /** The rows the display shows, in order. */
    var screen: seq<Row>
    /** The list as last written to local storage under the key "notes". */
    ghost var persisted: seq<Note>
    /** How many times the list has been written to local storage. */
    ghost var writes: nat

    /** Between handlers the list is in display order (no unpinned note
        before a pinned one) and holds the same notes as the stored copy,
        which may list them in another order. */
    ghost predicate Valid()
      reads this
    {
      IsPinSorted(notes) && multiset(persisted) == multiset(notes)
    }

    /** Page load: the stored list, or an empty one when nothing is stored,
        then a first display, which sorts the list but does not write it. */
    constructor (stored: Option<seq<Note>>)
      ensures Valid()
      ensures persisted == (if stored.Some? then stored.value else [])
      ensures notes == PinSort(persisted) && screen == Render(notes)
      ensures writes == 0
    {
      var loaded := if stored.Some? then stored.value else [];
      notes := loaded;
      screen := [];
      persisted := loaded;
      writes := 0;
      new;
      DisplayNotes();
    }

    /** updateLocalStorage: the stored copy becomes the current list. */
    ghost method UpdateLocalStorage()
      modifies this
      ensures persisted == notes && writes == old(writes) + 1
      ensures notes == old(notes) && screen == old(screen)
    {
      persisted := notes;
      writes := writes + 1;
    }

    /** displayNotes() with its default argument: sorts `notes` itself for
        display, then renders it. Each row's index is then the storage
        position of its note, so the buttons address the right note. */
    method DisplayNotes()
      requires multiset(persisted) == multiset(notes)
      modifies this
      ensures Valid()
      ensures notes == PinSort(old(notes)) && screen == Render(notes)
      ensures persisted == old(persisted) && writes == old(writes)
      ensures forall k :: 0 <= k < |screen| ==>
                screen[k].index < |notes| && notes[screen[k].index] == screen[k].note
    {
      notes := PinSort(notes);
      screen := RenderRows(notes);
      RenderSpec(notes);
    }

    /** addNote: rejects text that is empty once trimmed without writing or
        rendering anything; otherwise appends a fresh unpinned, unarchived
        note stamped `now`, writes the list and displays it. The list being
        in display order already, the new note stays last and the others
        keep their places. */
    method AddNote(input: string, category: string, priority: string, color: string, now: int)
      requires Valid()
      modifies this
      ensures Valid()
      ensures Trim(input) == [] ==>
                notes == old(notes) && screen == old(screen) &&
                persisted == old(persisted) && writes == old(writes)
      ensures Trim(input) != [] ==>
                notes == old(notes) + [Note(Trim(input), category, priority, color, now, false, false)] &&
                persisted == notes && writes == old(writes) + 1 && screen == Render(notes)
    {
      var text := Trim(input);
      if text == [] {
        return;
      }
      var note := Note(text, category, priority, color, now, false, false);
      notes := notes + [note];
      UpdateLocalStorage();
      SortedAppendUnpinned(old(notes), note);
      PinSortFixpoint(notes);
      DisplayNotes();
    }

    /** The data part of saveNote: the note at `index` gets the trimmed
        edited text and the time `now`; nothing else changes. An index with
        no note makes `notes[index].text` throw before anything is
        written. */
    method SaveNote(index: int, edited: string, now: int) returns (ok: bool)
      requires Valid()
      modifies this
      ensures Valid()
      ensures ok <==> 0 <= index < |old(notes)|
      ensures !ok ==> unchanged(this)
      ensures ok ==>
                notes == old(notes)[index := Edit(old(notes)[index], edited, now)] &&
                persisted == notes && writes == old(writes) + 1 && screen == Render(notes)
    {
      ok := 0 <= index < |notes|;
      if !ok {
        return;
      }
      notes := notes[index := Edit(notes[index], edited, now)];
      UpdateLocalStorage();
      SortedUpdateSamePin(old(notes), index, notes[index]);
      PinSortFixpoint(notes);
      DisplayNotes();
    }

    /** deleteNote: `notes.splice(index, 1)`, then write and display. */
    method DeleteNote(index: int)
      requires Valid()
      modifies this
      ensures Valid()
      ensures notes == SpliceOne(old(notes), index)
      ensures index >= |old(notes)| ==> notes == old(notes)
      ensures persisted == notes && writes == old(writes) + 1 && screen == Render(notes)
    {
      notes := SpliceOne(notes, index);
      UpdateLocalStorage();
      SortedSplice(old(notes), index);
      PinSortFixpoint(notes);
      DisplayNotes();
    }

    /** togglePin: flips `pinned` of the note at `index`, writes that list,
        then the display sort moves the note into its group. An index with
        no note throws before anything is written. */
    method TogglePin(index: int) returns (ok: bool)
      requires Valid()
      modifies this
      ensures Valid()
      ensures ok <==> 0 <= index < |old(notes)|
      ensures !ok ==> unchanged(this)
      ensures ok ==>
                persisted == old(notes)[index := FlipPinned(old(notes)[index])] &&
                notes == PinSort(persisted) &&
                writes == old(writes) + 1 && screen == Render(notes)
    {
      ok := 0 <= index < |notes|;
      if !ok {
        return;
      }
      notes := notes[index := FlipPinned(notes[index])];
      UpdateLocalStorage();
      DisplayNotes();
    }

    /** toggleArchive: flips `archived` of the note at `index`, writes and
        displays. Archiving does not change the pin order, so the note keeps
        its place. An index with no note throws before anything is
        written. */
    method ToggleArchive(index: int) returns (ok: bool)
      requires Valid()
      modifies this
      ensures Valid()
      ensures ok <==> 0 <= index < |old(notes)|
      ensures !ok ==> unchanged(this)
      ensures ok ==>
                notes == old(notes)[index := FlipArchived(old(notes)[index])] &&
                persisted == notes && writes == old(writes) + 1 && screen == Render(notes)
    {
      ok := 0 <= index < |notes|;
      if !ok {
        return;
      }
      notes := notes[index := FlipArchived(notes[index])];
      UpdateLocalStorage();
      SortedUpdateSamePin(old(notes), index, notes[index]);
      PinSortFixpoint(notes);
      DisplayNotes();
    }

    /** searchNotes: displays the matching notes, sorted for display. The
        sort works on the filtered copy, so `notes` and the stored copy are
        left alone. */
    method SearchNotes(query: string)
      requires Valid()
      modifies this`screen
      ensures Valid()
      ensures screen == Render(PinSort(Search(notes, query)))
    {
      var filtered := Search(notes, query);
      screen := RenderRows(PinSort(filtered));
    }
  }

  /** Toggling the archive flag of the same note twice restores the list. */
  method ToggleArchiveTwice(store: NoteStore, index: int)
    requires store.Valid() && 0 <= index < |store.notes|
    modifies store
    ensures store.Valid() && store.notes == old(store.notes)
  {
    var ok := store.ToggleArchive(index);
    ok := store.ToggleArchive(index);
    FlipTwice(old(store.notes), index);
  }
}
