/** The note record and the pure operations on lists of notes: the search
    filter, the display sort (Array.prototype.sort with the comparator
    `b.pinned - a.pinned`), the rows the display loop renders, and the
    single-note updates the handlers perform. */
module Notes {
  import opened Strings

  /** One note, with the fields script.js stores and persists. `timestamp`
      is the value of Date.now() at creation or at the last save. */
  datatype Note = Note(
    text: string,
    category: string,
    priority: string,
    color: string,
    timestamp: int,
    pinned: bool,
    archived: bool)

  /** One rendered note: the position `index` it had in the sorted list the
      display loop walked (the index its buttons pass to the handlers) and
      the note itself. */
  datatype Row = Row(index: nat, note: Note)

  // ---------------------------------------------------------------------
  // Array.prototype.filter

  /** The elements of `s` that `keep` accepts, in their order in `s`. */
  function Filter<T>(s: seq<T>, keep: T -> bool): (r: seq<T>)
    ensures |r| <= |s|
  {
    if s == [] then [] else (if keep(s[0]) then [s[0]] else []) + Filter(s[1..], keep)
  }

  /** Every element the filter keeps is an element of `s` that `keep`
      accepts. */
  lemma {:induction false} FilterMembers<T>(s: seq<T>, keep: T -> bool)
    ensures forall x :: x in Filter(s, keep) ==> x in s && keep(x)
  {
    if s != [] {
      FilterMembers(s[1..], keep);
    }
  }

  /** Every element the filter returns, by index, passes the test. */
  lemma FilterEachPasses<T>(s: seq<T>, keep: T -> bool)
    ensures forall k :: 0 <= k < |Filter(s, keep)| ==> keep(Filter(s, keep)[k])
  {
    FilterMembers(s, keep);
    forall k | 0 <= k < |Filter(s, keep)| ensures keep(Filter(s, keep)[k]) {
      assert Filter(s, keep)[k] in Filter(s, keep);
    }
  }

  /** The positions, from `from` on, of the elements of `s` that `keep`
      accepts, in increasing order. */
  function Positions<T>(s: seq<T>, keep: T -> bool, from: nat): seq<nat>
    decreases |s| - from
  {
    if from >= |s| then []
    else (if keep(s[from]) then [from] else []) + Positions(s, keep, from + 1)
  }

  /** The filter of a suffix picks exactly the accepted positions of that
      suffix, in increasing order: its k-th element is the element at the
      k-th accepted position, and a position is picked iff `keep` accepts
      the element there. */
  lemma {:induction false} FilterPicksPositions<T>(s: seq<T>, keep: T -> bool, from: nat)
    requires from <= |s|
    ensures |Positions(s, keep, from)| == |Filter(s[from..], keep)|
    ensures forall k :: 0 <= k < |Positions(s, keep, from)| ==>
              from <= Positions(s, keep, from)[k] < |s| &&
              s[Positions(s, keep, from)[k]] == Filter(s[from..], keep)[k]
    ensures forall k, l :: 0 <= k < l < |Positions(s, keep, from)| ==>
              Positions(s, keep, from)[k] < Positions(s, keep, from)[l]
    ensures forall j :: from <= j < |s| ==> (keep(s[j]) <==> j in Positions(s, keep, from))
    decreases |s| - from
  {
    if from < |s| {
      FilterPicksPositions(s, keep, from + 1);
      assert s[from..][1..] == s[from + 1..];
      assert s[from..][0] == s[from];
    }
  }

  /** Filtering a concatenation filters each part. */
  lemma {:induction false} FilterAppend<T>(a: seq<T>, b: seq<T>, keep: T -> bool)
    ensures Filter(a + b, keep) == Filter(a, keep) + Filter(b, keep)
  {
    if a != [] {
      assert (a + b)[1..] == a[1..] + b;
      FilterAppend(a[1..], b, keep);
    } else {
      assert a + b == b;
    }
  }

  /** A filter that accepts every element keeps the whole sequence. */
  lemma {:induction false} FilterKeepsAll<T>(s: seq<T>, keep: T -> bool)
    requires forall x :: x in s ==> keep(x)
    ensures Filter(s, keep) == s
  {
    if s != [] {
      assert forall x :: x in s[1..] ==> x in s;
      FilterKeepsAll(s[1..], keep);
    }
  }

  /** A filter that accepts no element of `s` keeps nothing. */
  lemma FilterDropsAll<T>(s: seq<T>, keep: T -> bool)
    requires forall x :: x in s ==> !keep(x)
    ensures Filter(s, keep) == []
  {
    FilterMembers(s, keep);
  }

  /** The negation of a test. */
  function Not<T>(key: T -> bool): T -> bool {
    x => !key(x)
  }

  /** Splitting a sequence by a test and its negation loses and duplicates
      nothing. */
  lemma {:induction false} FilterPartition<T>(s: seq<T>, keep: T -> bool)
    ensures multiset(Filter(s, keep)) + multiset(Filter(s, Not(keep))) == multiset(s)
  {
    if s != [] {
      var h, t := s[0], s[1..];
      FilterPartition(t, keep);
      assert multiset(s) == multiset{h} + multiset(t) by { assert s == [h] + t; }
      var k, d := Filter(t, keep), Filter(t, Not(keep));
      if keep(h) {
        assert Filter(s, keep) == [h] + k;
        assert multiset(Filter(s, keep)) == multiset{h} + multiset(k);
        assert Filter(s, Not(keep)) == d;
      } else {
        assert Filter(s, keep) == k;
        assert Filter(s, Not(keep)) == [h] + d;
        assert multiset(Filter(s, Not(keep))) == multiset{h} + multiset(d);
      }
    }
  }

  // ---------------------------------------------------------------------
  // Search (script.js, searchNotes)

  /** A note matches a query when its lower-cased text contains the
      lower-cased query. */
  predicate Matches(n: Note, query: string)
    ensures Matches(n, query) ==> |query| <= |n.text|
  {
    Includes(Lower(n.text), Lower(query))
  }

  /** The query's case does not matter: both sides are lower-cased. */
  lemma MatchesIgnoresQueryCase(n: Note, query: string)
    ensures Matches(n, query) == Matches(n, Lower(query))
  {
    LowerIdempotent(query);
  }

  /** The filter callback of searchNotes. */
  function MatcherOf(query: string): Note -> bool {
    n => Matches(n, query)
  }

  /** The notes searchNotes hands to the display. */
  function Search(notes: seq<Note>, query: string): (r: seq<Note>)
    ensures |r| <= |notes|
    ensures forall n :: n in r ==> n in notes && Matches(n, query)
  {
    FilterMembers(notes, MatcherOf(query));
    Filter(notes, MatcherOf(query))
  }

  /** The search result is exactly the matching notes, in storage order:
      its k-th note is the note at the k-th matching position, and every
      position whose note matches is among those positions. */
  lemma SearchExact(notes: seq<Note>, query: string)
    ensures |Positions(notes, MatcherOf(query), 0)| == |Search(notes, query)|
    ensures forall k :: 0 <= k < |Search(notes, query)| ==>
              Positions(notes, MatcherOf(query), 0)[k] < |notes| &&
              notes[Positions(notes, MatcherOf(query), 0)[k]] == Search(notes, query)[k]
    ensures forall k, l :: 0 <= k < l < |Search(notes, query)| ==>
              Positions(notes, MatcherOf(query), 0)[k] < Positions(notes, MatcherOf(query), 0)[l]
    ensures forall j :: 0 <= j < |notes| ==>
              (Matches(notes[j], query) <==> j in Positions(notes, MatcherOf(query), 0))
  {
    FilterPicksPositions(notes, MatcherOf(query), 0);
    assert notes[0..] == notes;
  }

  /** The empty query returns every note, archived ones included, in
      storage order. */
  lemma SearchEmptyQuery(notes: seq<Note>)
    ensures Search(notes, "") == notes
  {
    forall n | n in notes ensures MatcherOf("")(n) {
      IncludesEmpty(Lower(n.text));
    }
    FilterKeepsAll(notes, MatcherOf(""));
  }

  // ---------------------------------------------------------------------
  // The display sort (script.js, displayNotes)
  //
  // The comparator only looks at one boolean key, so the sort is a stable
  // partition by that key. It is stated and proved for any element type and
  // key, then used with notes and `pinned`.

  /** No element failing `key` comes before one passing it. */
  predicate IsKeySorted<T>(s: seq<T>, key: T -> bool) {
    forall i, j :: 0 <= i < j < |s| ==> key(s[i]) || !key(s[j])
  }

  /** The elements passing `key`, then the others, each group in its input
      order. */
  function KeyFirst<T>(s: seq<T>, key: T -> bool): (r: seq<T>)
    ensures |r| == |s|
  {
    FilterPartition(s, key);
    assert |multiset(Filter(s, key) + Filter(s, Not(key)))| == |multiset(s)|;
    Filter(s, key) + Filter(s, Not(key))
  }

  /** The partition is a permutation of its input. */
  lemma KeyFirstPermutes<T>(s: seq<T>, key: T -> bool)
    ensures multiset(KeyFirst(s, key)) == multiset(s)
  {
    FilterPartition(s, key);
  }

  /** In the partition no element failing `key` comes before one passing
      it. */
  lemma KeyFirstSorted<T>(s: seq<T>, key: T -> bool)
    ensures IsKeySorted(KeyFirst(s, key), key)
  {
    var p, u := Filter(s, key), Filter(s, Not(key));
    FilterMembers(s, key);
    FilterMembers(s, Not(key));
    forall i, j | 0 <= i < j < |p + u| ensures key((p + u)[i]) || !key((p + u)[j]) {
      if i < |p| {
        assert (p + u)[i] in p;
      } else {
        assert (p + u)[j] == u[j - |p|];
        assert u[j - |p|] in u;
      }
    }
  }

  lemma KeyFirstStable<T>(s: seq<T>, key: T -> bool)
    ensures Filter(KeyFirst(s, key), key) == Filter(s, key)
    ensures Filter(KeyFirst(s, key), Not(key)) == Filter(s, Not(key))
  {
    var p, u := Filter(s, key), Filter(s, Not(key));
    FilterMembers(s, key);
    FilterMembers(s, Not(key));
    FilterAppend(p, u, key);
    FilterAppend(p, u, Not(key));
    FilterKeepsAll(p, key);
    FilterKeepsAll(u, Not(key));
    FilterDropsAll(p, Not(key));
    FilterDropsAll(u, key);
  }

  lemma {:induction false} KeyFirstFixpoint<T>(s: seq<T>, key: T -> bool)
    ensures KeyFirst(s, key) == s <==> IsKeySorted(s, key)
  {
    KeyFirstSorted(s, key);
    if IsKeySorted(s, key) && s != [] {
      if key(s[0]) {
        var rest := s[1..];
        assert IsKeySorted(rest, key);
        KeyFirstFixpoint(rest, key);
        KeyFirstCons(s, key);
      } else {
        KeyFirstNonePass(s, key);
      }
    }
  }

  /** A sorted sequence whose head fails `key` has no passing element, so
      the partition leaves it alone. */
  lemma KeyFirstNonePass<T>(s: seq<T>, key: T -> bool)
    requires s != [] && !key(s[0]) && IsKeySorted(s, key)
    ensures KeyFirst(s, key) == s
  {
    forall x | x in s ensures Not(key)(x) {
      var j :| 0 <= j < |s| && s[j] == x;
      if j > 0 {
        assert key(s[0]) || !key(s[j]);
      }
    }
    FilterKeepsAll(s, Not(key));
    FilterDropsAll(s, key);
  }

  /** A passing head followed by a tail the partition leaves alone is left
      alone. */
  lemma KeyFirstCons<T>(s: seq<T>, key: T -> bool)
    requires s != [] && key(s[0]) && KeyFirst(s[1..], key) == s[1..]
    ensures KeyFirst(s, key) == s
  {
    var h, rest := s[0], s[1..];
    var p, u := Filter(rest, key), Filter(rest, Not(key));
    assert Filter(s, key) == [h] + p;
    assert Filter(s, Not(key)) == u;
    assert ([h] + p) + u == [h] + (p + u);
    assert s == [h] + rest;
  }

  /** Inserting into a key-sorted sequence, with the comparator that ranks
      passing elements first, puts a passing element at the end of the
      passing group and a failing one at the very end. */
  lemma {:induction false} InsertIntoGroups<T>(x: T, p: seq<T>, u: seq<T>, key: T -> bool, cmp: (T, T) -> int)
    requires forall a, b :: cmp(a, b) == Num(key(b)) - Num(key(a))
    requires forall k :: 0 <= k < |p| ==> key(p[k])
    requires forall k :: 0 <= k < |u| ==> !key(u[k])
    ensures InsertBy(x, p + u, cmp) == if key(x) then p + [x] + u else p + u + [x]
  {
    if p == [] {
      assert p + u == u;
      InsertIntoFailing(x, u, key, cmp);
    } else {
      ConsAppend(p, u);
      assert cmp(x, p[0]) >= 0;
      InsertIntoGroups(x, p[1..], u, key, cmp);
      if key(x) {
        Assoc4([p[0]], p[1..], [x], u);
      } else {
        Assoc4([p[0]], p[1..], u, [x]);
      }
    }
  }

  /** Inserting into a sequence of failing elements puts a passing element
      first and a failing one last. */
  lemma {:induction false} InsertIntoFailing<T>(x: T, u: seq<T>, key: T -> bool, cmp: (T, T) -> int)
    requires forall a, b :: cmp(a, b) == Num(key(b)) - Num(key(a))
    requires forall k :: 0 <= k < |u| ==> !key(u[k])
    ensures InsertBy(x, u, cmp) == if key(x) then [x] + u else u + [x]
  {
    if u != [] {
      if key(x) {
        assert cmp(x, u[0]) < 0;
      } else {
        assert cmp(x, u[0]) == 0;
        InsertIntoFailing(x, u[1..], key, cmp);
        ConsAppend(u, [x]);
      }
    }
  }

  /** For a comparator that ranks by one boolean key, the stable sort is
      the partition by that key. */
  lemma {:induction false} KeyFirstIsStableSort<T>(s: seq<T>, key: T -> bool, cmp: (T, T) -> int)
    requires forall a, b :: cmp(a, b) == Num(key(b)) - Num(key(a))
    ensures SortBy(s, cmp) == KeyFirst(s, key)
  {
    if s != [] {
      var init, x := s[..|s| - 1], s[|s| - 1];
      SnocSplit(s);
      KeyFirstIsStableSort(init, key, cmp);
      var p, u := Filter(init, key), Filter(init, Not(key));
      FilterEachPasses(init, key);
      FilterEachPasses(init, Not(key));
      assert SortBy(s, cmp) == InsertBy(x, p + u, cmp);
      InsertIntoGroups(x, p, u, key, cmp);
      KeyFirstSnoc(init, x, key);
    }
  }

  /** Partitioning after appending `x` puts `x` at the end of its group. */
  lemma KeyFirstSnoc<T>(init: seq<T>, x: T, key: T -> bool)
    ensures KeyFirst(init + [x], key) ==
              if key(x) then Filter(init, key) + [x] + Filter(init, Not(key))
              else Filter(init, key) + Filter(init, Not(key)) + [x]
  {
    var p, u := Filter(init, key), Filter(init, Not(key));
    FilterAppend(init, [x], key);
    FilterAppend(init, [x], Not(key));
    FilterSingleton(x, key);
    FilterSingleton(x, Not(key));
    if key(x) {
      assert u + [] == u;
    } else {
      assert p + [] == p;
      Assoc4(p, [], u, [x]);
    }
  }

  predicate IsPinned(n: Note) { n.pinned }

  /** No unpinned note comes before a pinned one. */
  predicate IsPinSorted(s: seq<Note>) {
    IsKeySorted(s, IsPinned)
  }

  /** The order the display sort produces: the pinned notes, then the
      unpinned ones. It is a permutation of its input with every pinned
      note before every unpinned one. */
  function PinSort(s: seq<Note>): (r: seq<Note>)
    ensures multiset(r) == multiset(s) && |r| == |s|
    ensures forall i, j :: 0 <= i < j < |r| ==> r[i].pinned || !r[j].pinned
  {
    KeyFirstPermutes(s, IsPinned);
    KeyFirstSorted(s, IsPinned);
    assert |multiset(KeyFirst(s, IsPinned))| == |multiset(s)|;
    KeyFirst(s, IsPinned)
  }

  /** Within the pinned group and within the unpinned group the sort keeps
      the input order. */
  lemma PinSortStable(s: seq<Note>)
    ensures Filter(PinSort(s), IsPinned) == Filter(s, IsPinned)
    ensures Filter(PinSort(s), Not(IsPinned)) == Filter(s, Not(IsPinned))
  {
    KeyFirstStable(s, IsPinned);
  }

  /** A list is left as it is by the sort exactly when no unpinned note
      comes before a pinned one. */
  lemma PinSortFixpoint(s: seq<Note>)
    ensures PinSort(s) == s <==> IsPinSorted(s)
  {
    KeyFirstFixpoint(s, IsPinned);
  }

  /** Sorting for display twice is sorting once. */
  lemma PinSortIdempotent(s: seq<Note>)
    ensures PinSort(PinSort(s)) == PinSort(s)
  {
    KeyFirstSorted(s, IsPinned);
    KeyFirstFixpoint(PinSort(s), IsPinned);
  }

  /** JavaScript's conversion of a boolean to a number. */
  function Num(b: bool): int { if b then 1 else 0 }

  /** The comparator of displayNotes, `(a, b) => b.pinned - a.pinned`. */
  function ComparePinned(a: Note, b: Note): (c: int)
    ensures c < 0 <==> a.pinned && !b.pinned
    ensures c > 0 <==> !a.pinned && b.pinned
    ensures c == 0 <==> a.pinned == b.pinned
  {
    Num(b.pinned) - Num(a.pinned)
  }

  /** Inserts `x` before the first element of `r` it compares strictly
      below, so that `x` lands after every element it ties with. */
  function InsertBy<T>(x: T, r: seq<T>, cmp: (T, T) -> int): (t: seq<T>)
    ensures multiset(t) == multiset(r) + multiset{x}
  {
    if r == [] then [x]
    else if cmp(x, r[0]) < 0 then [x] + r
    else assert r == [r[0]] + r[1..]; [r[0]] + InsertBy(x, r[1..], cmp)
  }

  /** A stable sort by `cmp`: insertion sort taking the elements in input
      order, each placed after the elements it ties with. This is the
      result ECMAScript requires of Array.prototype.sort for a consistent
      comparator. */
  function SortBy<T>(s: seq<T>, cmp: (T, T) -> int): (r: seq<T>)
    ensures multiset(r) == multiset(s)
  {
    if s == [] then []
    else assert s == s[..|s| - 1] + [s[|s| - 1]]; InsertBy(s[|s| - 1], SortBy(s[..|s| - 1], cmp), cmp)
  }

  /** The display sort is the stable sort by the source's comparator. */
  lemma PinSortIsStableSort(s: seq<Note>)
    ensures SortBy(s, ComparePinned) == PinSort(s)
  {
    KeyFirstIsStableSort(s, IsPinned, ComparePinned);
  }

  // ---------------------------------------------------------------------
  // Sequence identities, proved apart from the lemmas that use them

  lemma ConsAppend<T>(p: seq<T>, u: seq<T>)
    requires p != []
    ensures p == [p[0]] + p[1..]
    ensures p + u == [p[0]] + (p[1..] + u)
  {
  }

  lemma SnocSplit<T>(s: seq<T>)
    requires s != []
    ensures s == s[..|s| - 1] + [s[|s| - 1]]
  {
  }

  lemma Assoc4<T>(a: seq<T>, b: seq<T>, c: seq<T>, d: seq<T>)
    ensures a + (b + c + d) == a + b + c + d
  {
  }

  lemma FilterSingleton<T>(x: T, keep: T -> bool)
    ensures Filter([x], keep) == if keep(x) then [x] else []
  {
    assert [x][1..] == [];
  }

  // ---------------------------------------------------------------------
  // Rendering (script.js, the forEach in displayNotes)

  predicate IsShown(n: Note) { !n.archived }

  /** The rows the display loop appends for the positions `from` on of the
      sorted list: one per note that is not archived. */
  function RowsFrom(s: seq<Note>, from: nat): seq<Row>
    decreases |s| - from
  {
    if from >= |s| then []
    else (if IsShown(s[from]) then [Row(from, s[from])] else []) + RowsFrom(s, from + 1)
  }

  /** The rows the display shows for the sorted list `s`. */
  function Render(s: seq<Note>): (rows: seq<Row>)
    ensures |rows| <= |s|
  {
    RowsFromLength(s, 0);
    RowsFrom(s, 0)
  }

  /** The loop appends at most one row per remaining position. */
  lemma {:induction false} RowsFromLength(s: seq<Note>, from: nat)
    requires from <= |s|
    ensures |RowsFrom(s, from)| <= |s| - from
    decreases |s| - from
  {
    if from < |s| {
      RowsFromLength(s, from + 1);
    }
  }

  /** The notes carried by some rows. */
  function NotesOf(rows: seq<Row>): (r: seq<Note>)
    ensures |r| == |rows|
  {
    seq(|rows|, k requires 0 <= k < |rows| => rows[k].note)
  }

  /** The rows from `from` on carry the notes of the suffix that are not
      archived, in order. */
  lemma {:induction false} RowsFromNotes(s: seq<Note>, from: nat)
    requires from <= |s|
    ensures NotesOf(RowsFrom(s, from)) == Filter(s[from..], IsShown)
    decreases |s| - from
  {
    if from < |s| {
      RowsFromNotes(s, from + 1);
      assert s[from..] == [s[from]] + s[from + 1..];
      var head := if IsShown(s[from]) then [Row(from, s[from])] else [];
      assert NotesOf(head + RowsFrom(s, from + 1)) == NotesOf(head) + NotesOf(RowsFrom(s, from + 1));
    }
  }

  /** Every row from `from` on names the position of its note, and the
      positions increase along the rows. */
  lemma {:induction false} RowsFromIndices(s: seq<Note>, from: nat)
    requires from <= |s|
    ensures forall k :: 0 <= k < |RowsFrom(s, from)| ==>
              from <= RowsFrom(s, from)[k].index < |s| &&
              s[RowsFrom(s, from)[k].index] == RowsFrom(s, from)[k].note
    ensures forall k, l :: 0 <= k < l < |RowsFrom(s, from)| ==>
              RowsFrom(s, from)[k].index < RowsFrom(s, from)[l].index
    decreases |s| - from
  {
    if from < |s| {
      RowsFromIndices(s, from + 1);
    }
  }

  /** A position from `from` on has a row exactly when its note is not
      archived. */
  lemma {:induction false} RowsFromMembers(s: seq<Note>, from: nat)
    requires from <= |s|
    ensures forall j :: from <= j < |s| ==> (IsShown(s[j]) <==> Row(j, s[j]) in RowsFrom(s, from))
    decreases |s| - from
  {
    if from < |s| {
      RowsFromIndices(s, from + 1);
      RowsFromMembers(s, from + 1);
      forall j | from < j < |s| && Row(j, s[j]) in RowsFrom(s, from)
        ensures Row(j, s[j]) in RowsFrom(s, from + 1)
      {
      }
    }
  }

  /** The display shows the sorted list with the archived notes removed,
      in order, and each row's index is the position of its note in the
      list the loop walked. */
  lemma RenderSpec(s: seq<Note>)
    ensures NotesOf(Render(s)) == Filter(s, IsShown)
    ensures forall r :: r in Render(s) ==> !r.note.archived
    ensures forall k :: 0 <= k < |Render(s)| ==>
              Render(s)[k].index < |s| && s[Render(s)[k].index] == Render(s)[k].note
    ensures forall k, l :: 0 <= k < l < |Render(s)| ==> Render(s)[k].index < Render(s)[l].index
    ensures forall j :: 0 <= j < |s| ==> (!s[j].archived <==> Row(j, s[j]) in Render(s))
  {
    RowsFromNotes(s, 0);
    RowsFromIndices(s, 0);
    RowsFromMembers(s, 0);
    assert s[0..] == s;
    forall r | r in Render(s) ensures !r.note.archived {
      var k :| 0 <= k < |Render(s)| && Render(s)[k] == r;
      assert NotesOf(Render(s))[k] == r.note;
    }
  }

  // ---------------------------------------------------------------------
  // Single-note updates (script.js, saveNote, togglePin, toggleArchive)

  /** The data part of saveNote: the trimmed edited text and the save time;
      every other field is kept. */
  function Edit(n: Note, edited: string, now: int): (m: Note)
    ensures m.text == Trim(edited) && m.timestamp == now
    ensures m.category == n.category && m.priority == n.priority && m.color == n.color
    ensures m.pinned == n.pinned && m.archived == n.archived
  {
    n.(text := Trim(edited), timestamp := now)
  }

  /** togglePin on one note: only `pinned` changes, to its negation. */
  function FlipPinned(n: Note): (m: Note)
    ensures m.pinned == !n.pinned && m.(pinned := n.pinned) == n
  {
    n.(pinned := !n.pinned)
  }

  /** toggleArchive on one note: only `archived` changes, to its negation. */
  function FlipArchived(n: Note): (m: Note)
    ensures m.archived == !n.archived && m.(archived := n.archived) == n
  {
    n.(archived := !n.archived)
  }

  /** Flipping a flag of the note at `i` twice restores the list. */
  lemma {:induction false} FlipTwice(s: seq<Note>, i: nat)
    requires i < |s|
    ensures s[i := FlipPinned(s[i])][i := FlipPinned(FlipPinned(s[i]))] == s
    ensures s[i := FlipArchived(s[i])][i := FlipArchived(FlipArchived(s[i]))] == s
  {
  }

  /** An unpinned note followed by a pinned one swap places. */
  lemma PinSortSwaps(a: Note, c: Note)
    requires !a.pinned && c.pinned
    ensures PinSort([a, c]) == [c, a]
  {
    assert [a, c][1..] == [c];
    FilterSingleton(c, IsPinned);
    FilterSingleton(c, Not(IsPinned));
    assert Filter([a, c], IsPinned) == [c];
    assert Filter([a, c], Not(IsPinned)) == [a] + [];
  }

  /** Two unpinned notes are already in display order. */
  lemma UnpinnedPairStays(a: Note, b: Note)
    requires !a.pinned && !b.pinned
    ensures PinSort([a, b]) == [a, b]
  {
    PinSortFixpoint([a, b]);
  }

  /** Pinning the second of two unpinned notes moves it to the front. */
  lemma PinSecondOfTwo(a: Note, b: Note)
    requires !a.pinned && !b.pinned
    ensures PinSort([a, b][1 := FlipPinned(b)]) == [FlipPinned(b), a]
  {
    var c := FlipPinned(b);
    assert [a, b][1 := c] == [a, c];
    PinSortSwaps(a, c);
  }

  /** Unpinning the front note of a pinned note and an unpinned one leaves
      it in front. */
  lemma UnpinFirstOfTwo(a: Note, c: Note)
    requires c.pinned && !a.pinned
    ensures PinSort([c, a][0 := FlipPinned(c)]) == [FlipPinned(c), a]
  {
    var b := FlipPinned(c);
    assert [c, a][0 := b] == [b, a];
    UnpinnedPairStays(b, a);
  }

  /** togglePin re-sorts the list, so pinning a note and unpinning it
      again does not restore the list: of two unpinned notes, pinning the
      second moves it to the front, and unpinning it there leaves it in
      front. */
  lemma PinTwiceReorders(a: Note, b: Note)
    requires !a.pinned && !b.pinned
    ensures PinSort([a, b][1 := FlipPinned(b)]) == [FlipPinned(b), a]
    ensures PinSort([FlipPinned(b), a][0 := FlipPinned(FlipPinned(b))]) == [b, a]
  {
    PinSecondOfTwo(a, b);
    UnpinFirstOfTwo(a, FlipPinned(b));
    assert FlipPinned(FlipPinned(b)) == b;
  }

  // ---------------------------------------------------------------------
  // Array.prototype.splice(start, 1)

  /** The position splice starts at: a negative `start` counts from the
      end, and the result is clamped to 0..len. */
  function SpliceStart(len: nat, start: int): (k: nat)
    ensures k <= len
    ensures 0 <= start <= len ==> k == start
    ensures -(len as int) <= start < 0 ==> k == len + start
    ensures start > len ==> k == len
    ensures start < -(len as int) ==> k == 0
  {
    if start < 0 then (if len + start < 0 then 0 else len + start)
    else if start > len then len
    else start
  }

  /** `s.splice(start, 1)`: removes the element at the start position when
      there is one, and nothing otherwise. A start at or past the end
      removes nothing, a negative start counts from the end, and one before
      the beginning removes the first element. */
  function SpliceOne(s: seq<Note>, start: int): (r: seq<Note>)
    ensures start >= |s| ==> r == s
    ensures 0 <= start < |s| ==> r == s[..start] + s[start + 1..]
    ensures -(|s| as int) <= start < 0 ==> r == s[..|s| + start] + s[|s| + start + 1..]
    ensures s != [] && start < -(|s| as int) ==> r == s[1..]
    ensures s == [] ==> r == []
  {
    var k := SpliceStart(|s|, start);
    if k < |s| then s[..k] + s[k + 1..] else s
  }

  /** Deleting at a valid index: one note fewer, the ones before it stay,
      each later one moves down one place unchanged. */
  lemma DeleteShifts(s: seq<Note>, i: int)
    requires 0 <= i < |s|
    ensures |SpliceOne(s, i)| == |s| - 1
    ensures forall j :: 0 <= j < i ==> SpliceOne(s, i)[j] == s[j]
    ensures forall j :: i <= j < |s| - 1 ==> SpliceOne(s, i)[j] == s[j + 1]
    ensures multiset(SpliceOne(s, i)) == multiset(s) - multiset{s[i]}
  {
    assert s == s[..i] + [s[i]] + s[i + 1..];
  }

  // ---------------------------------------------------------------------
  // Pin-sortedness is kept by the updates the handlers make

  lemma SortedAppendUnpinned(s: seq<Note>, x: Note)
    requires IsPinSorted(s) && !x.pinned
    ensures IsPinSorted(s + [x])
  {
  }

  lemma SortedSplice(s: seq<Note>, start: int)
    requires IsPinSorted(s)
    ensures IsPinSorted(SpliceOne(s, start))
  {
    var k := SpliceStart(|s|, start);
    var r := SpliceOne(s, start);
    if k < |s| {
      assert r == s[..k] + s[k + 1..];
      SortedRemove(s, k);
    } else {
      assert r == s;
    }
  }

  /** Removing one note keeps the list in display order. */
  lemma SortedRemove(s: seq<Note>, k: nat)
    requires IsPinSorted(s) && k < |s|
    ensures IsPinSorted(s[..k] + s[k + 1..])
  {
    var r := s[..k] + s[k + 1..];
    forall i, j | 0 <= i < j < |r| ensures r[i].pinned || !r[j].pinned {
      var i', j' := if i < k then i else i + 1, if j < k then j else j + 1;
      assert r[i] == s[i'] && r[j] == s[j'];
    }
  }

  lemma SortedUpdateSamePin(s: seq<Note>, i: nat, n: Note)
    requires IsPinSorted(s) && i < |s| && n.pinned == s[i].pinned
    ensures IsPinSorted(s[i := n])
  {
  }
}
