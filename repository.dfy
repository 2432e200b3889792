/** The note store: a table of rows keyed by a unique title (and by id).
    Queries are functions of the table; the operations that change the
    persisted table are methods of `NoteRepository`. */
module Repository {
  import opened Notes
  import opened Text

  // ----- Table invariants -------------------------------------------------

  /** No two rows share a title (the store's unique index on `title`). */
  ghost predicate UniqueTitles(rows: seq<Note>) {
    forall i, j :: 0 <= i < j < |rows| ==> rows[i].title != rows[j].title
  }

  /** No two rows share an id (the primary key). */
  ghost predicate UniqueIds(rows: seq<Note>) {
    forall i, j :: 0 <= i < j < |rows| ==> rows[i].id != rows[j].id
  }

  /** Every id was handed out before `nextId`, so the next one is fresh. */
  ghost predicate IdsBelow(rows: seq<Note>, nextId: nat) {
    forall i :: 0 <= i < |rows| ==> rows[i].id < nextId
  }

  ghost predicate WellFormed(rows: seq<Note>, nextId: nat) {
    UniqueTitles(rows) && UniqueIds(rows) && IdsBelow(rows, nextId)
  }

  /** No row other than the one with `note`'s id holds `note`'s title. */
  predicate TitleFreeFor(rows: seq<Note>, note: Note) {
    forall m :: m in rows && m.title == note.title ==> m.id == note.id
  }

  // ----- Queries ----------------------------------------------------------

  /** The row whose title is exactly `title`, or none. */
  function FindUniqueNoteByTitle(rows: seq<Note>, title: string): (r: Option<Note>)
    ensures r.Some? ==> r.value in rows && r.value.title == title
    ensures r.None? <==> forall m :: m in rows ==> m.title != title
  {
    if rows == [] then None
    else if rows[0].title == title then Some(rows[0])
    else FindUniqueNoteByTitle(rows[1..], title)
  }

  /** The row whose id is `id`, or none. */
  function FindUniqueNoteById(rows: seq<Note>, id: nat): (r: Option<Note>)
    ensures r.Some? ==> r.value in rows && r.value.id == id
    ensures r.None? <==> forall m :: m in rows ==> m.id != id
  {
    if rows == [] then None
    else if rows[0].id == id then Some(rows[0])
    else FindUniqueNoteById(rows[1..], id)
  }

  /** The rows whose title contains `fragment`, ignoring ASCII case, in table order. */
  function FindNotesByTitle(rows: seq<Note>, fragment: string): (r: seq<Note>)
    ensures |r| <= |rows|
    ensures forall m :: m in r <==> m in rows && ContainsIgnoringCase(m.title, fragment)
  {
    if rows == [] then []
    else if ContainsIgnoringCase(rows[0].title, fragment)
    then [rows[0]] + FindNotesByTitle(rows[1..], fragment)
    else FindNotesByTitle(rows[1..], fragment)
  }

  // ----- Table transitions ------------------------------------------------

  /** The table after the update branch of an upsert: the row titled `title`
      gets `content`; ids, titles and every other row stay as they were. */
  function WithContent(rows: seq<Note>, title: string, content: string): (r: seq<Note>)
    ensures |r| == |rows|
    ensures forall i :: 0 <= i < |rows| ==>
      r[i].id == rows[i].id && r[i].title == rows[i].title &&
      r[i].content == (if rows[i].title == title then content else rows[i].content)
  {
    if rows == [] then []
    else
      var head := if rows[0].title == title then rows[0].(content := content) else rows[0];
      [head] + WithContent(rows[1..], title, content)
  }

  /** The table after a full update by id: the row with `note.id` becomes `note`. */
  function Replaced(rows: seq<Note>, note: Note): (r: seq<Note>)
    ensures |r| == |rows|
    ensures forall i :: 0 <= i < |rows| ==> r[i] == if rows[i].id == note.id then note else rows[i]
  {
    if rows == [] then []
    else [if rows[0].id == note.id then note else rows[0]] + Replaced(rows[1..], note)
  }

  /** The table after deleting by title: the rows not titled `title`, in order. */
  function WithoutTitle(rows: seq<Note>, title: string): (r: seq<Note>)
    ensures |r| <= |rows|
    ensures forall m :: m in r <==> m in rows && m.title != title
  {
    if rows == [] then []
    else if rows[0].title == title then WithoutTitle(rows[1..], title)
    else [rows[0]] + WithoutTitle(rows[1..], title)
  }

  // ----- Lemmas about the queries and transitions -------------------------

  /** Under unique titles, looking a row's title up finds that very row. */
  lemma {:induction false} FindByTitleOfMember(rows: seq<Note>, n: Note)
    requires UniqueTitles(rows)
    requires n in rows
    ensures FindUniqueNoteByTitle(rows, n.title) == Some(n)
  {
    if rows[0] != n {
      var j :| 0 <= j < |rows| && rows[j] == n;
      assert j > 0 && rows[0].title != rows[j].title;
      assert rows[1..][j - 1] == n;
      FindByTitleOfMember(rows[1..], n);
    }
  }

  /** Under unique ids, looking a row's id up finds that very row. */
  lemma {:induction false} FindByIdOfMember(rows: seq<Note>, n: Note)
    requires UniqueIds(rows)
    requires n in rows
    ensures FindUniqueNoteById(rows, n.id) == Some(n)
  {
    if rows[0] != n {
      var j :| 0 <= j < |rows| && rows[j] == n;
      assert j > 0 && rows[0].id != rows[j].id;
      assert rows[1..][j - 1] == n;
      FindByIdOfMember(rows[1..], n);
    }
  }

  /** Appending a row leaves every earlier lookup as it was and makes the new
      title findable when it was absent. */
  lemma {:induction false} AppendLookup(rows: seq<Note>, n: Note, title: string)
    ensures FindUniqueNoteByTitle(rows + [n], title) ==
      if FindUniqueNoteByTitle(rows, title).Some? then FindUniqueNoteByTitle(rows, title)
      else if n.title == title then Some(n) else None
  {
    if rows == [] {
      assert rows + [n] == [n];
    } else {
      assert (rows + [n])[1..] == rows[1..] + [n];
      AppendLookup(rows[1..], n, title);
    }
  }

  /** The empty search fragment returns the whole table. */
  lemma {:induction false} EmptyFragmentFindsAll(rows: seq<Note>)
    ensures FindNotesByTitle(rows, "") == rows
  {
    if rows != [] {
      EmptyFragmentMatchesAll(rows[0].title);
      EmptyFragmentFindsAll(rows[1..]);
    }
  }

  /** The search filters row by row: the result for two tables laid end to
      end is the result for the first followed by the result for the second.
      With `FindNotesByTitleSingle`, every match appears once, in table
      order, and nothing else appears. */
  lemma {:induction false} FindNotesByTitleSplits(a: seq<Note>, b: seq<Note>, fragment: string)
    ensures FindNotesByTitle(a + b, fragment) == FindNotesByTitle(a, fragment) + FindNotesByTitle(b, fragment)
  {
    if a == [] {
      assert a + b == b;
    } else {
      var x, rest := a[0], a[1..];
      var kept := if ContainsIgnoringCase(x.title, fragment) then [x] else [];
      calc {
        FindNotesByTitle(a + b, fragment);
        { assert a + b == [x] + (rest + b); FindNotesByTitleCons(x, rest + b, fragment); }
        kept + FindNotesByTitle(rest + b, fragment);
        { FindNotesByTitleSplits(rest, b, fragment); }
        kept + (FindNotesByTitle(rest, fragment) + FindNotesByTitle(b, fragment));
        (kept + FindNotesByTitle(rest, fragment)) + FindNotesByTitle(b, fragment);
        { assert a == [x] + rest; FindNotesByTitleCons(x, rest, fragment); }
        FindNotesByTitle(a, fragment) + FindNotesByTitle(b, fragment);
      }
    }
  }

  /** A row put in front is put in front of the result exactly when its
      title matches. */
  lemma {:induction false} FindNotesByTitleCons(x: Note, c: seq<Note>, fragment: string)
    ensures FindNotesByTitle([x] + c, fragment) == (if ContainsIgnoringCase(x.title, fragment) then [x] else []) + FindNotesByTitle(c, fragment)
  {
    assert ([x] + c)[0] == x && ([x] + c)[1..] == c;
  }

  /** A table of one row yields that row exactly when its title matches. */
  lemma {:induction false} FindNotesByTitleSingle(n: Note, fragment: string)
    ensures FindNotesByTitle([n], fragment) == if ContainsIgnoringCase(n.title, fragment) then [n] else []
  {
    assert [n][1..] == [];
  }

  /** After deleting `title`, it is no longer found, and every other title is
      found exactly as before. */
  lemma {:induction false} WithoutTitleLookup(rows: seq<Note>, title: string, other: string)
    ensures FindUniqueNoteByTitle(WithoutTitle(rows, title), other) ==
      if other == title then None else FindUniqueNoteByTitle(rows, other)
  {
    if rows != [] {
      WithoutTitleLookup(rows[1..], title, other);
    }
  }

  /** Deleting a present title from a table with unique titles removes exactly one row. */
  lemma {:induction false} WithoutTitleRemovesOne(rows: seq<Note>, title: string)
    requires UniqueTitles(rows)
    requires FindUniqueNoteByTitle(rows, title).Some?
    ensures |WithoutTitle(rows, title)| == |rows| - 1
  {
    if rows[0].title == title {
      WithoutTitleKeepsAll(rows[1..], title);
    } else {
      WithoutTitleRemovesOne(rows[1..], title);
    }
  }

  lemma {:induction false} WithoutTitleKeepsAll(rows: seq<Note>, title: string)
    requires forall m :: m in rows ==> m.title != title
    ensures WithoutTitle(rows, title) == rows
  {
    if rows != [] {
      assert rows[0] in rows;
      forall m | m in rows[1..] ensures m.title != title {
        assert m in rows;
      }
      WithoutTitleKeepsAll(rows[1..], title);
      assert rows == [rows[0]] + rows[1..];
    }
  }

  /** Deleting rows keeps the table well formed. */
  lemma {:induction false} WithoutTitleWellFormed(rows: seq<Note>, title: string, nextId: nat)
    requires WellFormed(rows, nextId)
    ensures WellFormed(WithoutTitle(rows, title), nextId)
  {
    if rows != [] {
      WithoutTitleWellFormed(rows[1..], title, nextId);
      var rest := WithoutTitle(rows[1..], title);
      if rows[0].title != title {
        forall j | 0 <= j < |rest| ensures rows[0].title != rest[j].title && rows[0].id != rest[j].id {
          assert rest[j] in rows[1..];
        }
      }
    }
  }

  /** Replacing the row with `note.id` by `note`, when no other row holds
      `note`'s title, keeps the table well formed. */
  lemma {:induction false} ReplacedWellFormed(rows: seq<Note>, note: Note, nextId: nat)
    requires WellFormed(rows, nextId)
    requires TitleFreeFor(rows, note)
    ensures WellFormed(Replaced(rows, note), nextId)
  {
    ReplacedKeepsIds(rows, note, nextId);
    ReplacedTitlesUnique(rows, note);
  }

  /** The id part of the above: every position keeps its id. */
  lemma {:induction false} ReplacedKeepsIds(rows: seq<Note>, note: Note, nextId: nat)
    requires UniqueIds(rows) && IdsBelow(rows, nextId)
    ensures UniqueIds(Replaced(rows, note)) && IdsBelow(Replaced(rows, note), nextId)
  {
    var r := Replaced(rows, note);
    assert forall i :: 0 <= i < |r| ==> r[i].id == rows[i].id;
  }

  /** The title part of the above: the saved title is held by no other row. */
  lemma {:induction false} ReplacedTitlesUnique(rows: seq<Note>, note: Note)
    requires UniqueTitles(rows) && UniqueIds(rows)
    requires TitleFreeFor(rows, note)
    ensures UniqueTitles(Replaced(rows, note))
  {
    var r := Replaced(rows, note);
    forall i, j | 0 <= i < j < |r| ensures r[i].title != r[j].title {
      if rows[i].id == note.id {
        assert r[i] == note && r[j] == rows[j] && rows[j] in rows;
      } else if rows[j].id == note.id {
        assert r[j] == note && r[i] == rows[i] && rows[i] in rows;
      } else {
        assert r[i] == rows[i] && r[j] == rows[j];
      }
    }
  }

  /** After a full update by id: the new title finds the updated row, the old
      title (when it changed) finds nothing, and every other title is found as
      before. */
  lemma {:induction false} ReplacedLookup(rows: seq<Note>, note: Note, before: Note, other: string)
    requires UniqueTitles(rows) && UniqueIds(rows)
    requires before in rows && before.id == note.id
    requires TitleFreeFor(rows, note)
    ensures FindUniqueNoteByTitle(Replaced(rows, note), other) ==
      if other == note.title then Some(note)
      else if other == before.title then None
      else FindUniqueNoteByTitle(rows, other)
  {
    TailDistinct(rows);
    if rows[0] == before {
      ReplacedLookupAtHead(rows, note, other);
    } else {
      var head, tail := rows[0], rows[1..];
      var j :| 0 <= j < |rows| && rows[j] == before;
      assert j > 0 && tail[j - 1] == before;
      assert head.title != note.title by {
        assert head in rows;
      }
      forall m | m in tail && m.title == note.title ensures m.id == note.id {
        assert m in rows;
      }
      ReplacedLookup(tail, note, before, other);
      var r := Replaced(rows, note);
      assert r[0] == head && r[1..] == Replaced(tail, note);
      assert FindUniqueNoteByTitle(r, other) ==
        if head.title == other then Some(head) else FindUniqueNoteByTitle(Replaced(tail, note), other);
    }
  }

  /** The case of the above where the renamed row is the first one. */
  lemma {:induction false} ReplacedLookupAtHead(rows: seq<Note>, note: Note, other: string)
    requires rows != [] && rows[0].id == note.id
    requires forall m :: m in rows[1..] ==> m.title != rows[0].title && m.id != rows[0].id
    ensures FindUniqueNoteByTitle(Replaced(rows, note), other) ==
      if other == note.title then Some(note)
      else if other == rows[0].title then None
      else FindUniqueNoteByTitle(rows, other)
  {
    var tail := rows[1..];
    ReplacedKeepsOthers(tail, note);
    assert Replaced(rows, note) == [note] + tail;
  }

  /** In a table with unique titles and ids, the tail has them too, and no
      row of the tail shares the head's title or id. */
  lemma {:induction false} TailDistinct(rows: seq<Note>)
    requires rows != []
    requires UniqueTitles(rows) && UniqueIds(rows)
    ensures UniqueTitles(rows[1..]) && UniqueIds(rows[1..])
    ensures forall m :: m in rows[1..] ==> m.title != rows[0].title && m.id != rows[0].id
  {
    var tail := rows[1..];
    forall m | m in tail ensures m.title != rows[0].title && m.id != rows[0].id {
      var j :| 0 <= j < |tail| && tail[j] == m;
      assert rows[j + 1] == m;
    }
  }

  lemma {:induction false} ReplacedKeepsOthers(rows: seq<Note>, note: Note)
    requires forall m :: m in rows ==> m.id != note.id
    ensures Replaced(rows, note) == rows
  {
    if rows != [] {
      ReplacedKeepsOthers(rows[1..], note);
    }
  }

  // ----- The persisted table ----------------------------------------------

  /** The database table of notes, reached through the ORM. */
  class NoteRepository {
    /** The rows, in the order they were inserted. */
    var rows: seq<Note>
    /** The next value of the id sequence; ids are never reused. */
    var nextId: nat

    ghost predicate Valid()
      reads this
    {
      WellFormed(rows, nextId)
    }

    /** An empty table whose id sequence starts at 1. */
    constructor ()
      ensures Valid()
      ensures rows == [] && nextId == 1
    {
      rows := [];
      nextId := 1;
    }

    /** Upsert keyed by title: an existing row gets the new content (its id
        and title stay), otherwise a row with a fresh id is appended. The
        stored row is returned. */
    method UpsertNote(note: NoteFields) returns (saved: Note)
      requires Valid()
      modifies this
      ensures Valid()
      ensures match FindUniqueNoteByTitle(old(rows), note.title)
        case Some(existing) =>
          && saved == existing.(content := note.content)
          && rows == WithContent(old(rows), note.title, note.content)
          && nextId == old(nextId)
        case None =>
          && saved == Note(old(nextId), note.title, note.content)
          && rows == old(rows) + [saved]
          && nextId == old(nextId) + 1
      ensures saved in rows && saved.title == note.title && saved.content == note.content
    {
      var found := FindUniqueNoteByTitle(rows, note.title);
      if found.Some? {
        saved := found.value.(content := note.content);
        rows := WithContent(rows, note.title, note.content);
        ghost var i :| 0 <= i < |old(rows)| && old(rows)[i] == found.value;
        assert rows[i] == saved;
      } else {
        saved := Note(nextId, note.title, note.content);
        rows := rows + [saved];
        nextId := nextId + 1;
        assert rows[|rows| - 1] == saved;
      }
    }

    /** Delete by title; the database refuses to delete a row that is not there. */
    method RemoveNote(title: string) returns (r: Outcome<()>)
      requires Valid()
      modifies this
      ensures Valid() && nextId == old(nextId)
      ensures FindUniqueNoteByTitle(old(rows), title).None? ==> r == StorageError && rows == old(rows)
      ensures FindUniqueNoteByTitle(old(rows), title).Some? ==>
        r == Ok(()) && rows == WithoutTitle(old(rows), title)
    {
      if FindUniqueNoteByTitle(rows, title).None? {
        return StorageError;
      }
      WithoutTitleWellFormed(rows, title, nextId);
      rows := WithoutTitle(rows, title);
      r := Ok(());
    }

    /** Full update by id with all of `note`'s data, returning the stored row.
        It fails when no row has that id, and when another row already holds
        the new title (the unique index on `title`). */
    method SaveNote(note: Note) returns (r: Outcome<Note>)
      requires Valid()
      modifies this
      ensures Valid() && nextId == old(nextId)
      ensures r.Ok? || r.StorageError?
      ensures r.Ok? <==> FindUniqueNoteById(old(rows), note.id).Some? && TitleFreeFor(old(rows), note)
      ensures r.Ok? ==> r.value == note && rows == Replaced(old(rows), note)
      ensures r.StorageError? ==> rows == old(rows)
    {
      if FindUniqueNoteById(rows, note.id).None? || !TitleFreeFor(rows, note) {
        return StorageError;
      }
      ReplacedWellFormed(rows, note, nextId);
      rows := Replaced(rows, note);
      r := Ok(note);
    }
  }
}
