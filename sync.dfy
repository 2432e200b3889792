/** How the client's list relates to the store. The list the client shows
    is meant to be the public view of (part of) the table; each handler
    patches the list locally instead of reloading it, and these lemmas show
    that every patch yields exactly the view of the table the backend
    produced. */
module Sync {
  import opened Notes
  import opened Text
  import opened Repository
  import opened Dto
  import opened Controller
  import opened Client

  /** The public view of a table: each row's title and content, in order. */
  function Mirror(rows: seq<Note>): (r: seq<NoteReadDTO>)
    ensures |r| == |rows|
    ensures forall i :: 0 <= i < |rows| ==> r[i] == ToRead(rows[i])
  {
    if rows == [] then [] else [ToRead(rows[0])] + Mirror(rows[1..])
  }

  /** Create: appending the 201 body to the list is the view of the table
      with the new row appended. */
  lemma {:induction false} CreatePatchMirrors(list: seq<NoteReadDTO>, rows: seq<Note>, created: Note)
    requires list == Mirror(rows)
    ensures list + [ToRead(created)] == Mirror(rows + [created])
  {
    var r := Mirror(rows + [created]);
    assert |r| == |list| + 1;
    forall i | 0 <= i < |r| ensures r[i] == (list + [ToRead(created)])[i] {
      if i < |rows| {
        assert (rows + [created])[i] == rows[i];
      } else {
        assert (rows + [created])[i] == created;
      }
    }
  }

  /** Delete: dropping the entries with the title from the list is the view
      of the table without that row. */
  lemma {:induction false} DeletePatchMirrors(rows: seq<Note>, title: string)
    ensures RemoveByTitle(Mirror(rows), title) == Mirror(WithoutTitle(rows, title))
  {
    if rows != [] {
      DeletePatchMirrors(rows[1..], title);
      assert Mirror(rows)[1..] == Mirror(rows[1..]);
      if rows[0].title != title {
        assert WithoutTitle(rows, title) == [rows[0]] + WithoutTitle(rows[1..], title);
        var w := WithoutTitle(rows, title);
        assert w[1..] == WithoutTitle(rows[1..], title);
      }
    }
  }

  /** Update: replacing the entry with the old title by the 200 body is the
      view of the table after the save by id, because in a table with unique
      titles and ids the row with the old title is the row with that id. */
  lemma {:induction false} UpdatePatchMirrors(rows: seq<Note>, existing: Note, saved: Note)
    requires UniqueTitles(rows) && UniqueIds(rows)
    requires existing in rows && saved.id == existing.id
    ensures ReplaceByTitle(Mirror(rows), existing.title, ToRead(saved)) == Mirror(Replaced(rows, saved))
  {
    var k :| 0 <= k < |rows| && rows[k] == existing;
    forall j | 0 <= j < |rows| ensures rows[j].title == existing.title <==> rows[j].id == saved.id {
      if j < k {
        assert rows[j].title != rows[k].title && rows[j].id != rows[k].id;
      } else if k < j {
        assert rows[k].title != rows[j].title && rows[k].id != rows[j].id;
      }
    }
    PatchAgrees(rows, existing.title, saved);
  }

  /** Replacing by title in the view and replacing by id in the table agree
      when exactly the rows with that title have that id. */
  lemma {:induction false} PatchAgrees(rows: seq<Note>, title: string, saved: Note)
    requires forall j :: 0 <= j < |rows| ==> (rows[j].title == title <==> rows[j].id == saved.id)
    ensures ReplaceByTitle(Mirror(rows), title, ToRead(saved)) == Mirror(Replaced(rows, saved))
  {
    if rows != [] {
      var tail := rows[1..];
      forall j | 0 <= j < |tail| ensures tail[j].title == title <==> tail[j].id == saved.id {
        assert tail[j] == rows[j + 1];
      }
      PatchAgrees(tail, title, saved);
      assert Mirror(rows)[1..] == Mirror(tail);
      assert Replaced(rows, saved)[1..] == Replaced(tail, saved);
    }
  }

  /** Search: fetching the content of every listed title, as the client does
      after a search, returns the view of exactly the rows found, provided
      they are rows of a table with unique titles and every title passes the
      path check of the content endpoint. */
  lemma {:induction false} HydrateMirrors(rows: seq<Note>, found: seq<Note>)
    requires UniqueTitles(rows)
    requires forall m :: m in found ==> m in rows
    requires forall m :: m in found ==> 1 <= |m.title| <= MAX_TITLE_PARAM_LENGTH
    ensures Hydrate(ToTitles(found), t => ContentAnswer(rows, t)) == Success(OK, Mirror(found))
  {
    if found != [] {
      HydrateMirrors(rows, found[1..]);
      FindByTitleOfMember(rows, found[0]);
      assert ToTitles(found)[1..] == ToTitles(found[1..]);
      assert Mirror(found) == [ToRead(found[0])] + Mirror(found[1..]);
    }
  }

  /** Search, end to end: what the client shows after a non-empty match is
      the view of the matching rows, in the table's order, when every match
      has a title of at most 30 characters. */
  lemma {:induction false} SearchMirrors(rows: seq<Note>, fragment: string)
    requires UniqueTitles(rows)
    requires forall m :: m in rows && ContainsIgnoringCase(m.title, fragment) ==> 1 <= |m.title| <= MAX_TITLE_PARAM_LENGTH
    ensures
      var found := FindNotesByTitle(rows, fragment);
      Hydrate(ToTitles(found), t => ContentAnswer(rows, t)) == Success(OK, Mirror(found))
  {
    HydrateMirrors(rows, FindNotesByTitle(rows, fragment));
  }

  /** A found note whose title is longer than the content endpoint accepts
      (a body title may have up to 80 characters, a path title only 30)
      makes its fetch answer 400, so the joined fetch fails with 400 and the
      client keeps its old list and shows the search error. */
  lemma {:induction false} LongMatchFailsHydrate(rows: seq<Note>, found: seq<Note>, long: Note)
    requires UniqueTitles(rows)
    requires forall m :: m in found ==> m in rows
    requires forall m :: m in found ==> 1 <= |m.title|
    requires long in found && |long.title| > MAX_TITLE_PARAM_LENGTH
    ensures Hydrate(ToTitles(found), t => ContentAnswer(rows, t)) == Failure(BAD_REQUEST)
  {
    var fetch := t => ContentAnswer(rows, t);
    var titles := ToTitles(found);
    var k :| 0 <= k < |found| && found[k] == long;
    assert fetch(titles[k].title) == Failure(BAD_REQUEST);
    var r := Hydrate(titles, fetch);
    var j :| 0 <= j < |titles| && fetch(titles[j].title) == Failure(r.status);
    if |found[j].title| <= MAX_TITLE_PARAM_LENGTH {
      FindByTitleOfMember(rows, found[j]);
    }
  }

  /** Search, end to end, for a fragment that matches a note with a title of
      31 to 80 characters: the joined fetch fails with 400. */
  lemma {:induction false} LongMatchFailsSearch(rows: seq<Note>, fragment: string, long: Note)
    requires UniqueTitles(rows)
    requires forall m :: m in rows ==> 1 <= |m.title|
    requires long in rows && ContainsIgnoringCase(long.title, fragment) && |long.title| > MAX_TITLE_PARAM_LENGTH
    ensures
      var found := FindNotesByTitle(rows, fragment);
      Hydrate(ToTitles(found), t => ContentAnswer(rows, t)) == Failure(BAD_REQUEST)
  {
    LongMatchFailsHydrate(rows, FindNotesByTitle(rows, fragment), long);
  }

  /** Loading every note, as the client does on mount and when the search
      term is cleared, sends the empty search; the title check refuses it,
      so for every table the load fails with 400 and the page shows an empty
      list and the load error. */
  lemma {:induction false} LoadAllRefused(rows: seq<Note>)
    ensures ListAnswer(rows, "") == Failure(BAD_REQUEST)
    ensures GetAllNotes(ListAnswer(rows, ""), t => ContentAnswer(rows, t)) == Failure(BAD_REQUEST)
  {
  }

  /** What the load composes: were the empty search answered with every
      row, fetching each listed title would give the view of the whole
      table, when its titles are unique and at most 30 characters long. */
  lemma {:induction false} LoadAllComposes(rows: seq<Note>)
    requires UniqueTitles(rows)
    requires forall m :: m in rows ==> 1 <= |m.title| <= MAX_TITLE_PARAM_LENGTH
    ensures GetAllNotes(ListReply(FindNotesByTitle(rows, "")), t => ContentAnswer(rows, t)) == Success(OK, Mirror(rows))
  {
    EmptyFragmentFindsAll(rows);
    if rows != [] {
      HydrateMirrors(rows, rows);
    }
  }
}
