/** The note lifecycle service: uniqueness of the title on create, existence
    of the target on read, update and delete, each checked against the store
    before the store is changed. */
module Service {
  import opened Notes
  import opened Text
  import opened Repository

  class NoteService {
    const repo: NoteRepository

    ghost predicate Valid()
      reads this, repo
    {
      repo.Valid()
    }

    constructor (repo: NoteRepository)
      requires repo.Valid()
      ensures this.repo == repo && Valid()
    {
      this.repo := repo;
    }

    /** Deletes the note titled exactly `title`; NotFound (and nothing
        removed) when there is none. */
    method DeleteNote(title: string) returns (r: Outcome<()>)
      requires Valid()
      modifies repo
      ensures Valid() && repo.nextId == old(repo.nextId)
      ensures r.Ok? || r.NotFound?
      ensures r.NotFound? <==> FindUniqueNoteByTitle(old(repo.rows), title).None?
      ensures r.NotFound? ==> repo.rows == old(repo.rows)
      ensures r.Ok? ==> repo.rows == WithoutTitle(old(repo.rows), title)
      ensures r.Ok? ==> |repo.rows| == |old(repo.rows)| - 1
      ensures forall other :: (FindUniqueNoteByTitle(repo.rows, other) ==
        if other == title then None else FindUniqueNoteByTitle(old(repo.rows), other))
    {
      var searchResult := FindUniqueNoteByTitle(repo.rows, title);
      if searchResult.None? {
        return NotFound;
      }
      WithoutTitleRemovesOne(repo.rows, title);
      ghost var before := repo.rows;
      var removed := repo.RemoveNote(title);
      r := Ok(());
      forall other ensures FindUniqueNoteByTitle(repo.rows, other) ==
        if other == title then None else FindUniqueNoteByTitle(before, other)
      {
        WithoutTitleLookup(before, title, other);
      }
    }

    /** Creates a note under a title nobody holds; Conflict, with the store
        untouched, when the title is taken. The insert always takes the
        create branch of the upsert, because the title was just checked. */
    method CreateNote(note: NoteFields) returns (r: Outcome<Note>)
      requires Valid()
      modifies repo
      ensures Valid()
      ensures r.Ok? || r.Conflict?
      ensures r.Conflict? <==> FindUniqueNoteByTitle(old(repo.rows), note.title).Some?
      ensures r.Conflict? ==> unchanged(repo)
      ensures r.Ok? ==>
        && r.value == Note(old(repo.nextId), note.title, note.content)
        && repo.rows == old(repo.rows) + [r.value]
        && repo.nextId == old(repo.nextId) + 1
      ensures r.Ok? ==> FindUniqueNoteByTitle(repo.rows, note.title) == Some(r.value)
    {
      var searchResult := FindUniqueNoteByTitle(repo.rows, note.title);
      if searchResult.Some? {
        return Conflict;
      }
      ghost var before := repo.rows;
      var createdNote := repo.UpsertNote(note);
      AppendLookup(before, createdNote, note.title);
      r := Ok(createdNote);
    }

    /** The notes whose title contains `fragment`, ignoring case; an empty
        result is an empty list, not an error. */
    method SearchTitleList(fragment: string) returns (r: seq<Note>)
      ensures r == FindNotesByTitle(repo.rows, fragment)
      ensures forall m :: m in r <==> m in repo.rows && ContainsIgnoringCase(m.title, fragment)
    {
      r := FindNotesByTitle(repo.rows, fragment);
    }

    /** The note titled exactly `title`, or NotFound. */
    method GetNoteContent(title: string) returns (r: Outcome<Note>)
      ensures r.Ok? || r.NotFound?
      ensures r.Ok? ==> r.value in repo.rows && r.value.title == title
      ensures r.Ok? ==> FindUniqueNoteByTitle(repo.rows, title) == Some(r.value)
      ensures r.NotFound? <==> forall m :: m in repo.rows ==> m.title != title
    {
      var searchResult := FindUniqueNoteByTitle(repo.rows, title);
      if searchResult.None? {
        return NotFound;
      }
      r := Ok(searchResult.value);
    }

    /** Finds the note titled `title`, gives that record the new title and
        content (its id stays) and saves it by id. NotFound when there is no
        such note. The new title is not checked, so a title held by another
        note makes the save fail in the store, leaving the table as it was. */
    method UpdateNote(note: NoteFields, title: string) returns (r: Outcome<Note>)
      requires Valid()
      modifies repo
      ensures Valid() && repo.nextId == old(repo.nextId)
      ensures r.Ok? || r.NotFound? || r.StorageError?
      ensures r.NotFound? <==> FindUniqueNoteByTitle(old(repo.rows), title).None?
      ensures !r.Ok? ==> repo.rows == old(repo.rows)
      ensures FindUniqueNoteByTitle(old(repo.rows), title).Some? ==>
        var existing := FindUniqueNoteByTitle(old(repo.rows), title).value;
        var saved := Note(existing.id, note.title, note.content);
        && (r.Ok? <==> TitleFreeFor(old(repo.rows), saved))
        && (r.Ok? ==> r.value == saved && repo.rows == Replaced(old(repo.rows), saved))
      ensures r.Ok? ==> forall other :: (FindUniqueNoteByTitle(repo.rows, other) ==
        if other == note.title then Some(r.value)
        else if other == title then None
        else FindUniqueNoteByTitle(old(repo.rows), other))
    {
      var searchResult := FindUniqueNoteByTitle(repo.rows, title);
      if searchResult.None? {
        return NotFound;
      }
      var record := searchResult.value;
      ghost var existing := record;
      record := record.(title := note.title);
      record := record.(content := note.content);
      ghost var before := repo.rows;
      FindByIdOfMember(before, existing);
      r := repo.SaveNote(record);
      if r.Ok? {
        forall other ensures FindUniqueNoteByTitle(repo.rows, other) ==
          if other == note.title then Some(r.value)
          else if other == title then None
          else FindUniqueNoteByTitle(before, other)
        {
          ReplacedLookup(before, record, existing, other);
        }
      }
    }
  }
}
