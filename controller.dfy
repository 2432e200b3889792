/** The HTTP face of the backend: the reply shapes, the status each service
    outcome becomes, and the five handlers. Each handler is preceded by the
    validation pipe (a request failing its DTO checks is answered 400 and
    reaches no handler), forwards to the service and projects the result to
    the public read shapes, which carry no id. */
module Controller {
  import opened Notes
  import opened Repository
  import opened Service
  import opened Dto

  const OK := 200
  const CREATED := 201
  const NO_CONTENT := 204
  const BAD_REQUEST := 400
  const NOT_FOUND := 404
  const CONFLICT := 409
  const INTERNAL_SERVER_ERROR := 500

  /** What a handler answers: a status with a body, or an error status. */
  datatype Reply<T> = Success(status: nat, body: T) | Failure(status: nat)

  /** NoteReadDTO: the public shape of a single note. */
  datatype NoteReadDTO = NoteReadDTO(title: string, content: string)

  /** One entry of a search answer: the title only. */
  datatype TitleItem = TitleItem(title: string)

  /** The projection to NoteReadDTO: the id is dropped. */
  function ToRead(n: Note): (r: NoteReadDTO)
    ensures r.title == n.title && r.content == n.content
  {
    NoteReadDTO(n.title, n.content)
  }

  /** The projection of a list to title-only entries, one per note, in order. */
  function ToTitles(notes: seq<Note>): (r: seq<TitleItem>)
    ensures |r| == |notes|
    ensures forall i :: 0 <= i < |notes| ==> r[i].title == notes[i].title
  {
    seq(|notes|, i requires 0 <= i < |notes| => TitleItem(notes[i].title))
  }

  /** The status the exception filters give a failed outcome: the status of
      the service's HTTP exception, or 500 for anything the store raised. */
  function FailureStatus<T>(o: Outcome<T>): (r: nat)
    ensures r == CONFLICT <==> o.Conflict?
    ensures r == NOT_FOUND <==> o.NotFound?
    ensures o.StorageError? ==> r == INTERNAL_SERVER_ERROR
  {
    match o
    case Conflict => CONFLICT
    case NotFound => NOT_FOUND
    case _ => INTERNAL_SERVER_ERROR
  }

  /** A single-note outcome answered with `status` on success. */
  function NoteReply(o: Outcome<Note>, status: nat): Reply<NoteReadDTO> {
    if o.Ok? then Success(status, ToRead(o.value)) else Failure(FailureStatus(o))
  }

  /** The answer to a search: 204 when nothing matched (nothing is mapped),
      otherwise one title-only entry per note, in the same order. */
  function ListReply(notes: seq<Note>): (r: Reply<seq<TitleItem>>)
    ensures r.Failure? <==> notes == []
    ensures r.Failure? ==> r.status == NO_CONTENT
    ensures r.Success? ==> r.status == OK && |r.body| == |notes|
    ensures r.Success? ==> forall i :: 0 <= i < |notes| ==> r.body[i].title == notes[i].title
  {
    if |notes| == 0 then Failure(NO_CONTENT) else Success(OK, ToTitles(notes))
  }

  /** The answer of GET /note?title= for `query` on the table `rows`: 400
      when the query fails the title check, otherwise the list answer of the
      search. */
  function ListAnswer(rows: seq<Note>, query: string): (r: Reply<seq<TitleItem>>)
    ensures !(1 <= |query| <= MAX_TITLE_PARAM_LENGTH) ==> r == Failure(BAD_REQUEST)
    ensures 1 <= |query| <= MAX_TITLE_PARAM_LENGTH ==> r == ListReply(FindNotesByTitle(rows, query))
  {
    if ValidateTitle(NoteTitleDTO(Some(query))).None? then Failure(BAD_REQUEST)
    else ListReply(FindNotesByTitle(rows, query))
  }

  /** The answer of GET /note/content/:title for `title` on the table `rows`:
      400 when the title fails the path check, 404 when no row has exactly
      that title, otherwise 200 with the row's title and content. */
  function ContentAnswer(rows: seq<Note>, title: string): (r: Reply<NoteReadDTO>)
    ensures r == Failure(BAD_REQUEST) <==> !(1 <= |title| <= MAX_TITLE_PARAM_LENGTH)
    ensures r == Failure(NOT_FOUND) <==>
      1 <= |title| <= MAX_TITLE_PARAM_LENGTH && forall m :: m in rows ==> m.title != title
    ensures r.Success? ==> r.status == OK && exists m :: m in rows && m.title == title && r.body == ToRead(m)
    ensures 1 <= |title| <= MAX_TITLE_PARAM_LENGTH && FindUniqueNoteByTitle(rows, title).Some? ==>
      r == Success(OK, ToRead(FindUniqueNoteByTitle(rows, title).value))
  {
    var valid := ValidateTitle(NoteTitleDTO(Some(title)));
    if valid.None? then Failure(BAD_REQUEST)
    else NoteReply(if FindUniqueNoteByTitle(rows, title).Some? then Ok(FindUniqueNoteByTitle(rows, title).value)
                   else NotFound, OK)
  }

  class NoteController {
    const service: NoteService

    ghost predicate Valid()
      reads this, service, service.repo
    {
      service.Valid()
    }

    constructor (service: NoteService)
      requires service.Valid()
      ensures this.service == service && Valid()
    {
      this.service := service;
    }

    /** POST /note: 201 with the created note's title and content, 409 when
        the title is taken, 400 for an invalid body. */
    method CreateNote(dto: NoteUpsertDTO) returns (reply: Reply<NoteReadDTO>)
      requires Valid()
      modifies service.repo
      ensures Valid()
      ensures ValidateUpsert(dto).None? ==> reply == Failure(BAD_REQUEST) && unchanged(service.repo)
      ensures ValidateUpsert(dto).Some? ==>
        var note := ValidateUpsert(dto).value;
        if FindUniqueNoteByTitle(old(service.repo.rows), note.title).Some? then
          reply == Failure(CONFLICT) && unchanged(service.repo)
        else
          && reply == Success(CREATED, NoteReadDTO(note.title, note.content))
          && service.repo.rows == old(service.repo.rows) + [Note(old(service.repo.nextId), note.title, note.content)]
    {
      var note := ValidateUpsert(dto);
      if note.None? {
        return Failure(BAD_REQUEST);
      }
      var createdNote := service.CreateNote(note.value);
      reply := NoteReply(createdNote, CREATED);
    }

    /** GET /note?title=: the titles of the notes whose title contains the
        query, ignoring case; 204 when there are none, 400 for an invalid query. */
    method ReadNoteListByTitle(dto: NoteTitleDTO) returns (reply: Reply<seq<TitleItem>>)
      ensures ValidateTitle(dto).None? ==> reply == Failure(BAD_REQUEST)
      ensures ValidateTitle(dto).Some? ==>
        reply == ListReply(FindNotesByTitle(service.repo.rows, ValidateTitle(dto).value))
      ensures dto.title.Some? ==> reply == ListAnswer(service.repo.rows, dto.title.value)
    {
      var title := ValidateTitle(dto);
      if title.None? {
        return Failure(BAD_REQUEST);
      }
      var notes := service.SearchTitleList(title.value);
      reply := ListReply(notes);
    }

    /** GET /note/content/:title: the note's title and content, 404 when no
        note has that exact title (nothing is mapped), 400 for an invalid title. */
    method ReadNoteContent(dto: NoteTitleDTO) returns (reply: Reply<NoteReadDTO>)
      ensures ValidateTitle(dto).None? ==> reply == Failure(BAD_REQUEST)
      ensures ValidateTitle(dto).Some? ==>
        match FindUniqueNoteByTitle(service.repo.rows, ValidateTitle(dto).value)
        case None => reply == Failure(NOT_FOUND)
        case Some(n) => reply == Success(OK, NoteReadDTO(n.title, n.content))
      ensures dto.title.Some? ==> reply == ContentAnswer(service.repo.rows, dto.title.value)
    {
      var title := ValidateTitle(dto);
      if title.None? {
        return Failure(BAD_REQUEST);
      }
      var note := service.GetNoteContent(title.value);
      reply := NoteReply(note, OK);
    }

    /** PUT /note/:title with the body's new title and content: 200 with the
        updated title and content, 404 when the old title is absent, 500 when
        the new title belongs to another note, 400 for an invalid body or title. */
    method UpdateNote(dto: NoteUpsertDTO, oldTitle: NoteTitleDTO) returns (reply: Reply<NoteReadDTO>)
      requires Valid()
      modifies service.repo
      ensures Valid()
      ensures ValidateUpsert(dto).None? || ValidateTitle(oldTitle).None? ==>
        reply == Failure(BAD_REQUEST) && unchanged(service.repo)
      ensures ValidateUpsert(dto).Some? && ValidateTitle(oldTitle).Some? ==>
        var note := ValidateUpsert(dto).value;
        match FindUniqueNoteByTitle(old(service.repo.rows), ValidateTitle(oldTitle).value)
        case None => reply == Failure(NOT_FOUND) && service.repo.rows == old(service.repo.rows)
        case Some(existing) =>
          var saved := Note(existing.id, note.title, note.content);
          if TitleFreeFor(old(service.repo.rows), saved) then
            && reply == Success(OK, NoteReadDTO(note.title, note.content))
            && service.repo.rows == Replaced(old(service.repo.rows), saved)
          else
            reply == Failure(INTERNAL_SERVER_ERROR) && service.repo.rows == old(service.repo.rows)
    {
      var note := ValidateUpsert(dto);
      var title := ValidateTitle(oldTitle);
      if note.None? || title.None? {
        return Failure(BAD_REQUEST);
      }
      var updatedNote := service.UpdateNote(note.value, title.value);
      reply := NoteReply(updatedNote, OK);
    }

    /** DELETE /note/:title: 200 with no body once the note is removed, 404
        when no note has that title, 400 for an invalid title. */
    method DeleteNote(dto: NoteTitleDTO) returns (reply: Reply<()>)
      requires Valid()
      modifies service.repo
      ensures Valid()
      ensures ValidateTitle(dto).None? ==> reply == Failure(BAD_REQUEST) && unchanged(service.repo)
      ensures ValidateTitle(dto).Some? ==>
        var title := ValidateTitle(dto).value;
        if FindUniqueNoteByTitle(old(service.repo.rows), title).None? then
          reply == Failure(NOT_FOUND) && service.repo.rows == old(service.repo.rows)
        else
          reply == Success(OK, ()) && service.repo.rows == WithoutTitle(old(service.repo.rows), title)
    {
      var title := ValidateTitle(dto);
      if title.None? {
        return Failure(BAD_REQUEST);
      }
      var deleted := service.DeleteNote(title.value);
      reply := if deleted.Ok? then Success(OK, ()) else Failure(FailureStatus(deleted));
    }
  }
}
