/** The request shapes the controller accepts and the checks the validation
    pipe runs on them before any handler is called. A field is `None` when
    the request does not carry it; every value that is present has already
    been converted to a string. */
module Dto {
  import opened Notes

  const MAX_TITLE_LENGTH := 80
  const MAX_CONTENT_LENGTH := 480
  const MAX_TITLE_PARAM_LENGTH := 30

  /** The body of a create or update request (NoteUpsertDTO). */
  datatype NoteUpsertDTO = NoteUpsertDTO(title: Option<string>, content: Option<string>)

  /** The `title` of a query string or a path (NoteTitleDTO). */
  datatype NoteTitleDTO = NoteTitleDTO(title: Option<string>)

  /** `@IsNotEmpty()`: present and not the empty string. */
  predicate IsNotEmpty(v: Option<string>) {
    v.Some? && v.value != ""
  }

  /** `@MaxLength(n)`: a string of at most `n` characters. */
  predicate MaxLength(v: Option<string>, n: nat) {
    v.Some? && |v.value| <= n
  }

  /** `@IsString()`. */
  predicate IsString(v: Option<string>) {
    v.Some?
  }

  /** The checks of NoteUpsertDTO; on success, the fields the controller maps
      into the service's note. No trimming happens here. */
  function ValidateUpsert(dto: NoteUpsertDTO): (r: Option<NoteFields>)
    ensures r.Some? <==>
      && dto.title.Some? && 1 <= |dto.title.value| <= MAX_TITLE_LENGTH
      && dto.content.Some? && 1 <= |dto.content.value| <= MAX_CONTENT_LENGTH
    ensures r.Some? ==> r.value == NoteFields(dto.title.value, dto.content.value)
  {
    if IsNotEmpty(dto.title) && MaxLength(dto.title, MAX_TITLE_LENGTH)
       && IsNotEmpty(dto.content) && MaxLength(dto.content, MAX_CONTENT_LENGTH)
    then Some(NoteFields(dto.title.value, dto.content.value))
    else None
  }

  /** The checks of NoteTitleDTO; on success, the title itself. */
  function ValidateTitle(dto: NoteTitleDTO): (r: Option<string>)
    ensures r.Some? <==> dto.title.Some? && 1 <= |dto.title.value| <= MAX_TITLE_PARAM_LENGTH
    ensures r.Some? ==> r.value == dto.title.value
  {
    if MaxLength(dto.title, MAX_TITLE_PARAM_LENGTH) && IsNotEmpty(dto.title) && IsString(dto.title)
    then Some(dto.title.value)
    else None
  }

  /** The empty search, by which the client means "every note", is refused. */
  lemma EmptyTitleRefused()
    ensures ValidateTitle(NoteTitleDTO(Some(""))).None?
  {
  }

  /** Whitespace-only fields pass: the validators do not trim. */
  lemma BlankBodyAccepted()
    ensures ValidateUpsert(NoteUpsertDTO(Some(" "), Some(" "))) == Some(NoteFields(" ", " "))
  {
  }

  /** A title the body validator accepts with more than 30 characters can
      never be passed as a path or query title, so a note created under it
      cannot afterwards be read, updated or deleted by title. */
  lemma LongTitlesUnaddressable(dto: NoteUpsertDTO)
    requires ValidateUpsert(dto).Some?
    requires |dto.title.value| > MAX_TITLE_PARAM_LENGTH
    ensures ValidateTitle(NoteTitleDTO(dto.title)).None?
  {
  }

  /** Every title accepted as a path or query title is also a valid body title. */
  lemma AddressableTitlesAreStorable(t: string, content: string)
    requires ValidateTitle(NoteTitleDTO(Some(t))).Some?
    requires 1 <= |content| <= MAX_CONTENT_LENGTH
    ensures ValidateUpsert(NoteUpsertDTO(Some(t), Some(content))) == Some(NoteFields(t, content))
  {
  }
}
