/** The browser client: the list of notes it shows, the form it edits, the
    note selected for editing or viewing, the error banner, and the handlers
    that guard, call the backend and patch the list on success. A backend
    answer is a parameter of the handler that receives it; the request a
    handler sends is returned, so what is sent and what is done with the
    answer can both be stated. */
module Client {
  import opened Notes
  import opened Text
  import opened Controller

  /** The messages the error banner can show. */
  datatype ErrorMessage =
    | NoError
    | FillTitleAndContent
    | NoNoteSelected
    | DuplicateTitle
    | CreateFailed
    | NoteNotFound
    | UpdateFailed
    | DeleteFailed
    | SearchFailed
    | LoadForEditFailed
    | LoadForViewFailed
    | LoadFailed

  // ----- List transforms --------------------------------------------------

  /** The list after an update: every entry titled `title` becomes `updated`;
      length and order stay. */
  function ReplaceByTitle(notes: seq<NoteReadDTO>, title: string, updated: NoteReadDTO): (r: seq<NoteReadDTO>)
    ensures |r| == |notes|
    ensures forall i :: 0 <= i < |notes| ==> r[i] == if notes[i].title == title then updated else notes[i]
  {
    if notes == [] then []
    else [if notes[0].title == title then updated else notes[0]] + ReplaceByTitle(notes[1..], title, updated)
  }

  /** The list after a delete: the entries not titled `title`, in order. */
  function RemoveByTitle(notes: seq<NoteReadDTO>, title: string): (r: seq<NoteReadDTO>)
    ensures |r| <= |notes|
    ensures forall n :: n in r <==> n in notes && n.title != title
  {
    if notes == [] then []
    else if notes[0].title == title then RemoveByTitle(notes[1..], title)
    else [notes[0]] + RemoveByTitle(notes[1..], title)
  }

  /** Replacing twice by the same old title changes nothing more. */
  lemma {:induction false} ReplaceByTitleIdempotent(notes: seq<NoteReadDTO>, title: string, updated: NoteReadDTO)
    ensures ReplaceByTitle(ReplaceByTitle(notes, title, updated), title, updated) == ReplaceByTitle(notes, title, updated)
  {
    if notes != [] {
      ReplaceByTitleIdempotent(notes[1..], title, updated);
    }
  }

  /** The delete patch filters entry by entry: the patch of two lists laid
      end to end is the patch of the first followed by the patch of the
      second. With `RemoveByTitleSingle`, the surviving entries keep their
      order and their number. */
  lemma {:induction false} RemoveByTitleSplits(a: seq<NoteReadDTO>, b: seq<NoteReadDTO>, title: string)
    ensures RemoveByTitle(a + b, title) == RemoveByTitle(a, title) + RemoveByTitle(b, title)
  {
    if a == [] {
      assert a + b == b;
    } else {
      var x, rest := a[0], a[1..];
      var kept := if x.title != title then [x] else [];
      calc {
        RemoveByTitle(a + b, title);
        { assert a + b == [x] + (rest + b); RemoveByTitleCons(x, rest + b, title); }
        kept + RemoveByTitle(rest + b, title);
        { RemoveByTitleSplits(rest, b, title); }
        kept + (RemoveByTitle(rest, title) + RemoveByTitle(b, title));
        (kept + RemoveByTitle(rest, title)) + RemoveByTitle(b, title);
        { assert a == [x] + rest; RemoveByTitleCons(x, rest, title); }
        RemoveByTitle(a, title) + RemoveByTitle(b, title);
      }
    }
  }

  /** An entry put in front survives in front exactly when its title
      differs. */
  lemma {:induction false} RemoveByTitleCons(x: NoteReadDTO, c: seq<NoteReadDTO>, title: string)
    ensures RemoveByTitle([x] + c, title) == (if x.title != title then [x] else []) + RemoveByTitle(c, title)
  {
    assert ([x] + c)[0] == x && ([x] + c)[1..] == c;
  }

  /** A list of one entry keeps it exactly when its title differs. */
  lemma {:induction false} RemoveByTitleSingle(n: NoteReadDTO, title: string)
    ensures RemoveByTitle([n], title) == if n.title != title then [n] else []
  {
    assert [n][1..] == [];
  }

  /** Removing a title nobody has leaves the list as it is, so a second
      delete of the same title is a no-op on the list. */
  lemma {:induction false} RemoveByTitleAbsent(notes: seq<NoteReadDTO>, title: string)
    requires forall n :: n in notes ==> n.title != title
    ensures RemoveByTitle(notes, title) == notes
  {
    if notes != [] {
      RemoveByTitleAbsent(notes[1..], title);
    }
  }

  /** The search result's contents, fetched title by title and joined as the
      client's `Promise.all` joins them: all bodies in order when every fetch
      succeeds, otherwise the status of the first failing fetch. */
  function Hydrate(titles: seq<TitleItem>, fetch: string -> Reply<NoteReadDTO>): (r: Reply<seq<NoteReadDTO>>)
    ensures r.Success? <==> forall i :: 0 <= i < |titles| ==> fetch(titles[i].title).Success?
    ensures r.Success? ==> |r.body| == |titles|
    ensures r.Success? ==> forall i :: 0 <= i < |titles| ==> r.body[i] == fetch(titles[i].title).body
    ensures r.Failure? ==> exists i :: 0 <= i < |titles| && fetch(titles[i].title) == Failure(r.status)
  {
    if titles == [] then Success(OK, [])
    else
      var first := fetch(titles[0].title);
      if first.Failure? then Failure(first.status)
      else
        var rest := Hydrate(titles[1..], fetch);
        if rest.Failure? then rest else Success(OK, [first.body] + rest.body)
  }

  /** What loading every note yields: the empty search is sent, `listing` is
      its answer and `fetch` answers the content request made for each listed
      title. No match (an empty list or 204) is the empty list, and so is a
      join that fails with 204, since the same handler catches both; any
      other failure is passed on. */
  function GetAllNotes(listing: Reply<seq<TitleItem>>, fetch: string -> Reply<NoteReadDTO>): (r: Reply<seq<NoteReadDTO>>)
    ensures listing.Failure? && listing.status != NO_CONTENT ==> r == Failure(listing.status)
    ensures listing == Failure(NO_CONTENT) || listing == Success(listing.status, []) ==> r == Success(OK, [])
    ensures listing.Success? && listing.body != [] ==>
      var joined := Hydrate(listing.body, fetch);
      r == if joined == Failure(NO_CONTENT) then Success(OK, []) else joined
  {
    match listing
    case Failure(status) => if status == NO_CONTENT then Success(OK, []) else Failure(status)
    case Success(_, titles) =>
      if titles == [] then Success(OK, [])
      else
        var joined := Hydrate(titles, fetch);
        if joined == Failure(NO_CONTENT) then Success(OK, []) else joined
  }

  // ----- The form ---------------------------------------------------------

  /** What the create and update forms send: both fields trimmed, or nothing
      when either is empty once trimmed. A form is held back exactly when a
      field is all whitespace; a form that is sent has non-empty fields that
      neither begin nor end with whitespace, and is the trimmed form. */
  function Submission(f: NoteFields): (r: Option<NoteFields>)
    ensures r.None? <==> IsBlank(f.title) || IsBlank(f.content)
    ensures r.Some? ==>
      && r.value == NoteFields(Trim(f.title), Trim(f.content))
      && r.value.title != [] && !IsWhitespace(r.value.title[0]) && !IsWhitespace(r.value.title[|r.value.title| - 1])
      && r.value.content != [] && !IsWhitespace(r.value.content[0]) && !IsWhitespace(r.value.content[|r.value.content| - 1])
  {
    if Trim(f.title) == [] || Trim(f.content) == [] then None
    else Some(NoteFields(Trim(f.title), Trim(f.content)))
  }

  // ----- The page state ---------------------------------------------------

  class NotesApp {
    var notes: seq<NoteReadDTO>
    var searchTerm: string
    var currentNote: NoteFields
    var editingNote: Option<NoteReadDTO>
    var viewingNote: Option<NoteReadDTO>
    var error: ErrorMessage

    /** The page as first shown: empty form and search term, nothing
        selected, and the list loaded as `fetchNotes` loads it on mount. */
    constructor (listing: Reply<seq<TitleItem>>, fetch: string -> Reply<NoteReadDTO>)
      ensures searchTerm == "" && currentNote == NoteFields("", "")
      ensures editingNote == None && viewingNote == None
      ensures LoadEffect(GetAllNotes(listing, fetch))
    {
      var answer := GetAllNotes(listing, fetch);
      notes := if answer.Success? then answer.body else [];
      searchTerm := "";
      currentNote := NoteFields("", "");
      editingNote := None;
      viewingNote := None;
      error := if answer.Success? then NoError else LoadFailed;
    }

    /** The list and banner after `fetchNotes`: the loaded notes with no
        error, or an empty list with the load error. */
    ghost predicate LoadEffect(answer: Reply<seq<NoteReadDTO>>)
      reads this
    {
      if answer.Success? then notes == answer.body && error == NoError
      else notes == [] && error == LoadFailed
    }

    /** fetchNotes: the error is cleared and the list replaced by what
        loading every note yields, or emptied with the load error. */
    method FetchNotes(listing: Reply<seq<TitleItem>>, fetch: string -> Reply<NoteReadDTO>) returns (query: string)
      modifies this
      ensures query == ""
      ensures LoadEffect(GetAllNotes(listing, fetch))
      ensures searchTerm == old(searchTerm) && currentNote == old(currentNote)
      ensures editingNote == old(editingNote) && viewingNote == old(viewingNote)
    {
      query := "";
      var answer := GetAllNotes(listing, fetch);
      if answer.Success? {
        notes := answer.body;
        error := NoError;
      } else {
        notes := [];
        error := LoadFailed;
      }
    }

    method ChangeTitle(value: string)
      modifies this
      ensures currentNote == old(currentNote).(title := value)
      ensures notes == old(notes) && searchTerm == old(searchTerm) && error == old(error)
      ensures editingNote == old(editingNote) && viewingNote == old(viewingNote)
    {
      currentNote := currentNote.(title := value);
    }

    method ChangeContent(value: string)
      modifies this
      ensures currentNote == old(currentNote).(content := value)
      ensures notes == old(notes) && searchTerm == old(searchTerm) && error == old(error)
      ensures editingNote == old(editingNote) && viewingNote == old(viewingNote)
    {
      currentNote := currentNote.(content := value);
    }

    /** A new search term. When it differs from the old one and is blank,
        the page reloads every note (`fetchNotes`), and `listing` and `fetch`
        answer that load; otherwise only the term changes. */
    method ChangeSearchTerm(value: string, listing: Reply<seq<TitleItem>>, fetch: string -> Reply<NoteReadDTO>)
      returns (query: Option<string>)
      modifies this
      ensures searchTerm == value && currentNote == old(currentNote)
      ensures editingNote == old(editingNote) && viewingNote == old(viewingNote)
      ensures value != old(searchTerm) && IsBlank(value) ==>
        query == Some("") && LoadEffect(GetAllNotes(listing, fetch))
      ensures !(value != old(searchTerm) && IsBlank(value)) ==>
        query == None && notes == old(notes) && error == old(error)
    {
      var reload := value != searchTerm && Trim(value) == [];
      searchTerm := value;
      if reload {
        var sent := FetchNotes(listing, fetch);
        query := Some(sent);
      } else {
        query := None;
      }
    }

    /** Create: refused before any call when the trimmed title or content is
        empty; otherwise the trimmed pair is sent, and `reply` is the answer.
        Success appends the returned note and clears the form; failure keeps
        the list and reports a taken title (409) apart from other errors. */
    method HandleCreateNote(reply: Reply<NoteReadDTO>) returns (request: Option<NoteFields>)
      modifies this
      ensures searchTerm == old(searchTerm) && editingNote == old(editingNote) && viewingNote == old(viewingNote)
      ensures request == Submission(old(currentNote))
      ensures request.None? ==>
        notes == old(notes) && currentNote == old(currentNote) && error == FillTitleAndContent
      ensures request.Some? && reply.Success? ==>
        notes == old(notes) + [reply.body] && currentNote == NoteFields("", "") && error == NoError
      ensures request.Some? && reply.Failure? ==>
        && notes == old(notes) && currentNote == old(currentNote)
        && error == if reply.status == CONFLICT then DuplicateTitle else CreateFailed
    {
      var form := Submission(currentNote);
      request := CreateWith(form, reply);
    }

    /** The create handler once the form is trimmed: the guard, the request
        and what the answer does. */
    method CreateWith(form: Option<NoteFields>, reply: Reply<NoteReadDTO>) returns (request: Option<NoteFields>)
      modifies this
      ensures searchTerm == old(searchTerm) && editingNote == old(editingNote) && viewingNote == old(viewingNote)
      ensures request == form
      ensures request.None? ==>
        notes == old(notes) && currentNote == old(currentNote) && error == FillTitleAndContent
      ensures request.Some? && reply.Success? ==>
        notes == old(notes) + [reply.body] && currentNote == NoteFields("", "") && error == NoError
      ensures request.Some? && reply.Failure? ==>
        && notes == old(notes) && currentNote == old(currentNote)
        && error == if reply.status == CONFLICT then DuplicateTitle else CreateFailed
    {
      if form.None? {
        error := FillTitleAndContent;
        return None;
      }
      error := NoError;
      request := form;
      if reply.Success? {
        notes := notes + [reply.body];
        currentNote := NoteFields("", "");
      } else if reply.status == CONFLICT {
        error := DuplicateTitle;
      } else {
        error := CreateFailed;
      }
    }

    /** Update: refused before any call when the trimmed title or content is
        empty or no note is selected; otherwise the selected note's title and
        the trimmed pair are sent. Success replaces the entries with the old
        title by the returned note (and the viewed note, when it is that one)
        and ends the edit; failure keeps everything and reports 404 apart
        from other errors. */
    method HandleUpdateNote(reply: Reply<NoteReadDTO>) returns (request: Option<(string, NoteFields)>)
      modifies this
      ensures searchTerm == old(searchTerm)
      ensures UpdateEffect(Submission(old(currentNote)), reply, request,
                           old(notes), old(currentNote), old(editingNote), old(viewingNote))
    {
      var form := Submission(currentNote);
      request := UpdateWith(form, reply);
    }

    /** The update handler once the form is trimmed: the guards, the request
        and what the answer does. */
    method UpdateWith(form: Option<NoteFields>, reply: Reply<NoteReadDTO>) returns (request: Option<(string, NoteFields)>)
      modifies this
      ensures searchTerm == old(searchTerm)
      ensures UpdateEffect(form, reply, request, old(notes), old(currentNote), old(editingNote), old(viewingNote))
    {
      if form.None? {
        error := FillTitleAndContent;
        return None;
      }
      if editingNote.None? {
        error := NoNoteSelected;
        return None;
      }
      var oldTitle := editingNote.value.title;
      error := NoError;
      request := Some((oldTitle, form.value));
      if reply.Success? {
        notes := ReplaceByTitle(notes, oldTitle, reply.body);
        if viewingNote.Some? && viewingNote.value.title == oldTitle {
          viewingNote := Some(reply.body);
        }
        currentNote := NoteFields("", "");
        editingNote := None;
      } else if reply.status == NOT_FOUND {
        error := NoteNotFound;
      } else {
        error := UpdateFailed;
      }
    }

    /** The request and the new page state of an update, from the trimmed
        form, the answer and the state before. */
    ghost predicate UpdateEffect(form: Option<NoteFields>, reply: Reply<NoteReadDTO>,
                                 request: Option<(string, NoteFields)>, notes0: seq<NoteReadDTO>,
                                 current0: NoteFields, editing0: Option<NoteReadDTO>, viewing0: Option<NoteReadDTO>)
      reads this
    {
      if form.None? || editing0.None? then
        && request == None && notes == notes0 && currentNote == current0
        && editingNote == editing0 && viewingNote == viewing0
        && error == if form.None? then FillTitleAndContent else NoNoteSelected
      else
        var oldTitle := editing0.value.title;
        && request == Some((oldTitle, form.value))
        && (reply.Success? ==>
              && notes == ReplaceByTitle(notes0, oldTitle, reply.body)
              && viewingNote == (if viewing0.Some? && viewing0.value.title == oldTitle then Some(reply.body) else viewing0)
              && currentNote == NoteFields("", "") && editingNote == None && error == NoError)
        && (reply.Failure? ==>
              && notes == notes0 && currentNote == current0
              && editingNote == editing0 && viewingNote == viewing0
              && error == if reply.status == NOT_FOUND then NoteNotFound else UpdateFailed)
    }

    /** Delete of `noteTitle` (always sent). Success removes every entry with
        that title and closes the view of it; failure keeps the list and
        reports 404 apart from other errors. */
    method HandleDeleteNote(noteTitle: string, reply: Reply<()>)
      modifies this
      ensures searchTerm == old(searchTerm) && currentNote == old(currentNote) && editingNote == old(editingNote)
      ensures reply.Success? ==>
        && notes == RemoveByTitle(old(notes), noteTitle)
        && viewingNote == (if old(viewingNote).Some? && old(viewingNote).value.title == noteTitle
                           then None else old(viewingNote))
        && error == NoError
      ensures reply.Failure? ==>
        && notes == old(notes) && viewingNote == old(viewingNote)
        && error == if reply.status == NOT_FOUND then NoteNotFound else DeleteFailed
    {
      error := NoError;
      if reply.Success? {
        notes := RemoveByTitle(notes, noteTitle);
        if viewingNote.Some? && viewingNote.value.title == noteTitle {
          viewingNote := None;
        }
      } else if reply.status == NOT_FOUND {
        error := NoteNotFound;
      } else {
        error := DeleteFailed;
      }
    }

    /** Search: nothing happens for a blank term; otherwise the untrimmed
        term is sent, `listing` is the answer and `fetch` answers the content
        request made for each listed title. Matches replace the list; no
        match (an empty list or 204) empties it; any other failure keeps the
        list and shows an error. */
    method HandleSearch(listing: Reply<seq<TitleItem>>, fetch: string -> Reply<NoteReadDTO>)
      returns (query: Option<string>)
      modifies this
      ensures searchTerm == old(searchTerm) && currentNote == old(currentNote)
      ensures editingNote == old(editingNote) && viewingNote == old(viewingNote)
      ensures IsBlank(old(searchTerm)) ==> query == None && notes == old(notes) && error == old(error)
      ensures !IsBlank(old(searchTerm)) ==>
        && query == Some(old(searchTerm))
        && match listing
           case Failure(status) => FailedSearchEffect(status, old(notes))
           case Success(_, titles) =>
             if titles == [] then notes == [] && error == NoError
             else match Hydrate(titles, fetch)
               case Success(_, found) => notes == found && error == NoError
               case Failure(status) => FailedSearchEffect(status, old(notes))
    {
      if Trim(searchTerm) == [] {
        return None;
      }
      query := Some(searchTerm);
      error := NoError;
      var answer: Reply<seq<NoteReadDTO>>;
      if listing.Failure? {
        answer := Failure(listing.status);
      } else if listing.body == [] {
        answer := Success(OK, []);
      } else {
        answer := Hydrate(listing.body, fetch);
      }
      if answer.Success? {
        notes := answer.body;
      } else if answer.status == NO_CONTENT {
        notes := [];
      } else {
        error := SearchFailed;
      }
    }

    /** What a failed search does: a 204 empties the list, anything else
        keeps it and shows an error. */
    ghost predicate FailedSearchEffect(status: nat, before: seq<NoteReadDTO>)
      reads this
    {
      if status == NO_CONTENT then notes == [] && error == NoError
      else notes == before && error == SearchFailed
    }

    /** Opening the edit dialog selects `note` and fills the form with its
        fetched contents, or with `note` itself when the fetch failed. */
    method OpenEditDialog(note: NoteReadDTO, fetched: Reply<NoteReadDTO>)
      modifies this
      ensures editingNote == Some(note)
      ensures currentNote == if fetched.Success? then NoteFields(fetched.body.title, fetched.body.content)
                             else NoteFields(note.title, note.content)
      ensures error == if fetched.Success? then old(error) else LoadForEditFailed
      ensures notes == old(notes) && searchTerm == old(searchTerm) && viewingNote == old(viewingNote)
    {
      editingNote := Some(note);
      if fetched.Success? {
        currentNote := NoteFields(fetched.body.title, fetched.body.content);
      } else {
        error := LoadForEditFailed;
        currentNote := NoteFields(note.title, note.content);
      }
    }

    /** Opening the view dialog shows the fetched note, or `note` itself when
        the fetch failed. */
    method OpenViewDialog(note: NoteReadDTO, fetched: Reply<NoteReadDTO>)
      modifies this
      ensures viewingNote == Some(if fetched.Success? then fetched.body else note)
      ensures error == if fetched.Success? then old(error) else LoadForViewFailed
      ensures notes == old(notes) && searchTerm == old(searchTerm)
      ensures currentNote == old(currentNote) && editingNote == old(editingNote)
    {
      if fetched.Success? {
        viewingNote := Some(fetched.body);
      } else {
        error := LoadForViewFailed;
        viewingNote := Some(note);
      }
    }
  }
}
