# Note lifecycle of desafio-corporate-web, in Dafny

This project models the note lifecycle of desafio-corporate-web, a small notes
application. It has two halves:

- a NestJS backend that keeps a table of notes keyed by a unique title;
- a React client that shows a list of notes and patches that list locally after
  each call.

The model covers five layers. Each module's own properties are proved, and so are
the properties that connect one layer to the next.

- `Text` (`text.dfy`): ASCII case folding, case-insensitive substring search, and
  JavaScript's `String.prototype.trim`. Trimming uses JavaScript's whitespace set.
- `Notes` (`notes.dfy`): the stored note `{id, title, content}` and the field pair
  that callers send. It also defines the service outcome
  `Ok | Conflict | NotFound | StorageError`.
- `Repository` (`repository.dfy`): the store.
  - The table is a sequence of rows in insertion order, a modelling choice
    explained under "## Left out". Its invariant is unique titles,
    unique ids, and every id below the next id to be handed out.
  - Queries are functions of the table.
  - `NoteRepository` is a class whose methods replace the table: upsert by title,
    delete by title, save by id.
- `Service` (`service.dfy`): `NoteService` checks existence or uniqueness of the
  title against the store before it changes anything.
- `Dto` and `Controller` (`dto.dfy`, `controller.dfy`):
  - the request validators, which answer 400;
  - the status each outcome becomes: 409 and 404 are passed through, anything the
    store raises becomes 500, and an empty search becomes 204;
  - the projections to the public shapes, which carry no id;
  - the five handlers of `NoteController`.
- `Client` (`client.dfy`): the page state of `App.tsx` as the class `NotesApp`, with
  the guards, the request each handler sends and the list patch each handler
  applies.
  - A backend answer is a parameter of the handler that receives it.
  - The request a handler would send is its result.
- `Sync` (`sync.dfy`): each client patch turns the public view of the old table into
  the public view of the new one: append on create, replace by old title on update,
  filter on delete, and re-fetch on search.
- `Scenario` (`scenario.dfy`): one walk through the handlers, from an empty store,
  with the statuses it produces.

Where the program's own comments, or one part of the program and another, disagree,
the model follows the code.
- The comment on `getAllNotes` (`services/notesApi.ts`, lines 54-58) says it
  fetches every note, by searching for the empty title. The title validator
  answers that search with 400. So the load the page runs on mount, and again
  whenever the search term is cleared, always fails. The page then shows an empty
  list and the load error. The model says so: `Dto.EmptyTitleRefused`,
  `Sync.LoadAllRefused` and `Scenario.OpenPage`. At the store level the empty
  fragment does match every row (`Repository.EmptyFragmentFindsAll`).
  `Sync.LoadAllComposes` shows what the load would give if that search were
  answered.
- A body title may have up to 80 characters, but a path or query title only 30.
  A note created under a longer title cannot be read, updated or deleted by title
  (`Dto.LongTitlesUnaddressable`). A search that matches it fails with 400, because
  its content fetch is refused (`Sync.LongMatchFailsSearch`).
- An update whose new title belongs to another note is not checked by the service.
  The unique index on `title` makes the save fail, and that failure becomes a 500.
  The model treats it as `StorageError` and leaves the table unchanged.
- The repository source has no `saveNote` and no `findUniqueNoteById`. Their
  contracts come from the repository's unit tests: save overwrites the row with the
  same id and returns it, and find-by-id returns the row with that id. A save of an
  absent id fails in the store, and the model treats that as `StorageError` too.
- The shown `updateNote` handler is mapped to `PUT /note`. Its `@Param()` old-title
  parameter of type `NoteTitleDTO` is commented out
  (`controller/note.controller.ts`, line 71). It calls the two-argument service
  method with one argument. The model follows the controller's unit test, which
  passes the old title as a second argument, and the client, which sends
  `PUT /note/:title`. The old title comes from the path and the new pair from the
  body. The old title's 400 check comes from the commented-out `NoteTitleDTO`
  parameter. The test passes a bare string, which no pipe validates.
- Deleting through the repository a title nobody holds makes the store throw
  (`StorageError`). The service checks first, so this path is never reached from a
  handler.

## Model

| member | source | states |
|---|---|---|
| Text.Trim | desafio-corporate-web-frontend/src/App.tsx:108 | the result is the slice of the input that starts where the leading whitespace ends, with only whitespace before and after it; it is empty exactly when the input is all whitespace, and otherwise starts and ends with a non-whitespace character |
| Text.TrimStart | desafio-corporate-web-frontend/src/App.tsx:117-118 | the result is a suffix of the input whose dropped prefix is whitespace and whose first character is not |
| Text.TrimEnd | desafio-corporate-web-frontend/src/App.tsx:117-118 | the result is a prefix of the input whose dropped suffix is whitespace and whose last character is not |
| Text.TrimIdempotent | desafio-corporate-web-frontend/src/App.tsx:117-118 | trimming a trimmed string changes nothing |
| Text.IsSubstringAt | desafio-corporate-web-backend/src/repository/note.repository.ts:15-18 | a fragment occurs in a string exactly when it is the slice of the string at some position |
| Text.ContainsIgnoringCaseAt | desafio-corporate-web-backend/src/repository/note.repository.ts:15-18 | the title filter (`contains` in insensitive mode) holds exactly when the case-folded fragment is the slice of the case-folded title at some position |
| Text.FoldIdempotent | desafio-corporate-web-backend/src/repository/note.repository.ts:15-18 | case folding twice is case folding once |
| Text.EmptyFragmentMatchesAll | desafio-corporate-web-backend/src/repository/note.repository.ts:15-18 | the empty fragment is contained in every title |
| Text.CaseIrrelevant | desafio-corporate-web-backend/src/repository/note.repository.ts:15-18 | matching does not change when the fragment or the title is case folded first |
| Repository.FindUniqueNoteByTitle | desafio-corporate-web-backend/src/repository/note.repository.ts:41-48 | a found note is a row with exactly that title; nothing is found exactly when no row has that title |
| Repository.FindUniqueNoteById | desafio-corporate-web-backend/test/repository/note.repository.spec.ts:123-143 | a found note is a row with that id; nothing is found exactly when no row has that id |
| Repository.FindNotesByTitle | desafio-corporate-web-backend/src/repository/note.repository.ts:12-22 | a note is in the result exactly when it is a row whose title contains the fragment, ignoring case; the result is no longer than the table |
| Repository.WithContent | desafio-corporate-web-backend/src/repository/note.repository.ts:26-27 | the row with the title gets the new content; every other row, and that row's title and id, stay |
| Repository.Replaced | desafio-corporate-web-backend/test/repository/note.repository.spec.ts:145-163 | the row with the saved note's id becomes that note; every other row stays, at its position |
| Repository.WithoutTitle | desafio-corporate-web-backend/src/repository/note.repository.ts:33-39 | a note survives exactly when it is a row whose title is not the deleted one |
| Repository.FindByTitleOfMember | desafio-corporate-web-backend/src/repository/note.repository.ts:41-48 | under unique titles, looking up a row's title finds that row |
| Repository.FindByIdOfMember | desafio-corporate-web-backend/test/repository/note.repository.spec.ts:123-143 | under unique ids, looking up a row's id finds that row |
| Repository.AppendLookup | desafio-corporate-web-backend/src/repository/note.repository.ts:24-31 | after an insert, the new title finds the new row and every other title finds what it found before |
| Repository.FindNotesByTitleSplits | desafio-corporate-web-backend/src/repository/note.repository.ts:12-22 | the search of two tables laid end to end is the search of the first followed by the search of the second, so matches keep table order and appear once each |
| Repository.FindNotesByTitleCons | desafio-corporate-web-backend/src/repository/note.repository.ts:12-22 | a row put in front of a table is put in front of the result exactly when its title contains the fragment, ignoring case |
| Repository.FindNotesByTitleSingle | desafio-corporate-web-backend/src/repository/note.repository.ts:12-22 | a table of one row yields that row exactly when its title contains the fragment, ignoring case, and nothing otherwise |
| Repository.EmptyFragmentFindsAll | desafio-corporate-web-backend/src/repository/note.repository.ts:12-22 | a search for the empty fragment returns the whole table |
| Repository.WithoutTitleLookup | desafio-corporate-web-backend/src/repository/note.repository.ts:33-39 | after a delete, the deleted title finds nothing and every other title finds what it found before |
| Repository.WithoutTitleRemovesOne | desafio-corporate-web-backend/src/repository/note.repository.ts:33-39 | deleting a present title from a table with unique titles removes exactly one row |
| Repository.WithoutTitleKeepsAll | desafio-corporate-web-backend/src/repository/note.repository.ts:33-39 | deleting an absent title leaves the table as it was |
| Repository.WithoutTitleWellFormed | desafio-corporate-web-backend/src/repository/note.repository.ts:33-39 | a delete keeps titles unique, ids unique and below the next id |
| Repository.ReplacedWellFormed | desafio-corporate-web-backend/test/repository/note.repository.spec.ts:145-163 | a save by id under a title no other row holds keeps the table invariant |
| Repository.ReplacedLookup | desafio-corporate-web-backend/src/service/note.service.ts:58-76 | after a rename by id, the new title finds the saved note, the old title finds nothing, and every other title finds what it found before |
| Repository.ReplacedKeepsOthers | desafio-corporate-web-backend/test/repository/note.repository.spec.ts:145-163 | saving an id no row has changes no row |
| Repository.NoteRepository.constructor | desafio-corporate-web-backend/src/repository/note.repository.ts:7-10 | the store starts empty, with the first id 1 |
| Repository.NoteRepository.UpsertNote | desafio-corporate-web-backend/src/repository/note.repository.ts:24-31 | an existing title gets the new content and keeps its id; an absent title is appended as a new row with the next id; the invariant holds |
| Repository.NoteRepository.RemoveNote | desafio-corporate-web-backend/src/repository/note.repository.ts:33-39 | a present title's row is removed and nothing else; an absent title fails with the table unchanged |
| Repository.NoteRepository.SaveNote | desafio-corporate-web-backend/test/repository/note.repository.spec.ts:145-163 | the save succeeds exactly when the id exists and no other row holds the title; success overwrites that row and returns the note; failure leaves the table unchanged |
| Service.NoteService.DeleteNote | desafio-corporate-web-backend/src/service/note.service.ts:16-25 | NotFound exactly when no row has the title, with the table unchanged; otherwise exactly that row is removed and every other title still finds its note |
| Service.NoteService.CreateNote | desafio-corporate-web-backend/src/service/note.service.ts:27-40 | Conflict exactly when the title is taken, with the store untouched; otherwise one row with the next id is appended and the title then finds it |
| Service.NoteService.SearchTitleList | desafio-corporate-web-backend/src/service/note.service.ts:42-47 | the result is exactly the rows whose title contains the fragment, ignoring case, and may be empty |
| Service.NoteService.GetNoteContent | desafio-corporate-web-backend/src/service/note.service.ts:49-56 | the row with exactly that title, or NotFound exactly when there is none; the table is not changed |
| Service.NoteService.UpdateNote | desafio-corporate-web-backend/src/service/note.service.ts:58-76 | NotFound exactly when the old title is absent; otherwise success exactly when the new title is free, and the found row, with its id kept, gets the new title and content; any failure leaves the table unchanged; after success the new title finds the note and the old one nothing |
| Dto.ValidateUpsert | desafio-corporate-web-backend/src/controller/dto/note-upsert.dto.ts:15-30 | a body passes exactly when its title has 1 to 80 characters and its content 1 to 480, untrimmed |
| Dto.ValidateTitle | desafio-corporate-web-backend/src/controller/dto/note-title.dto.ts:14-19 | a title passes exactly when it is a string of 1 to 30 characters |
| Dto.EmptyTitleRefused | desafio-corporate-web-frontend/src/services/notesApi.ts:55-58 | the empty search that the client sends to mean "all notes" is refused |
| Dto.BlankBodyAccepted | desafio-corporate-web-backend/src/controller/dto/note-upsert.dto.ts:16-17 | whitespace-only title and content pass the body checks |
| Dto.LongTitlesUnaddressable | desafio-corporate-web-backend/src/controller/dto/note-title.dto.ts:14-15 | a body title longer than 30 characters can never be used as a path or query title |
| Dto.AddressableTitlesAreStorable | desafio-corporate-web-backend/src/controller/dto/note-upsert.dto.ts:16-17 | every valid path or query title is also a valid body title |
| Controller.ListAnswer | desafio-corporate-web-backend/src/controller/note.controller.ts:41-56 | a query that fails the 1-to-30-character title check answers 400; any other query gets the list answer of the case-insensitive search |
| Controller.ContentAnswer | desafio-corporate-web-backend/src/controller/note.controller.ts:58-66 | a title that fails the 1-to-30-character check answers 400; a valid title no row has answers 404; otherwise 200 with the title and content of a row with exactly that title |
| Controller.ToRead | desafio-corporate-web-backend/src/controller/dto/note-read.dto.ts:4-12 | the public shape of a note carries its title and content, and no id |
| Controller.ToTitles | desafio-corporate-web-backend/src/controller/note.controller.ts:55 | one title-only entry per note, in order |
| Controller.FailureStatus | desafio-corporate-web-backend/src/filter/http-exception.filter.ts:18-34 | a service conflict answers 409 and only it, a missing note 404 and only it, and an error the store raises 500, as the generic filter at generic-exception.filter.ts line 30 does |
| Controller.ListReply | desafio-corporate-web-backend/src/controller/note.controller.ts:49-55 | an empty search answers 204 and maps nothing; otherwise 200 with one title-only entry per note, in the same order |
| Controller.NoteController.CreateNote | desafio-corporate-web-backend/src/controller/note.controller.ts:28-39 | an invalid body answers 400 and a taken title 409, both with the store untouched; otherwise 201 with the created title and content, and the row appended |
| Controller.NoteController.ReadNoteListByTitle | desafio-corporate-web-backend/src/controller/note.controller.ts:41-56 | an invalid query answers 400; otherwise the list answer of the case-insensitive search; a present query gets exactly `ListAnswer` on the current table |
| Controller.NoteController.ReadNoteContent | desafio-corporate-web-backend/src/controller/note.controller.ts:58-66 | an invalid title answers 400; an absent title 404; otherwise 200 with that note's title and content; a present title gets exactly `ContentAnswer` on the current table |
| Controller.NoteController.UpdateNote | desafio-corporate-web-backend/test/controller/note.controller.spec.ts:182-217 | 400 for an invalid body or old title, 404 for an absent old title, 500 when the new title belongs to another note, each with the table unchanged; otherwise 200 with the new title and content, and the row renamed by id |
| Controller.NoteController.DeleteNote | desafio-corporate-web-backend/src/controller/note.controller.ts:89-92 | an invalid title answers 400, an absent one 404 with nothing removed; otherwise 200 with no body and exactly that note removed |
| Client.ReplaceByTitle | desafio-corporate-web-frontend/src/App.tsx:158-160 | every entry with the old title becomes the updated note; length, order and all other entries stay |
| Client.RemoveByTitle | desafio-corporate-web-frontend/src/App.tsx:188 | an entry survives exactly when its title is not the deleted one |
| Client.RemoveByTitleSplits | desafio-corporate-web-frontend/src/App.tsx:188 | the delete patch of two lists laid end to end is the patch of the first followed by the patch of the second, so survivors keep their order and number |
| Client.RemoveByTitleCons | desafio-corporate-web-frontend/src/App.tsx:188 | an entry put in front survives in front exactly when its title is not the deleted one |
| Client.RemoveByTitleSingle | desafio-corporate-web-frontend/src/App.tsx:188 | a list of one entry keeps it exactly when its title is not the deleted one |
| Client.ReplaceByTitleIdempotent | desafio-corporate-web-frontend/src/App.tsx:158-160 | applying the same update patch twice is applying it once |
| Client.RemoveByTitleAbsent | desafio-corporate-web-frontend/src/App.tsx:188 | removing a title no entry has leaves the list as it is |
| Client.Hydrate | desafio-corporate-web-frontend/src/App.tsx:255-258 | the join succeeds exactly when every content fetch succeeds, and then holds their bodies in order; otherwise it carries the status of a failed fetch |
| Client.GetAllNotes | desafio-corporate-web-frontend/src/services/notesApi.ts:55-72 | loading every note: a failed empty search other than 204 passes its status on; no match, a 204 from the search, or a 204 from the joined content fetches is the empty list; otherwise the join of the fetches is passed on |
| Client.Submission | desafio-corporate-web-frontend/src/App.tsx:108-119 | the form is held back exactly when a field is all whitespace; a sent form is the trimmed form, with non-empty fields that do not begin or end with whitespace |
| Client.NotesApp.constructor | desafio-corporate-web-frontend/src/App.tsx:56-99 | the page starts with an empty form and search and nothing selected, and its list and banner are what the mount-time load gives: the loaded notes with no error, or an empty list with the load error |
| Client.NotesApp.FetchNotes | desafio-corporate-web-frontend/src/App.tsx:78-94 | the empty search is sent; the list becomes the loaded notes with the error cleared, or is emptied with the load error; nothing else changes |
| Client.NotesApp.ChangeTitle | desafio-corporate-web-frontend/src/App.tsx:276-278 | only the form's title changes |
| Client.NotesApp.ChangeContent | desafio-corporate-web-frontend/src/App.tsx:280-282 | only the form's content changes |
| Client.NotesApp.ChangeSearchTerm | desafio-corporate-web-frontend/src/App.tsx:101-105 | the term becomes the new value; when it changed and is blank, the page reloads every note, with the effect of `FetchNotes`; otherwise nothing else changes and nothing is sent |
| Client.NotesApp.HandleCreateNote | desafio-corporate-web-frontend/src/App.tsx:107-138 | a form with a blank field sends nothing and changes nothing but the error; otherwise the trimmed pair is sent; success appends the returned note and clears the form; failure keeps list and form and reports 409 apart from other errors |
| Client.NotesApp.CreateWith | desafio-corporate-web-frontend/src/App.tsx:108-137 | the create handler after trimming: a held-back form sets the error and changes nothing else; a sent form is the request, and the answer appends or reports as above |
| Client.NotesApp.HandleUpdateNote | desafio-corporate-web-frontend/src/App.tsx:140-181 | a blank field or no selected note sends nothing; otherwise the selected note's title and the trimmed pair are sent; success replaces the entries with the old title, and the viewed note when it is that one, and ends the edit; failure keeps everything and reports 404 apart from other errors |
| Client.NotesApp.UpdateWith | desafio-corporate-web-frontend/src/App.tsx:141-180 | the update handler after trimming: the two guards in the source's order, the request with the selected note's title, and the answer's effect as above |
| Client.NotesApp.HandleDeleteNote | desafio-corporate-web-frontend/src/App.tsx:183-206 | success removes every entry with the title and closes the view of it; failure keeps the list and reports 404 apart from other errors |
| Client.NotesApp.HandleSearch | desafio-corporate-web-frontend/src/App.tsx:244-274 | a blank term sends nothing and changes nothing; otherwise the untrimmed term is sent; matches replace the list with the fetched notes, no match or a 204 empties it, and any other failure keeps it and shows an error |
| Client.NotesApp.OpenEditDialog | desafio-corporate-web-frontend/src/App.tsx:208-225 | the note is selected and the form holds its fetched contents, or the note itself with an error when the fetch fails |
| Client.NotesApp.OpenViewDialog | desafio-corporate-web-frontend/src/App.tsx:227-242 | the viewed note is the fetched one, or the note itself with an error when the fetch fails |
| Sync.Mirror | desafio-corporate-web-backend/src/controller/dto/note-read.dto.ts:4-12 | the public view has one entry per row, each that row's title and content, in order |
| Sync.CreatePatchMirrors | desafio-corporate-web-frontend/src/App.tsx:120 | appending the created note to the view of a table is the view of the table with the row appended |
| Sync.DeletePatchMirrors | desafio-corporate-web-frontend/src/App.tsx:188 | filtering the title out of the view is the view of the table after the delete |
| Sync.UpdatePatchMirrors | desafio-corporate-web-frontend/src/App.tsx:158-160 | replacing by old title in the view is the view of the table after the save by id, given unique titles and ids |
| Sync.PatchAgrees | desafio-corporate-web-frontend/src/App.tsx:158-160 | replacing by title in the view and replacing by id in the table give the same view whenever exactly the rows with that title carry that id |
| Sync.HydrateMirrors | desafio-corporate-web-frontend/src/App.tsx:255-259 | fetching the content of each listed row of a table with unique titles, every title 1 to 30 characters long, yields the view of exactly those rows |
| Sync.SearchMirrors | desafio-corporate-web-frontend/src/App.tsx:251-259 | after a search whose every match has a title of 1 to 30 characters, the client shows the view of exactly the matching rows, in the model's table order |
| Sync.LongMatchFailsHydrate | desafio-corporate-web-frontend/src/App.tsx:255-258 | when one listed row has a title longer than 30 characters, its content fetch answers 400 and the joined fetch fails with 400 |
| Sync.LongMatchFailsSearch | desafio-corporate-web-frontend/src/App.tsx:255-269 | a search that matches a note with a title longer than 30 characters fails with 400, so the client keeps its list and shows the search error |
| Sync.LoadAllRefused | desafio-corporate-web-frontend/src/services/notesApi.ts:54-58 | for every table, the load's empty search answers 400 and so does the whole load |
| Sync.LoadAllComposes | desafio-corporate-web-frontend/src/services/notesApi.ts:55-72 | were the empty search answered with every row, the load would give the view of the whole table, for unique titles of 1 to 30 characters |
| Scenario.ShopMatchesShoppingList | desafio-corporate-web-backend/src/repository/note.repository.ts:15-18 | the fragment "shop" occurs in "Shopping List" once case is ignored |
| Scenario.OpenPage | desafio-corporate-web-frontend/src/App.tsx:97-99 | the page opened against an empty store shows an empty list and the load error, because the load's empty search is refused |
| Scenario.ShoppingListScenario | desafio-corporate-web-backend/src/controller/note.controller.ts:28-92 | from an empty store: create 201, duplicate 409, search "shop" 200 with the one title, rename 200, old title 404, new title 200 with the new content, delete 200, delete again 404 |

## Left out

- HTTP and axios are not modelled. Requests are method results and answers are
  parameters. The client's API proxy (`notesApi.ts`) is reduced to what each call
  sends and what its answer does. A 204 that axios resolves as an empty success
  and a 204 carried as an answer status both empty the list, so the two are not
  told apart.
- Dependency injection, the automapper profiles, Swagger, CORS and the bootstrap
  are not modelled. The mapping is written out as explicit projections to
  `{title}` and `{title, content}`.
- The exception filters are modelled only by their status rule. Logging, the
  `Date` timestamps and the JSON error body are not.
- The database-managed `creationDate` and `lastModDate` are omitted. So is an
  unreachable database.
- Concurrency is not modelled. The check-then-act race of create and update is
  absent because the model is sequential. `Promise.all` is joined in order, and
  the first failure wins.
- Client.Hydrate: when several content fetches fail, the model gives the status
  of the first one; `Promise.all` reports whichever rejects first in time.
- Text.ContainsIgnoringCase folds ASCII letters only. The database's collation
  for other letters is not visible.
- Dto.ValidateUpsert and Dto.ValidateTitle count characters as sequence
  elements. validator.js counts surrogate pairs and variation selectors in its
  own way.
- The success banner, the timer that clears messages, the loading flag, the
  dialog-open flags and the JSX rendering are not modelled.
- Client.NotesApp.constructor: on mount both effects run, so `fetchNotes` runs
  twice. The model runs one load. A load's effect does not depend on the state
  before it, so a second load with the same answers changes nothing more.
- Row order is a modelling choice. `findMany` has no `orderBy`
  (`repository/note.repository.ts`, lines 13-20), so the database's order is
  unspecified, and an updated row may move. The model keeps insertion order, and
  `Replaced` keeps a row at its position. "Table order" in the search lemmas means
  this order.
- The unused validators (`note-create.dto.ts` and both `note-id.dto.ts`) are not
  modelled. No handler uses them.
