/** One walk through the note lifecycle, from an empty store, at the level
    of the HTTP handlers: create, a duplicate create, a search, a rename,
    reads under the old and the new title, and two deletes. Each stage
    starts from the table the previous one left. */
module Scenario {
  import opened Notes
  import opened Text
  import opened Repository
  import opened Service
  import opened Dto
  import opened Controller
  import opened Client

  const SHOPPING := Note(1, "Shopping List", "Milk, eggs")
  const GROCERIES := Note(1, "Groceries", "Milk, eggs, bread")

  method NewBackend() returns (c: NoteController)
    ensures fresh(c) && fresh(c.service) && fresh(c.service.repo)
    ensures c.Valid() && c.service.repo.rows == [] && c.service.repo.nextId == 1
  {
    var repo := new NoteRepository();
    var service := new NoteService(repo);
    c := new NoteController(service);
  }

  method CreateTwice(c: NoteController) returns (first: nat, second: nat)
    requires c.Valid() && c.service.repo.rows == [] && c.service.repo.nextId == 1
    modifies c.service.repo
    ensures c.Valid() && c.service.repo.rows == [SHOPPING]
    ensures first == CREATED && second == CONFLICT
  {
    var created := c.CreateNote(NoteUpsertDTO(Some("Shopping List"), Some("Milk, eggs")));
    var duplicate := c.CreateNote(NoteUpsertDTO(Some("Shopping List"), Some("anything")));
    first, second := created.status, duplicate.status;
  }

  /** The search of the walk: "shop" occurs in "Shopping List" once case is ignored. */
  lemma ShopMatchesShoppingList()
    ensures ContainsIgnoringCase("Shopping List", "shop")
  {
    var folded := Fold("Shopping List");
    assert Fold("shop") == "shop" by {
      assert Lower('s') == 's' && Lower('h') == 'h' && Lower('o') == 'o' && Lower('p') == 'p';
    }
    assert folded[..4] == "shop" by {
      assert Lower('S') == 's';
      assert folded[0] == 's' && folded[1] == 'h' && folded[2] == 'o' && folded[3] == 'p';
    }
    assert IsPrefix("shop", folded);
  }

  method SearchShop(c: NoteController) returns (found: Reply<seq<TitleItem>>)
    requires c.service.repo.rows == [SHOPPING]
    ensures found == Success(OK, [TitleItem("Shopping List")])
  {
    found := c.ReadNoteListByTitle(NoteTitleDTO(Some("shop")));
    ShopMatchesShoppingList();
    assert [SHOPPING][1..] == [];
    assert FindNotesByTitle([SHOPPING], "shop") == [SHOPPING];
    assert ToTitles([SHOPPING]) == [TitleItem("Shopping List")];
  }

  method Rename(c: NoteController) returns (status: nat)
    requires c.Valid() && c.service.repo.rows == [SHOPPING]
    modifies c.service.repo
    ensures c.Valid() && c.service.repo.rows == [GROCERIES]
    ensures status == OK
  {
    assert TitleFreeFor([SHOPPING], GROCERIES);
    var updated := c.UpdateNote(NoteUpsertDTO(Some("Groceries"), Some("Milk, eggs, bread")),
                                NoteTitleDTO(Some("Shopping List")));
    status := updated.status;
  }

  method ReadBoth(c: NoteController) returns (oldStatus: nat, read: Reply<NoteReadDTO>)
    requires c.service.repo.rows == [GROCERIES]
    ensures oldStatus == NOT_FOUND
    ensures read == Success(OK, NoteReadDTO("Groceries", "Milk, eggs, bread"))
  {
    assert |"Shopping List"| != |"Groceries"|;
    var oldRead := c.ReadNoteContent(NoteTitleDTO(Some("Shopping List")));
    read := c.ReadNoteContent(NoteTitleDTO(Some("Groceries")));
    oldStatus := oldRead.status;
  }

  method DeleteTwice(c: NoteController) returns (first: nat, second: nat)
    requires c.Valid() && c.service.repo.rows == [GROCERIES]
    modifies c.service.repo
    ensures first == OK && second == NOT_FOUND
  {
    var deleted := c.DeleteNote(NoteTitleDTO(Some("Groceries")));
    assert c.service.repo.rows == [];
    var deletedAgain := c.DeleteNote(NoteTitleDTO(Some("Groceries")));
    first, second := deleted.status, deletedAgain.status;
  }

  /** The whole walk, with the status of each of its eight requests. */
  method ShoppingListScenario() returns (statuses: seq<nat>, found: Reply<seq<TitleItem>>, read: Reply<NoteReadDTO>)
    ensures statuses == [CREATED, CONFLICT, OK, OK, NOT_FOUND, OK, OK, NOT_FOUND]
    ensures found == Success(OK, [TitleItem("Shopping List")])
    ensures read == Success(OK, NoteReadDTO("Groceries", "Milk, eggs, bread"))
  {
    var c := NewBackend();
    var created, duplicate := CreateTwice(c);
    found := SearchShop(c);
    var renamed := Rename(c);
    var oldRead;
    oldRead, read := ReadBoth(c);
    var deleted, deletedAgain := DeleteTwice(c);
    statuses := [created, duplicate, found.status, renamed, oldRead, read.status, deleted, deletedAgain];
  }

  /** Opening the page against an empty store: the load sends the empty
      search, which is refused with 400, so the page starts with an empty
      list and the load error. */
  method OpenPage() returns (app: NotesApp)
    ensures app.notes == [] && app.error == LoadFailed && app.searchTerm == ""
  {
    var c := NewBackend();
    var listing := c.ReadNoteListByTitle(NoteTitleDTO(Some("")));
    var rows := c.service.repo.rows;
    app := new NotesApp(listing, t => ContentAnswer(rows, t));
  }
}
