/**
 * The three commands that change the collection: create (form submission),
 * delete-one (a record's delete button) and clear-all. Delete-one loads the
 * collection fresh from the store, filters it and saves it. Create rejects a
 * blank title without loading or saving, and otherwise saves the loaded
 * collection with the new record prepended. Clear-all saves the empty
 * collection only after a confirmed prompt on a non-empty one. Each reports
 * the notification it shows, if any.
 */
module Commands {
  import opened Wrappers
  import opened Text
  import opened Books
  import opened Storage

  /** The notifications the commands show. */
  datatype Toast = TitleRequired | BookCreated | BookDeleted | AllBooksCleared

  function Message(t: Toast): string
  {
    match t
    case TitleRequired => "Title is required"
    case BookCreated => "Book created"
    case BookDeleted => "Book deleted"
    case AllBooksCleared => "All books cleared"
  }

  /**
   * The submit handler. `id` and `createdAt` stand for the generated
   * identifier and the clock reading; `parseYear` for `Number` followed by
   * the `isFinite` test. A blank title aborts without writing; otherwise the
   * new record is prepended to the freshly loaded collection and saved.
   */
  method Create(store: Store, form: BookForm, id: string, createdAt: int, parseYear: string -> Option<int>)
    returns (toast: Toast)
    modifies store
    ensures AllWhitespace(form.title) ==> toast == TitleRequired && store.slot == old(store.slot)
    ensures Message(toast) == if AllWhitespace(form.title) then "Title is required" else "Book created"
    ensures !AllWhitespace(form.title) ==>
      toast == BookCreated &&
      store.slot == Written([BuildBook(form, id, createdAt, parseYear).value] + old(store.Contents()))
    ensures !AllWhitespace(form.title) ==>
      |store.Contents()| == |old(store.Contents())| + 1 &&
      store.Contents()[0] == BuildBook(form, id, createdAt, parseYear).value &&
      store.Contents()[1..] == old(store.Contents())
    ensures old(AllTitled(store.Contents()) && UniqueIds(store.Contents()) && !HasId(store.Contents(), id)) ==>
      AllTitled(store.Contents()) && UniqueIds(store.Contents())
  {
    var title := Trim(form.title);
    var author := Trim(form.author);
    var yearText := Trim(form.year);
    var isbn := Trim(form.isbn);
    var description := Trim(form.description);
    if title == [] {
      toast := TitleRequired;
      return;
    }
    var year := if yearText == [] then None else parseYear(yearText);
    var book := Book(id, title, Optional(author), year, Optional(isbn), Optional(description), createdAt);
    assert book == BuildBook(form, id, createdAt, parseYear).value;
    var books := store.LoadBooks();
    if AllTitled(books) && UniqueIds(books) && !HasId(books, id) {
      BuildBookWellFormed(form, id, createdAt, parseYear);
      PrependPreservesInvariants(book, books);
    }
    books := [book] + books;
    store.SaveBooks(books);
    toast := BookCreated;
  }

  /**
   * A record's delete button: saves the freshly loaded collection without
   * every record whose identifier is `id`. No match is not an error: the
   * collection is saved as loaded.
   */
  method DeleteOne(store: Store, id: string) returns (toast: Toast)
    modifies store
    ensures store.slot == Written(Without(old(store.Contents()), id))
    ensures toast == BookDeleted && Message(toast) == "Book deleted"
    ensures !HasId(store.Contents(), id)
    ensures !HasId(old(store.Contents()), id) ==> store.Contents() == old(store.Contents())
    ensures old(AllTitled(store.Contents()) && UniqueIds(store.Contents())) ==>
      AllTitled(store.Contents()) && UniqueIds(store.Contents())
  {
    var books := store.LoadBooks();
    var next := Without(books, id);
    if AllTitled(books) && UniqueIds(books) {
      WithoutPreservesInvariants(books, id);
    }
    store.SaveBooks(next);
    toast := BookDeleted;
  }

  /**
   * The clear-all button. An empty collection returns at once: no prompt,
   * no write, no notification. Otherwise the user is asked; `confirmed` is
   * the answer. A declined prompt writes nothing; a confirmed one saves the
   * empty collection.
   */
  method ClearAll(store: Store, confirmed: bool) returns (asked: bool, toast: Option<Toast>)
    modifies store
    ensures asked <==> old(store.Contents()) != []
    ensures !asked ==> store.slot == old(store.slot) && toast == None
    ensures asked && !confirmed ==> store.slot == old(store.slot) && toast == None
    ensures asked && confirmed ==> store.slot == Written([]) && toast == Some(AllBooksCleared)
    ensures toast.Some? ==> Message(toast.value) == "All books cleared"
    ensures confirmed ==> store.Contents() == []
  {
    var books := store.LoadBooks();
    if books == [] {
      return false, None;
    }
    asked := true;
    if !confirmed {
      return asked, None;
    }
    store.SaveBooks([]);
    toast := Some(AllBooksCleared);
  }

  /**
   * The walk-through of the record lifecycle: create "Dune", create
   * "Foundation" published 1951, delete "Dune", clear all with confirmation,
   * starting from an empty slot.
   */
  method Lifecycle(parseYear: string -> Option<int>, duneId: string, foundationId: string, t1: int, t2: int)
    returns (afterCreates: seq<Book>, afterDelete: seq<Book>, afterClear: seq<Book>)
    requires parseYear("1951") == Some(1951)
    requires duneId != foundationId
    ensures afterCreates == [
      Book(foundationId, "Foundation", None, Some(1951), None, None, t2),
      Book(duneId, "Dune", None, None, None, None, t1)]
    ensures afterDelete == [Book(foundationId, "Foundation", None, Some(1951), None, None, t2)]
    ensures afterClear == []
  {
    var store := new Store(Missing);
    TrimExamples();
    var toast := Create(store, BookForm("Dune", "", "", "", ""), duneId, t1, parseYear);
    toast := Create(store, BookForm("Foundation", "", "1951", "", ""), foundationId, t2, parseYear);
    afterCreates := store.LoadBooks();
    toast := DeleteOne(store, duneId);
    afterDelete := store.LoadBooks();
    var asked, cleared := ClearAll(store, true);
    afterClear := store.LoadBooks();
  }

  lemma TrimExamples()
    ensures Trim("Dune") == "Dune" && Trim("Foundation") == "Foundation"
    ensures Trim("1951") == "1951" && Trim("") == ""
    ensures !AllWhitespace("Dune") && !AllWhitespace("Foundation") && AllWhitespace("")
  {
    TrimOfTrimmed("Dune");
    TrimOfTrimmed("Foundation");
    TrimOfTrimmed("1951");
  }
}
