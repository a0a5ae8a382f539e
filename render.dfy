/**
 * What the renderer derives from the collection: the empty-state indicator,
 * or one item per record, in collection order, with its title, its meta
 * line, its description line and the identifier its delete button removes.
 * The page elements themselves are not modelled.
 */
module Render {
  import opened Wrappers
  import opened Decimal
  import opened Books
  import opened Storage

  /** The separator the meta line joins its parts with, as the page has it. */
  const Separator: string := " ? "

  /** JavaScript truthiness of an optional text field: present and not empty. */
  predicate Shown(text: Option<string>)
  {
    text.Some? && text.value != []
  }

  /** JavaScript truthiness of the optional year: present and not zero. */
  predicate YearShown(year: Option<int>)
  {
    year.Some? && year.value != 0
  }

  /**
   * The parts of a record's meta line: the author, the year in decimal and
   * the ISBN after a `#`, in that order, each only when shown.
   */
  function MetaParts(b: Book): (parts: seq<string>)
    ensures |parts| ==
      (if Shown(b.author) then 1 else 0) + (if YearShown(b.year) then 1 else 0) + (if Shown(b.isbn) then 1 else 0)
    ensures |parts| <= 3
    ensures parts != [] <==> Shown(b.author) || YearShown(b.year) || Shown(b.isbn)
    ensures forall k :: 0 <= k < |parts| ==> parts[k] != []
    ensures Shown(b.author) ==> parts[0] == b.author.value
    ensures YearShown(b.year) ==> parts[if Shown(b.author) then 1 else 0] == IntToDecimal(b.year.value)
    ensures Shown(b.isbn) ==> parts[|parts| - 1] == "#" + b.isbn.value
  {
    (if Shown(b.author) then [b.author.value] else []) +
    (if YearShown(b.year) then [IntToDecimal(b.year.value)] else []) +
    (if Shown(b.isbn) then ["#" + b.isbn.value] else [])
  }

  /** `parts.join(sep)`. */
  function Join(parts: seq<string>, sep: string): (r: string)
    ensures parts == [] ==> r == []
    ensures |parts| == 1 ==> r == parts[0]
    ensures parts != [] ==> |r| >= |parts[0]| && r[..|parts[0]|] == parts[0]
    decreases |parts|
  {
    if parts == [] then []
    else if |parts| == 1 then parts[0]
    else parts[0] + sep + Join(parts[1..], sep)
  }

  /** Joining two non-empty lists puts one separator between their joined lines. */
  lemma {:induction false} JoinAppend(a: seq<string>, b: seq<string>, sep: string)
    requires a != [] && b != []
    ensures Join(a + b, sep) == Join(a, sep) + sep + Join(b, sep)
    decreases |a|
  {
    assert (a + b)[0] == a[0];
    if |a| > 1 {
      assert (a + b)[1..] == a[1..] + b;
      JoinAppend(a[1..], b, sep);
    } else {
      assert (a + b)[1..] == b;
    }
  }

  /** The meta line of the record with every meta field shown. */
  lemma MetaLineOfFullRecord(b: Book)
    requires Shown(b.author) && YearShown(b.year) && Shown(b.isbn)
    ensures Join(MetaParts(b), Separator) ==
      b.author.value + Separator + IntToDecimal(b.year.value) + Separator + "#" + b.isbn.value
  {
    var parts := MetaParts(b);
    assert parts[1..][1..] == ["#" + b.isbn.value];
    assert Join(parts[1..], Separator) == IntToDecimal(b.year.value) + Separator + "#" + b.isbn.value;
  }

  /** One rendered list item. */
  datatype Item = Item(title: string, meta: Option<string>, description: Option<string>, deleteId: string)

  /** The rendered view: the empty-state indicator, or the list of items. */
  datatype View = EmptyState | Listing(items: seq<Item>)

  /**
   * The item for one record: the meta line is present exactly when some
   * meta part is, and is then a non-empty line that starts with the first
   * part; the description line is present exactly when the description is
   * shown.
   */
  function ItemOf(b: Book): (item: Item)
    ensures item.title == b.title && item.deleteId == b.id
    ensures item.meta.Some? <==> MetaParts(b) != []
    ensures item.meta.Some? ==> item.meta.value == Join(MetaParts(b), Separator)
    ensures item.meta.Some? ==> item.meta.value != [] && item.meta.value[..|MetaParts(b)[0]|] == MetaParts(b)[0]
    ensures item.description.Some? <==> Shown(b.description)
    ensures item.description.Some? ==> item.description.value == b.description.value
  {
    var parts := MetaParts(b);
    Item(
      b.title,
      if parts != [] then Some(Join(parts, Separator)) else None,
      if Shown(b.description) then Some(b.description.value) else None,
      b.id)
  }

  /**
   * `render`: loads the collection and shows the empty state exactly when it
   * is empty; otherwise one item per record, in order.
   */
  method Render(store: Store) returns (view: View)
    ensures view.EmptyState? <==> store.Contents() == []
    ensures view.Listing? ==>
      |view.items| == |store.Contents()| &&
      forall k :: 0 <= k < |view.items| ==> view.items[k] == ItemOf(store.Contents()[k])
  {
    var books := store.LoadBooks();
    if books == [] {
      return EmptyState;
    }
    var items: seq<Item> := [];
    for i := 0 to |books|
      invariant |items| == i
      invariant forall k :: 0 <= k < i ==> items[k] == ItemOf(books[k])
    {
      var book := books[i];
      var parts: seq<string> := [];
      if Shown(book.author) {
        parts := parts + [book.author.value];
      }
      if YearShown(book.year) {
        parts := parts + [IntToDecimal(book.year.value)];
      }
      if Shown(book.isbn) {
        parts := parts + ["#" + book.isbn.value];
      }
      assert parts == MetaParts(book);
      var meta := if |parts| > 0 then Some(Join(parts, Separator)) else None;
      var description := if Shown(book.description) then Some(book.description.value) else None;
      items := items + [Item(book.title, meta, description, book.id)];
    }
    view := Listing(items);
  }
}
