/**
 * The one persisted slot (the local-storage key `books.v1`) that holds the
 * whole collection, and the store object that reads and overwrites it.
 */
module Storage {
  import opened Books

  /** The storage key under which the collection is kept. */
  const StorageKey: string := "books.v1"

  /**
   * What the slot holds. `Missing` is a slot that was never written or holds
   * the empty string; `Unparseable` is text that JSON parsing rejects;
   * `Written(books)` is the serialization of `books`, which parses back to
   * exactly those records.
   */
  datatype Slot = Missing | Unparseable | Written(books: seq<Book>)

  /** The collection a read of `slot` yields: the stored records, and none otherwise. */
  function Decode(slot: Slot): seq<Book>
  {
    match slot
    case Written(books) => books
    case _ => []
  }

  class Store {
    var slot: Slot

    constructor (initial: Slot)
      ensures slot == initial
    {
      slot := initial;
    }

    /** The collection a load would return now. */
    function Contents(): seq<Book>
      reads this
    {
      Decode(slot)
    }

    /**
     * `loadBooks`: never fails; a missing or unparseable slot reads as the
     * empty collection, a written one as what was written.
     */
    method LoadBooks() returns (books: seq<Book>)
      ensures books == Contents()
      ensures slot.Written? ==> books == slot.books
      ensures !slot.Written? ==> books == []
    {
      match slot {
        case Missing => books := [];
        case Unparseable => books := [];
        case Written(stored) => books := stored;
      }
    }

    /** `saveBooks`: overwrites the slot with `books`, which a later load returns. */
    method SaveBooks(books: seq<Book>)
      modifies this
      ensures slot == Written(books)
      ensures Contents() == books
    {
      slot := Written(books);
    }
  }

  /**
   * Saving what was loaded changes nothing a later load can see, and leaves
   * a written slot exactly as it was; only a missing or unparseable slot is
   * replaced, by the empty collection it already read as.
   */
  lemma SaveOfLoad(slot: Slot)
    ensures Decode(Written(Decode(slot))) == Decode(slot)
    ensures slot.Written? <==> Written(Decode(slot)) == slot
    ensures !slot.Written? ==> Written(Decode(slot)) == Written([])
  {
  }
}
