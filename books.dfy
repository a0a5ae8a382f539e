/**
 * The book record, the form the create command reads it from, and the two
 * collection rules that do not touch storage: building a record from the
 * submitted form and filtering a record out by identifier.
 */
module Books {
  import opened Wrappers
  import opened Text

  /**
   * One stored book. An optional field is `None` when the stored object has
   * no such property. `createdAt` is the creation time in milliseconds.
   */
  datatype Book = Book(
    id: string,
    title: string,
    author: Option<string>,
    year: Option<int>,
    isbn: Option<string>,
    description: Option<string>,
    createdAt: int)

  /** The five text fields of the submitted form; a field the form lacks reads as "". */
  datatype BookForm = BookForm(
    title: string,
    author: string,
    year: string,
    isbn: string,
    description: string)

  /** `text || undefined`: the empty string becomes an absent field. */
  function Optional(text: string): (r: Option<string>)
    ensures r.None? <==> text == []
    ensures r.Some? ==> r.value == text
  {
    if text == [] then None else Some(text)
  }

  /**
   * The record the create command stores for `form`, or `None` when the
   * trimmed title is empty. The text fields are trimmed; an optional one is
   * present exactly when its trimmed text is not empty. The year is absent
   * when its trimmed text is empty or `parseYear` finds no finite number in
   * it, and is the parsed number otherwise.
   */
  function BuildBook(form: BookForm, id: string, createdAt: int, parseYear: string -> Option<int>): (r: Option<Book>)
    ensures r.None? <==> AllWhitespace(form.title)
    ensures r.Some? ==> r.value.id == id && r.value.createdAt == createdAt
    ensures r.Some? ==> r.value.title == Trim(form.title) && r.value.title != []
    ensures r.Some? ==> (r.value.author.Some? <==> !AllWhitespace(form.author))
    ensures r.Some? && r.value.author.Some? ==> r.value.author.value == Trim(form.author)
    ensures r.Some? ==> (r.value.isbn.Some? <==> !AllWhitespace(form.isbn))
    ensures r.Some? && r.value.isbn.Some? ==> r.value.isbn.value == Trim(form.isbn)
    ensures r.Some? ==> (r.value.description.Some? <==> !AllWhitespace(form.description))
    ensures r.Some? && r.value.description.Some? ==> r.value.description.value == Trim(form.description)
    ensures r.Some? ==> (r.value.year.Some? <==> !AllWhitespace(form.year) && parseYear(Trim(form.year)).Some?)
    ensures r.Some? && r.value.year.Some? ==> parseYear(Trim(form.year)) == r.value.year
  {
    var title := Trim(form.title);
    var yearText := Trim(form.year);
    if title == [] then None
    else
      Some(Book(
        id, title, Optional(Trim(form.author)),
        if yearText == [] then None else parseYear(yearText),
        Optional(Trim(form.isbn)), Optional(Trim(form.description)),
        createdAt))
  }

  /**
   * What every record the create command builds satisfies: a non-empty
   * trimmed title, and optional text fields that are present only when
   * non-empty and carry no surrounding white space.
   */
  predicate WellFormed(b: Book)
  {
    b.title != [] && Trim(b.title) == b.title &&
    (b.author.Some? ==> b.author.value != [] && Trim(b.author.value) == b.author.value) &&
    (b.isbn.Some? ==> b.isbn.value != [] && Trim(b.isbn.value) == b.isbn.value) &&
    (b.description.Some? ==> b.description.value != [] && Trim(b.description.value) == b.description.value)
  }

  /** What the create command stores is well formed. */
  lemma BuildBookWellFormed(form: BookForm, id: string, createdAt: int, parseYear: string -> Option<int>)
    requires BuildBook(form, id, createdAt, parseYear).Some?
    ensures WellFormed(BuildBook(form, id, createdAt, parseYear).value)
  {
    TrimIdempotent(form.title);
    TrimIdempotent(form.author);
    TrimIdempotent(form.isbn);
    TrimIdempotent(form.description);
  }

  /** Every record of the collection has a non-empty title. */
  predicate AllTitled(books: seq<Book>)
  {
    forall k :: 0 <= k < |books| ==> books[k].title != []
  }

  /** No two records of the collection share an identifier. */
  predicate UniqueIds(books: seq<Book>)
  {
    forall i, j :: 0 <= i < j < |books| ==> books[i].id != books[j].id
  }

  /** Some record of the collection has identifier `id`. */
  predicate HasId(books: seq<Book>, id: string)
  {
    exists k :: 0 <= k < |books| && books[k].id == id
  }

  /**
   * `books.filter(b => b.id !== id)`: no record with identifier `id` is
   * left, and the collection is returned as it is when no record has it.
   */
  function Without(books: seq<Book>, id: string): (r: seq<Book>)
    ensures |r| <= |books|
    ensures forall k :: 0 <= k < |r| ==> r[k].id != id
    ensures !HasId(books, id) ==> r == books
  {
    if books == [] then []
    else if books[0].id == id then Without(books[1..], id)
    else [books[0]] + Without(books[1..], id)
  }

  /**
   * The records kept are those with another identifier, each as often as it
   * occurs in `books`.
   */
  lemma {:induction false} WithoutCounts(books: seq<Book>, id: string, b: Book)
    ensures multiset(Without(books, id))[b] == if b.id == id then 0 else multiset(books)[b]
    decreases |books|
  {
    if books != [] {
      assert books == [books[0]] + books[1..];
      WithoutCounts(books[1..], id, b);
    }
  }

  /** Filtering keeps the order: it distributes over concatenation. */
  lemma {:induction false} WithoutAppend(a: seq<Book>, b: seq<Book>, id: string)
    ensures Without(a + b, id) == Without(a, id) + Without(b, id)
    decreases |a|
  {
    if a != [] {
      assert (a + b)[1..] == a[1..] + b;
      WithoutAppend(a[1..], b, id);
    } else {
      assert a + b == b;
    }
  }

  /** A singleton is kept exactly when its identifier differs. */
  lemma WithoutSingleton(b: Book, id: string)
    ensures Without([b], id) == if b.id == id then [] else [b]
  {
    assert [b][1..] == [];
  }

  /**
   * With unique identifiers, deleting an identifier that is present removes
   * exactly the one record that has it: the collection shrinks by one and
   * the records around it stay in order.
   */
  lemma DeleteRemovesOne(books: seq<Book>, k: nat)
    requires UniqueIds(books) && k < |books|
    ensures Without(books, books[k].id) == books[..k] + books[k + 1..]
    ensures |Without(books, books[k].id)| == |books| - 1
  {
    var id := books[k].id;
    var pre, post := books[..k], books[k + 1..];
    OnlyHolder(books, k);
    assert books == (pre + [books[k]]) + post;
    WithoutAppend(pre + [books[k]], post, id);
    WithoutAppend(pre, [books[k]], id);
    WithoutSingleton(books[k], id);
    assert Without(books, id) == pre + [] + post;
  }

  /** With unique identifiers, the record at `k` is the only one with its identifier. */
  lemma OnlyHolder(books: seq<Book>, k: nat)
    requires UniqueIds(books) && k < |books|
    ensures !HasId(books[..k], books[k].id) && !HasId(books[k + 1..], books[k].id)
  {
    var pre, post := books[..k], books[k + 1..];
    forall i | 0 <= i < |pre| ensures pre[i].id != books[k].id {
      assert pre[i] == books[i];
    }
    forall i | 0 <= i < |post| ensures post[i].id != books[k].id {
      assert post[i] == books[k + 1 + i];
    }
  }

  /** Deleting keeps every remaining title non-empty and identifiers unique. */
  lemma WithoutPreservesInvariants(books: seq<Book>, id: string)
    requires AllTitled(books) && UniqueIds(books)
    ensures AllTitled(Without(books, id)) && UniqueIds(Without(books, id))
  {
    WithoutKeepsTitles(books, id);
    WithoutKeepsUniqueIds(books, id);
  }

  lemma {:induction false} WithoutKeepsTitles(books: seq<Book>, id: string)
    requires AllTitled(books)
    ensures AllTitled(Without(books, id))
    decreases |books|
  {
    if books != [] {
      var tail := books[1..];
      assert forall k :: 0 <= k < |tail| ==> tail[k] == books[k + 1];
      WithoutKeepsTitles(tail, id);
    }
  }

  /** Every record the filter keeps comes from the input. */
  lemma WithoutKeepsFrom(books: seq<Book>, id: string, j: nat)
    requires j < |Without(books, id)|
    ensures exists i :: 0 <= i < |books| && books[i] == Without(books, id)[j]
  {
    var r := Without(books, id);
    WithoutCounts(books, id, r[j]);
    assert r[j] in multiset(r);
  }

  lemma {:induction false} WithoutKeepsUniqueIds(books: seq<Book>, id: string)
    requires UniqueIds(books)
    ensures UniqueIds(Without(books, id))
    decreases |books|
  {
    if books != [] {
      var tail := books[1..];
      assert UniqueIds(tail) by {
        forall i, j | 0 <= i < j < |tail| ensures tail[i].id != tail[j].id {
          assert tail[i] == books[i + 1] && tail[j] == books[j + 1];
        }
      }
      WithoutKeepsUniqueIds(tail, id);
      var rest := Without(tail, id);
      if books[0].id != id {
        forall j | 0 <= j < |rest| ensures rest[j].id != books[0].id {
          WithoutKeepsFrom(tail, id, j);
          var i :| 0 <= i < |tail| && tail[i] == rest[j];
          assert books[1 + i] == rest[j];
        }
        var r := [books[0]] + rest;
        forall i, j | 0 <= i < j < |r| ensures r[i].id != r[j].id {
          if i > 0 { assert r[i] == rest[i - 1]; }
          assert r[j] == rest[j - 1];
        }
      }
    }
  }

  /**
   * Prepending a well-formed record whose identifier is new keeps every
   * title non-empty and identifiers unique.
   */
  lemma PrependPreservesInvariants(b: Book, books: seq<Book>)
    requires WellFormed(b) && !HasId(books, b.id)
    requires AllTitled(books) && UniqueIds(books)
    ensures AllTitled([b] + books) && UniqueIds([b] + books)
  {
    var r := [b] + books;
    forall i, j | 0 <= i < j < |r| ensures r[i].id != r[j].id {
      if i == 0 {
        assert r[j] == books[j - 1];
      } else {
        assert r[i] == books[i - 1] && r[j] == books[j - 1];
      }
    }
  }
}
