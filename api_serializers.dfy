/**
  The books/authors API's write path (advanced-api-project/api/serializers.py):
  the future-year rule on a book's publication year, and the nested Author
  writer that creates or replaces an author's books entry by entry through that
  same rule. The Author and Book tables are the fields of `Library`; the current
  year is a parameter instead of a clock read.
 */
module ApiSerializers {
  import opened Wrappers

  type AuthorId = nat
  type BookId = nat

  /** A stored Book row. */
  datatype Book = Book(id: BookId, title: string, publicationYear: int, author: AuthorId)

  /** One element of an author's nested `books` list; any `author` in it is overridden. */
  datatype BookEntry = BookEntry(title: string, publicationYear: int, author: Option<AuthorId>)

  /** What a book says apart from its identity and owner. */
  datatype BookFields = BookFields(title: string, publicationYear: int)

  /** A field-scoped validation error; `maxYear` is the year named in its message. */
  datatype ValidationError = ValidationError(field: string, maxYear: int)

  /** The error raised for a publication year later than `currentYear`. */
  function FutureYearError(currentYear: int): ValidationError {
    ValidationError("publication_year", currentYear)
  }

  /**
    `BookSerializer.validate_publication_year`: a year after the current one is
    rejected with an error keyed to `publication_year`; any other year is returned
    unchanged.
   */
  function ValidatePublicationYear(value: int, currentYear: int): (r: Result<int, ValidationError>)
    ensures r.Ok? <==> value <= currentYear
    ensures r.Ok? ==> r.value == value
    ensures r.Err? ==> r.error.field == "publication_year" && r.error.maxYear == currentYear
  {
    if value > currentYear then Err(FutureYearError(currentYear)) else Ok(value)
  }

  /** The index of the first entry the year rule rejects, or `|entries|` when it rejects none. */
  function FirstInvalid(entries: seq<BookEntry>, currentYear: int): (k: nat)
    ensures k <= |entries|
    ensures forall j :: 0 <= j < k ==> ValidatePublicationYear(entries[j].publicationYear, currentYear).Ok?
    ensures k < |entries| ==> ValidatePublicationYear(entries[k].publicationYear, currentYear).Err?
  {
    if entries == [] then 0
    else if ValidatePublicationYear(entries[0].publicationYear, currentYear).Err? then 0
    else 1 + FirstInvalid(entries[1..], currentYear)
  }

  /** The rows saved for `entries` with ids from `firstId` on, each owned by `author`. */
  function NewRows(entries: seq<BookEntry>, firstId: BookId, author: AuthorId): (r: seq<Book>)
    ensures |r| == |entries| && IdsIncreasing(r)
    ensures forall k :: 0 <= k < |r| ==> r[k].author == author && firstId <= r[k].id < firstId + |entries|
  {
    seq(|entries|, k requires 0 <= k < |entries| =>
      Book(firstId + k, entries[k].title, entries[k].publicationYear, author))
  }

  /** The fields of each entry, in order. */
  function EntryFields(entries: seq<BookEntry>): seq<BookFields> {
    seq(|entries|, k requires 0 <= k < |entries| =>
      BookFields(entries[k].title, entries[k].publicationYear))
  }

  /** The books owned by `author` in table order (the reverse relation `author.books`). */
  function BooksOf(rows: seq<Book>, author: AuthorId): seq<BookFields> {
    if rows == [] then []
    else
      (if rows[0].author == author then [BookFields(rows[0].title, rows[0].publicationYear)] else [])
      + BooksOf(rows[1..], author)
  }

  /** `Book.objects.filter(author=author).delete()`: the table without `author`'s rows. */
  function WithoutAuthor(rows: seq<Book>, author: AuthorId): (r: seq<Book>)
    ensures |r| <= |rows|
    ensures forall i :: 0 <= i < |r| ==> r[i].author != author
  {
    if rows == [] then []
    else (if rows[0].author == author then [] else [rows[0]]) + WithoutAuthor(rows[1..], author)
  }

  /** An author's books in a concatenation of tables are theirs in each part, in order. */
  lemma {:induction false} BooksOfConcat(x: seq<Book>, y: seq<Book>, author: AuthorId)
    ensures BooksOf(x + y, author) == BooksOf(x, author) + BooksOf(y, author)
  {
    if x != [] {
      assert (x + y)[0] == x[0] && (x + y)[1..] == x[1..] + y;
      BooksOfConcat(x[1..], y, author);
      var head := if x[0].author == author then [BookFields(x[0].title, x[0].publicationYear)] else [];
      calc {
        BooksOf(x + y, author);
        head + BooksOf(x[1..] + y, author);
        head + (BooksOf(x[1..], author) + BooksOf(y, author));
        (head + BooksOf(x[1..], author)) + BooksOf(y, author);
        BooksOf(x, author) + BooksOf(y, author);
      }
    } else {
      assert x + y == y;
    }
  }

  /** The rows saved for a list of entries belong to their author alone and carry the entries' fields. */
  lemma {:induction false} BooksOfNewRows(entries: seq<BookEntry>, firstId: BookId, owner: AuthorId, author: AuthorId)
    ensures BooksOf(NewRows(entries, firstId, owner), author) == if author == owner then EntryFields(entries) else []
  {
    if entries != [] {
      assert NewRows(entries, firstId, owner)[1..] == NewRows(entries[1..], firstId + 1, owner);
      BooksOfNewRows(entries[1..], firstId + 1, owner, author);
      assert EntryFields(entries) == [EntryFields(entries)[0]] + EntryFields(entries[1..]);
    }
  }

  /** Deleting an author's books leaves them none and every other author's books as they were. */
  lemma {:induction false} BooksOfWithoutAuthor(rows: seq<Book>, deleted: AuthorId, author: AuthorId)
    ensures BooksOf(WithoutAuthor(rows, deleted), author) == if author == deleted then [] else BooksOf(rows, author)
  {
    if rows != [] {
      BooksOfWithoutAuthor(rows[1..], deleted, author);
      BooksOfConcat(if rows[0].author == deleted then [] else [rows[0]], WithoutAuthor(rows[1..], deleted), author);
    }
  }

  /** Replacing an author's rows by new ones gives them exactly the new entries and leaves every other author's books alone. */
  lemma BooksOfReplaced(rows: seq<Book>, owner: AuthorId, entries: seq<BookEntry>, firstId: BookId, author: AuthorId)
    ensures BooksOf(WithoutAuthor(rows, owner) + NewRows(entries, firstId, owner), author)
            == if author == owner then EntryFields(entries) else BooksOf(rows, author)
  {
    BooksOfConcat(WithoutAuthor(rows, owner), NewRows(entries, firstId, owner), author);
    BooksOfNewRows(entries, firstId, owner, author);
    BooksOfWithoutAuthor(rows, owner, author);
  }

  /** An author owning no row has no books. */
  lemma {:induction false} BooksOfNone(rows: seq<Book>, author: AuthorId)
    requires forall i :: 0 <= i < |rows| ==> rows[i].author != author
    ensures BooksOf(rows, author) == []
  {
    if rows != [] {
      BooksOfNone(rows[1..], author);
    }
  }

  /** Book ids strictly increase along the table, so no id occurs twice. */
  ghost predicate IdsIncreasing(rows: seq<Book>) {
    forall i, j :: 0 <= i < j < |rows| ==> rows[i].id < rows[j].id
  }

  /** Deleting keeps exactly the rows of other authors. */
  lemma {:induction false} WithoutAuthorMembers(rows: seq<Book>, author: AuthorId)
    ensures forall b :: b in WithoutAuthor(rows, author) <==> b in rows && b.author != author
  {
    if rows != [] {
      WithoutAuthorMembers(rows[1..], author);
      assert rows == [rows[0]] + rows[1..];
    }
  }

  /** Deleting rows keeps every surviving id above any bound the table's ids were above. */
  lemma {:induction false} WithoutAuthorAbove(rows: seq<Book>, author: AuthorId, lo: int)
    requires forall i :: 0 <= i < |rows| ==> lo < rows[i].id
    ensures forall i :: 0 <= i < |WithoutAuthor(rows, author)| ==> lo < WithoutAuthor(rows, author)[i].id
  {
    if rows != [] {
      WithoutAuthorAbove(rows[1..], author, lo);
      var rest := WithoutAuthor(rows[1..], author);
      var r := WithoutAuthor(rows, author);
      if rows[0].author != author {
        assert r == [rows[0]] + rest;
        forall i | 0 <= i < |r| ensures lo < r[i].id {
          if i > 0 {
            assert r[i] == rest[i - 1];
          }
        }
      } else {
        assert r == rest;
      }
    }
  }

  /** Deleting keeps the surviving rows in their order, so their ids still increase. */
  lemma {:induction false} WithoutAuthorIncreasing(rows: seq<Book>, author: AuthorId)
    requires IdsIncreasing(rows)
    ensures IdsIncreasing(WithoutAuthor(rows, author))
  {
    if rows != [] {
      WithoutAuthorIncreasing(rows[1..], author);
      var rest := WithoutAuthor(rows[1..], author);
      if rows[0].author != author {
        WithoutAuthorAbove(rows[1..], author, rows[0].id);
        var r := [rows[0]] + rest;
        assert WithoutAuthor(rows, author) == r;
        forall i, j | 0 <= i < j < |r| ensures r[i].id < r[j].id {
          assert r[j] == rest[j - 1];
          if i > 0 {
            assert r[i] == rest[i - 1];
          }
        }
      } else {
        assert WithoutAuthor(rows, author) == rest;
      }
    }
  }

  /** The Author and Book tables. */
  class Library {
    var authors: map<AuthorId, string>
    var books: seq<Book>
    var nextAuthorId: nat
    var nextBookId: nat

    /** Ids are issued in increasing order, every book's author exists, and book ids are unique. */
    ghost predicate Valid()
      reads this
    {
      && (forall a :: a in authors ==> a < nextAuthorId)
      && (forall i :: 0 <= i < |books| ==> books[i].id < nextBookId && books[i].author in authors)
      && IdsIncreasing(books)
    }

    constructor ()
      ensures Valid()
      ensures authors == map[] && books == []
    {
      authors := map[];
      books := [];
      nextAuthorId := 0;
      nextBookId := 0;
    }

    /** `Book.objects.create(...)` / `serializer.save()`: one new row under the next id. */
    method InsertBook(title: string, publicationYear: int, author: AuthorId) returns (book: Book)
      requires Valid() && author in authors
      modifies this`books, this`nextBookId
      ensures Valid()
      ensures book == Book(old(nextBookId), title, publicationYear, author)
      ensures books == old(books) + [book] && nextBookId == old(nextBookId) + 1
    {
      book := Book(nextBookId, title, publicationYear, author);
      books := books + [book];
      nextBookId := nextBookId + 1;
    }

    /**
      The loop shared by `create` and `update`: each entry, in order, is validated
      with `author` injected and saved; the first rejected entry raises and stops
      the loop, and what was saved before it stays saved.
     */
    method SaveEntries(author: AuthorId, entries: seq<BookEntry>, currentYear: int) returns (failure: Option<ValidationError>)
      requires Valid() && author in authors
      modifies this`books, this`nextBookId
      ensures Valid()
      ensures var k := FirstInvalid(entries, currentYear);
              && books == old(books) + NewRows(entries[..k], old(nextBookId), author)
              && nextBookId == old(nextBookId) + k
              && (failure == if k == |entries| then None else Some(FutureYearError(currentYear)))
    {
      var i := 0;
      while i < |entries|
        invariant 0 <= i <= |entries|
        invariant forall j :: 0 <= j < i ==> entries[j].publicationYear <= currentYear
        invariant books == old(books) + NewRows(entries[..i], old(nextBookId), author)
        invariant nextBookId == old(nextBookId) + i
        invariant Valid()
      {
        var entry := entries[i];
        var year := ValidatePublicationYear(entry.publicationYear, currentYear);
        if year.Err? {
          return Some(year.error);
        }
        assert NewRows(entries[..i + 1], old(nextBookId), author)
            == NewRows(entries[..i], old(nextBookId), author) + [Book(nextBookId, entry.title, year.value, author)];
        var _ := InsertBook(entry.title, year.value, author);
        i := i + 1;
      }
      assert entries[..i] == entries;
      failure := None;
    }

    /**
      `AuthorSerializer.create`: store the author first, then save its books. There
      is no rollback: when entry `k` is rejected, the new author and the books of
      entries `0..k-1` stay stored.
     */
    method Create(name: string, bookEntries: Option<seq<BookEntry>>, currentYear: int) returns (r: Result<AuthorId, ValidationError>)
      requires Valid()
      modifies this
      ensures Valid()
      ensures var entries := bookEntries.GetOr([]);
              var k := FirstInvalid(entries, currentYear);
              var id := old(nextAuthorId);
              && id !in old(authors)
              && authors == old(authors)[id := name]
              && nextAuthorId == old(nextAuthorId) + 1
              && books == old(books) + NewRows(entries[..k], old(nextBookId), id)
              && nextBookId == old(nextBookId) + k
              && BooksOf(books, id) == EntryFields(entries[..k])
              && (forall a :: a != id ==> BooksOf(books, a) == BooksOf(old(books), a))
              && (r == if k == |entries| then Ok(id) else Err(FutureYearError(currentYear)))
    {
      var entries := bookEntries.GetOr([]);
      var id := nextAuthorId;
      authors := authors[id := name];
      nextAuthorId := nextAuthorId + 1;
      BooksOfNone(books, id);
      ghost var before := books;
      var failure := SaveEntries(id, entries, currentYear);
      r := if failure.None? then Ok(id) else Err(failure.value);
      ghost var k := FirstInvalid(entries, currentYear);
      forall a
        ensures BooksOf(books, a) == BooksOf(before, a) + if a == id then EntryFields(entries[..k]) else []
      {
        BooksOfConcat(before, NewRows(entries[..k], old(nextBookId), id), a);
        BooksOfNewRows(entries[..k], old(nextBookId), id, a);
      }
    }

    /**
      `AuthorSerializer.update`: overwrite the name when one is given (and save it);
      when a `books` key is present, delete all of the author's books and then save
      the new entries, so a rejected entry `k` leaves the author with none of the
      old books and only entries `0..k-1`. Other authors' books are never touched.
     */
    method Update(id: AuthorId, name: Option<string>, bookEntries: Option<seq<BookEntry>>, currentYear: int)
      returns (r: Result<AuthorId, ValidationError>)
      requires Valid() && id in authors
      modifies this
      ensures Valid()
      ensures authors == old(authors)[id := name.GetOr(old(authors)[id])]
      ensures nextAuthorId == old(nextAuthorId)
      ensures bookEntries.None? ==> books == old(books) && nextBookId == old(nextBookId) && r == Ok(id)
      ensures bookEntries.Some? ==>
              var entries := bookEntries.value;
              var k := FirstInvalid(entries, currentYear);
              && books == WithoutAuthor(old(books), id) + NewRows(entries[..k], old(nextBookId), id)
              && nextBookId == old(nextBookId) + k
              && BooksOf(books, id) == EntryFields(entries[..k])
              && (forall a :: a != id ==> BooksOf(books, a) == BooksOf(old(books), a))
              && (r == if k == |entries| then Ok(id) else Err(FutureYearError(currentYear)))
    {
      authors := authors[id := name.GetOr(authors[id])];
      r := Ok(id);
      if bookEntries.Some? {
        var entries := bookEntries.value;
        WithoutAuthorMembers(books, id);
        WithoutAuthorIncreasing(books, id);
        ghost var all := books;
        books := WithoutAuthor(books, id);
        var failure := SaveEntries(id, entries, currentYear);
        if failure.Some? {
          r := Err(failure.value);
        }
        ghost var k := FirstInvalid(entries, currentYear);
        forall a
          ensures BooksOf(books, a) == if a == id then EntryFields(entries[..k]) else BooksOf(all, a)
        {
          BooksOfReplaced(all, id, entries[..k], old(nextBookId), a);
        }
      }
    }
  }
}
