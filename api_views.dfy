/**
  The generic create and update views for books (advanced-api-project/api/views.py):
  before saving, `perform_create` and `perform_update` replace the validated title
  by `validated_data.get("title", "").strip()` and pass every other validated field
  through unchanged.
 */
module ApiViews {
  import opened Wrappers
  import opened PyStrings
  import opened ApiSerializers

  /** A book write's validated data; a partial update (PATCH) may omit any field. */
  datatype BookData = BookData(title: Option<string>, publicationYear: Option<int>, author: Option<AuthorId>)

  /**
    The data handed to `serializer.save(title=...)`: the title is always present;
    it is the validated title with exactly its leading and trailing whitespace
    removed, or empty when the validated data had none; the other fields are
    those of the validated data.
   */
  function NormalizeTitle(data: BookData): (r: BookData)
    ensures r.title.Some? && Trimmed(r.title.value)
    ensures data.title.None? ==> r.title == Some("")
    ensures data.title.Some? ==> var t := data.title.value;
              StripStart(t) + |r.title.value| <= |t|
              && r.title.value == t[StripStart(t)..StripStart(t) + |r.title.value|]
              && (forall k :: 0 <= k < StripStart(t) ==> IsSpace(t[k]))
              && (forall k :: StripStart(t) + |r.title.value| <= k < |t| ==> IsSpace(t[k]))
    ensures r.publicationYear == data.publicationYear && r.author == data.author
  {
    StripSlice(data.title.GetOr(""));
    data.(title := Some(Strip(data.title.GetOr(""))))
  }

  /** Normalising an already normalised title changes nothing. */
  lemma NormalizeTitleIdempotent(data: BookData)
    ensures NormalizeTitle(NormalizeTitle(data)) == NormalizeTitle(data)
  {
    StripIdempotent(data.title.GetOr(""));
  }

  /** The saving step of an update: every field present in the data is assigned, the others keep their value. */
  function Assign(book: Book, data: BookData): Book {
    Book(book.id, data.title.GetOr(book.title), data.publicationYear.GetOr(book.publicationYear), data.author.GetOr(book.author))
  }

  /**
    A partial update without a title saves the empty string as the title, not
    the old one, whatever the old title was.
   */
  lemma UpdateWithoutTitleBlanksIt(book: Book, data: BookData)
    requires data.title.None?
    ensures Assign(book, NormalizeTitle(data)).title == ""
    ensures Assign(book, NormalizeTitle(data)).publicationYear == data.publicationYear.GetOr(book.publicationYear)
    ensures Assign(book, NormalizeTitle(data)).author == data.author.GetOr(book.author)
    ensures Assign(book, NormalizeTitle(data)).id == book.id
  {
  }

  /** The rows after saving `data` over the row whose id is `id`. */
  function ReplaceRow(rows: seq<Book>, id: BookId, data: BookData): seq<Book> {
    seq(|rows|, i requires 0 <= i < |rows| => if rows[i].id == id then Assign(rows[i], data) else rows[i])
  }

  /** `BookCreateGV.perform_create`: one new row whose title is the stripped validated title. */
  method PerformCreate(lib: Library, data: BookData) returns (book: Book)
    requires lib.Valid()
    requires data.publicationYear.Some? && data.author.Some? && data.author.value in lib.authors
    modifies lib`books, lib`nextBookId
    ensures lib.Valid()
    ensures book.id == old(lib.nextBookId) && book.title == Strip(data.title.GetOr(""))
    ensures book.publicationYear == data.publicationYear.value && book.author == data.author.value
    ensures lib.books == old(lib.books) + [book] && lib.nextBookId == old(lib.nextBookId) + 1
  {
    var saved := NormalizeTitle(data);
    book := lib.InsertBook(saved.title.value, saved.publicationYear.value, saved.author.value);
  }

  /**
    `BookUpdateGV.perform_update`: the row with id `id` takes the validated fields,
    with the stripped title (empty when the data has none); every other row is
    unchanged.
   */
  method PerformUpdate(lib: Library, id: BookId, data: BookData) returns (book: Book)
    requires lib.Valid()
    requires exists i :: 0 <= i < |lib.books| && lib.books[i].id == id
    requires data.author.Some? ==> data.author.value in lib.authors
    modifies lib`books
    ensures lib.Valid()
    ensures book in lib.books && book.id == id && book.title == Strip(data.title.GetOr(""))
    ensures |lib.books| == |old(lib.books)|
    ensures forall i :: 0 <= i < |lib.books| ==>
              lib.books[i] == if old(lib.books[i]).id == id then Assign(old(lib.books[i]), NormalizeTitle(data))
                              else old(lib.books[i])
  {
    var i :| 0 <= i < |lib.books| && lib.books[i].id == id;
    lib.books := ReplaceRow(lib.books, id, NormalizeTitle(data));
    book := lib.books[i];
  }
}
