/** The book store: one cached array of books, read whole or by id, grown by
    `create` and rewritten by `update`, `borrow` and `return`. */
module Books {
  import opened Wrappers
  import opened Seqs
  import opened Models

  const BookNotFound := "Book not found"
  const NoCopiesAvailable := "No copies available"

  /** The predicate `b => b.id === id` the store searches with. */
  function HasId(id: int): Book -> bool
  {
    (b: Book) => b.id == id
  }

  /** `i` is the first position of `books` whose book has id `id`. */
  ghost predicate FirstWithId(books: seq<Book>, id: int, i: int)
  {
    0 <= i < |books| && books[i].id == id && forall j :: 0 <= j < i ==> books[j].id != id
  }

  /** `books.findIndex(b => b.id === id)`. */
  function IndexOf(books: seq<Book>, id: int): (r: Option<nat>)
    ensures r.Some? ==> FirstWithId(books, id, r.value)
    ensures r.None? <==> forall b <- books :: b.id != id
    ensures forall i :: FirstWithId(books, id, i) ==> r == Some(i)
  {
    var r := FindIndex(books, HasId(id));
    assert r.Some? ==> FirstMatch(books, HasId(id), r.value);
    r
  }

  /** `books.find(b => b.id === id)` is the book at `IndexOf`. */
  lemma FindIsAtIndex(books: seq<Book>, id: int)
    ensures Find(books, HasId(id)) == if IndexOf(books, id).Some? then Some(books[IndexOf(books, id).value]) else None
  {
  }

  /** Some book has id `id` exactly when there is a first such position. */
  lemma FirstWithIdExists(books: seq<Book>, id: int)
    ensures (exists b <- books :: b.id == id) <==> (exists i :: FirstWithId(books, id, i))
  {
    if IndexOf(books, id).Some? {
      assert FirstWithId(books, id, IndexOf(books, id).value);
    }
  }

  /** Every book has `0 <= availableCopies <= totalCopies`. */
  ghost predicate CopiesInRange(books: seq<Book>)
  {
    forall b <- books :: 0 <= b.availableCopies <= b.totalCopies
  }

  /** A patch that carries no property. */
  const NoPatch := BookPatch(None, None, None, None, None, None, None, None, None, None, None)

  /** The patch `{ availableCopies: n }`. */
  function CopiesPatch(n: int): BookPatch
  {
    NoPatch.(availableCopies := Some(n))
  }

  /** `{ ...b, ...p, id }`: the patch's properties win over the book's, and the
      id is the argument's whatever the patch carries. */
  function Patched(b: Book, p: BookPatch, id: int): (r: Book)
    ensures r.id == id
    ensures r.isbn == (if p.isbn.Some? then p.isbn.value else b.isbn)
    ensures r.title == (if p.title.Some? then p.title.value else b.title)
    ensures r.author == (if p.author.Some? then p.author.value else b.author)
    ensures r.genre == (if p.genre.Some? then p.genre.value else b.genre)
    ensures r.description == (if p.description.Some? then p.description.value else b.description)
    ensures r.publishedYear == (if p.publishedYear.Some? then p.publishedYear.value else b.publishedYear)
    ensures r.coverUrl == (if p.coverUrl.Some? then p.coverUrl.value else b.coverUrl)
    ensures r.totalCopies == (if p.totalCopies.Some? then p.totalCopies.value else b.totalCopies)
    ensures r.availableCopies == (if p.availableCopies.Some? then p.availableCopies.value else b.availableCopies)
    ensures r.isPopular == (if p.isPopular.Some? then p.isPopular.value else b.isPopular)
  {
    Book(id, p.isbn.GetOr(b.isbn), p.title.GetOr(b.title), p.author.GetOr(b.author),
         p.genre.GetOr(b.genre), p.description.GetOr(b.description),
         p.publishedYear.GetOr(b.publishedYear), p.coverUrl.GetOr(b.coverUrl),
         p.totalCopies.GetOr(b.totalCopies), p.availableCopies.GetOr(b.availableCopies),
         p.isPopular.GetOr(b.isPopular))
  }

  /** `create`: the draft receives the next free id and is appended. */
  function CreateBook(books: seq<Book>, draft: Book): (r: Change<Book>)
    ensures r.record == draft.(id := r.record.id)
    ensures forall b <- books :: b.id < r.record.id
    ensures books == [] ==> r.record.id == 1
    ensures r.record.id == NextId(books, BookId)
    ensures r.items == books + [r.record]
  {
    var created := draft.(id := NextId(books, BookId));
    Change(books + [created], created)
  }

  /** `update`: fails when no book has the id; otherwise the first book with
      that id is replaced by the patched book, and nothing else changes. */
  function UpdateBook(books: seq<Book>, id: int, patch: BookPatch): (r: Result<Change<Book>>)
    ensures r.Err? <==> forall b <- books :: b.id != id
    ensures r.Err? ==> r.error == BookNotFound
    ensures forall i :: FirstWithId(books, id, i) ==>
              var u := Patched(books[i], patch, id); r == Ok(Change(books[i := u], u))
  {
    match IndexOf(books, id)
    case None => Err(BookNotFound)
    case Some(i) =>
      var updated := Patched(books[i], patch, id);
      Ok(Change(books[i := updated], updated))
  }

  /** `borrow`: fails when no book has the id, or when the first one has no
      copy left; otherwise that book loses exactly one available copy. */
  function BorrowBook(books: seq<Book>, bookId: int): (r: Result<Change<Book>>)
    ensures r == Err(BookNotFound) <==> forall b <- books :: b.id != bookId
    ensures forall i :: FirstWithId(books, bookId, i) && books[i].availableCopies <= 0 ==>
              r == Err(NoCopiesAvailable)
    ensures forall i :: FirstWithId(books, bookId, i) && books[i].availableCopies > 0 ==>
              var u := books[i].(availableCopies := books[i].availableCopies - 1);
              r == Ok(Change(books[i := u], u))
  {
    FindIsAtIndex(books, bookId);
    match Find(books, HasId(bookId))
    case None => Err(BookNotFound)
    case Some(book) =>
      if book.availableCopies <= 0 then Err(NoCopiesAvailable)
      else UpdateBook(books, bookId, CopiesPatch(book.availableCopies - 1))
  }

  /** `Math.min(total, available + 1)`. */
  function ReturnedCopies(b: Book): (n: int)
    ensures n <= b.totalCopies && n <= b.availableCopies + 1
    ensures n == b.totalCopies || n == b.availableCopies + 1
  {
    if b.availableCopies + 1 < b.totalCopies then b.availableCopies + 1 else b.totalCopies
  }

  /** `return`: fails when no book has the id; otherwise the first book with
      that id gains one available copy, but never more than `totalCopies`
      (a book above its total is pulled down to it). */
  function ReturnBook(books: seq<Book>, bookId: int): (r: Result<Change<Book>>)
    ensures r.Err? <==> forall b <- books :: b.id != bookId
    ensures r.Err? ==> r.error == BookNotFound
    ensures r.Ok? ==> r.value.record.availableCopies <= r.value.record.totalCopies
    ensures forall i :: FirstWithId(books, bookId, i) ==>
              var u := books[i].(availableCopies := ReturnedCopies(books[i]));
              r == Ok(Change(books[i := u], u))
  {
    FindIsAtIndex(books, bookId);
    match Find(books, HasId(bookId))
    case None => Err(BookNotFound)
    case Some(book) => UpdateBook(books, bookId, CopiesPatch(ReturnedCopies(book)))
  }

  /** A successful `borrow` keeps every book's copies in range. */
  lemma BorrowKeepsCopiesInRange(books: seq<Book>, bookId: int)
    requires CopiesInRange(books)
    ensures BorrowBook(books, bookId).Ok? ==> CopiesInRange(BorrowBook(books, bookId).value.items)
  {
    FirstWithIdExists(books, bookId);
  }

  /** A successful `return` keeps every book's copies in range. */
  lemma ReturnKeepsCopiesInRange(books: seq<Book>, bookId: int)
    requires CopiesInRange(books)
    ensures ReturnBook(books, bookId).Ok? ==> CopiesInRange(ReturnBook(books, bookId).value.items)
  {
    FirstWithIdExists(books, bookId);
  }

  /** Returning a book just borrowed restores the collection, provided the
      book was within its total beforehand. */
  lemma BorrowThenReturn(books: seq<Book>, bookId: int, i: int)
    requires FirstWithId(books, bookId, i)
    requires 0 < books[i].availableCopies <= books[i].totalCopies
    ensures BorrowBook(books, bookId).Ok?
    ensures ReturnBook(BorrowBook(books, bookId).value.items, bookId) == Ok(Change(books, books[i]))
  {
    var b := books[i];
    var u := b.(availableCopies := b.availableCopies - 1);
    assert BorrowBook(books, bookId) == Ok(Change(books[i := u], u));
    var after := books[i := u];
    assert FirstWithId(after, bookId, i);
    assert ReturnedCopies(u) == b.availableCopies;
    assert u.(availableCopies := b.availableCopies) == b;
    assert after[i := b] == books;
  }

  /** `create` keeps ids increasing. */
  lemma CreateKeepsIdsIncreasing(books: seq<Book>, draft: Book)
    requires IncreasingIds(books, BookId)
    ensures IncreasingIds(CreateBook(books, draft).items, BookId)
  {
    AppendNextIdKeepsIncreasing(books, BookId, CreateBook(books, draft).record);
  }

  /** `create` keeps ids unique. */
  lemma CreateKeepsIdsUnique(books: seq<Book>, draft: Book)
    requires UniqueIds(books, BookId)
    ensures UniqueIds(CreateBook(books, draft).items, BookId)
  {
    AppendNextIdKeepsUnique(books, BookId, CreateBook(books, draft).record);
  }

  /** `update` keeps ids unique: the replaced book keeps the id it was found by. */
  lemma UpdateKeepsIdsUnique(books: seq<Book>, id: int, patch: BookPatch)
    requires UniqueIds(books, BookId)
    ensures UpdateBook(books, id, patch).Ok? ==> UniqueIds(UpdateBook(books, id, patch).value.items, BookId)
  {
    match IndexOf(books, id)
    case None =>
    case Some(i) => ReplaceSameIdKeepsUnique(books, BookId, i, UpdateBook(books, id, patch).value.record);
  }

  /** `borrow` keeps ids unique: it is an `update` of the copy count. */
  lemma BorrowKeepsIdsUnique(books: seq<Book>, bookId: int)
    requires UniqueIds(books, BookId)
    ensures BorrowBook(books, bookId).Ok? ==> UniqueIds(BorrowBook(books, bookId).value.items, BookId)
  {
    match Find(books, HasId(bookId))
    case None =>
    case Some(book) => UpdateKeepsIdsUnique(books, bookId, CopiesPatch(book.availableCopies - 1));
  }

  /** `return` keeps ids unique: it is an `update` of the copy count. */
  lemma ReturnKeepsIdsUnique(books: seq<Book>, bookId: int)
    requires UniqueIds(books, BookId)
    ensures ReturnBook(books, bookId).Ok? ==> UniqueIds(ReturnBook(books, bookId).value.items, BookId)
  {
    match Find(books, HasId(bookId))
    case None =>
    case Some(book) => UpdateKeepsIdsUnique(books, bookId, CopiesPatch(ReturnedCopies(book)));
  }

  /** The cached book array behind `BookService`. */
  class BookService {
    var books: seq<Book>

    /** The store after its first load, with `seed` as the fixture. */
    constructor (seed: seq<Book>)
      ensures books == seed
    {
      books := seed;
    }

    /** `getAll`: a copy of the current books. */
    method GetAll() returns (r: seq<Book>)
      ensures r == books
    {
      r := books;
    }

    /** `getById`: the first book with the id, if any. */
    function GetById(id: int): (r: Option<Book>)
      reads this
      ensures r.None? <==> forall b <- books :: b.id != id
      ensures forall i :: FirstWithId(books, id, i) ==> r == Some(books[i])
    {
      Find(books, HasId(id))
    }

    method Create(draft: Book) returns (created: Book)
      modifies this
      ensures books == CreateBook(old(books), draft).items
      ensures created == CreateBook(old(books), draft).record
    {
      var nextId := NextId(books, BookId);
      created := draft.(id := nextId);
      books := books + [created];
    }

    method Update(id: int, patch: BookPatch) returns (r: Result<Book>)
      modifies this
      ensures Publishes(UpdateBook(old(books), id, patch), old(books), books, r)
    {
      var idx := FindIndex(books, HasId(id));
      assert idx == IndexOf(books, id);
      if idx.None? {
        return Err(BookNotFound);
      }
      var updated := Patched(books[idx.value], patch, id);
      books := books[idx.value := updated];
      r := Ok(updated);
    }

    method Borrow(bookId: int) returns (r: Result<Book>)
      modifies this
      ensures Publishes(BorrowBook(old(books), bookId), old(books), books, r)
    {
      var book := Find(books, HasId(bookId));
      FindIsAtIndex(books, bookId);
      if book.None? {
        return Err(BookNotFound);
      }
      if book.value.availableCopies <= 0 {
        return Err(NoCopiesAvailable);
      }
      var patch := CopiesPatch(book.value.availableCopies - 1);
      assert BorrowBook(books, bookId) == UpdateBook(books, bookId, patch);
      r := Update(bookId, patch);
    }

    method Return(bookId: int) returns (r: Result<Book>)
      modifies this
      ensures Publishes(ReturnBook(old(books), bookId), old(books), books, r)
    {
      var book := Find(books, HasId(bookId));
      FindIsAtIndex(books, bookId);
      if book.None? {
        return Err(BookNotFound);
      }
      var patch := CopiesPatch(ReturnedCopies(book.value));
      assert ReturnBook(books, bookId) == UpdateBook(books, bookId, patch);
      r := Update(bookId, patch);
    }
  }
}
