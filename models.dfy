/** The three record shapes of the library, with the partial patches that
    `update` merges over them. Optional properties are `Option`s; dates are
    the `YYYY-MM-DD` strings the records store. */
module Models {
  import opened Wrappers

  datatype Book = Book(
    id: int,
    isbn: string,
    title: string,
    author: string,
    genre: string,
    description: Option<string>,
    publishedYear: Option<int>,
    coverUrl: Option<string>,
    totalCopies: int,
    availableCopies: int,
    isPopular: Option<bool>)

  datatype Member = Member(
    id: int,
    name: string,
    email: string,
    phone: Option<string>,
    membershipDate: string,
    isActive: bool)

  datatype TransactionStatus = Borrowed | Returned | Overdue

  datatype Transaction = Transaction(
    id: int,
    bookId: int,
    memberId: int,
    borrowedAt: string,
    dueAt: string,
    returnedAt: Option<string>,
    status: TransactionStatus)

  /** A `Partial<Book>`: `None` is a property the patch does not carry. For a
      property that is itself optional, `Some(None)` is a patch that carries
      it with the value `undefined`. */
  datatype BookPatch = BookPatch(
    id: Option<int>,
    isbn: Option<string>,
    title: Option<string>,
    author: Option<string>,
    genre: Option<string>,
    description: Option<Option<string>>,
    publishedYear: Option<Option<int>>,
    coverUrl: Option<Option<string>>,
    totalCopies: Option<int>,
    availableCopies: Option<int>,
    isPopular: Option<Option<bool>>)

  /** A `Partial<Member>`, read as `BookPatch` is. */
  datatype MemberPatch = MemberPatch(
    id: Option<int>,
    name: Option<string>,
    email: Option<string>,
    phone: Option<Option<string>>,
    membershipDate: Option<string>,
    isActive: Option<bool>)

  /** What a successful write republishes: the whole new collection, and the
      record it emits to the caller. */
  datatype Change<T> = Change(items: seq<T>, record: T)

  function BookId(b: Book): int { b.id }
  function MemberId(m: Member): int { m.id }
  function TransactionId(t: Transaction): int { t.id }

  /** A store method published the outcome `c` of the operation that
      specifies it: on failure it emits the error and keeps `before`; on
      success it emits the record and replaces `before` by the new items. */
  ghost predicate Publishes<T>(c: Result<Change<T>>, before: seq<T>, after: seq<T>, r: Result<T>)
  {
    match c
    case Err(e) => r == Err(e) && after == before
    case Ok(ch) => r == Ok(ch.record) && after == ch.items
  }
}
