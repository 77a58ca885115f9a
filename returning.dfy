/** The return form: the member's open loans, each with its book, and the
    submission that gives a copy back and closes the chosen loan. */
module Returning {
  import opened Wrappers
  import opened Seqs
  import opened Models
  import opened Dates
  import opened Auth
  import opened Books
  import opened Transactions
  import opened Forms

  /** The form's one required control. */
  datatype ReturnForm = ReturnForm(transactionId: Option<int>)

  /** `new Map(books.map(b => [b.id, b])).get(id)`: when ids repeat, the map
      keeps the LAST book with the id. */
  function LastWithId(books: seq<Book>, id: int): (r: Option<Book>)
    ensures r.None? <==> forall b <- books :: b.id != id
    ensures r.Some? ==> exists i :: 0 <= i < |books| && books[i] == r.value && r.value.id == id
                          && forall j :: i < j < |books| ==> books[j].id != id
  {
    if books == [] then None
    else
      var last := books[|books| - 1];
      if last.id == id then
        assert books[|books| - 1] == last;
        Some(last)
      else
        var r := LastWithId(books[..|books| - 1], id);
        assert forall b <- books :: b == last || b in books[..|books| - 1];
        r
  }

  /** With unique ids, the map lookup finds the same book as `getById`. */
  lemma LastWithIdIsFirst(books: seq<Book>, id: int, i: int)
    requires UniqueIds(books, BookId)
    requires Books.FirstWithId(books, id, i)
    ensures LastWithId(books, id) == Some(books[i])
  {
  }

  /** One row of the form: an open loan and its book, when the book exists. */
  datatype Row = Row(tx: Transaction, book: Option<Book>)

  /** `vm$`: no rows while the session is `null`; otherwise one row per open
      loan of the session member, in collection order. */
  function OpenRows(session: Option<int>, books: seq<Book>, txs: seq<Transaction>): (rows: seq<Row>)
    ensures session.None? ==> rows == []
    ensures session.Some? ==> |rows| == |OpenByMemberId(txs, session.value)|
    ensures forall k :: 0 <= k < |rows| ==>
              && session.Some? && rows[k].tx == OpenByMemberId(txs, session.value)[k]
              && rows[k].tx.memberId == session.value && IsOpen(rows[k].tx)
              && (rows[k].book.None? <==> forall b <- books :: b.id != rows[k].tx.bookId)
              && (rows[k].book.Some? ==> rows[k].book.value in books && rows[k].book.value.id == rows[k].tx.bookId)
              && rows[k].book == LastWithId(books, rows[k].tx.bookId)
  {
    if session.None? then []
    else
      var open := OpenByMemberId(txs, session.value);
      seq(|open|, k requires 0 <= k < |open| => Row(open[k], LastWithId(books, open[k].bookId)))
  }

  /** `submit`: the guard on the session, the guard on the form, then the loan
      looked up among ALL loans, `return` of its book, and `updateStatus` to
      RETURNED dated today. */
  function SubmitEffect(session: Option<int>, form: ReturnForm, today: Date,
                        books: seq<Book>, txs: seq<Transaction>): (r: Step)
    ensures r.outcome == Ignored <==> SessionMember(session).None?
    ensures r.outcome == Touched <==> SessionMember(session).Some? && form.transactionId.None?
    ensures !r.outcome.Navigated? ==> r.books == books && r.transactions == txs
    ensures SessionMember(session).Some? && form.transactionId.Some?
              && (forall t <- txs :: t.id != form.transactionId.value) ==>
              r.outcome == Failed(TransactionNotFound)
    ensures r.outcome.Failed? ==>
              r.outcome == Failed(TransactionNotFound) || r.outcome == Failed(BookNotFound)
    ensures forall i :: SessionMember(session).Some? && form.transactionId.Some?
                        && Transactions.FirstWithId(txs, form.transactionId.value, i)
                        && (forall b <- books :: b.id != txs[i].bookId) ==>
              r.outcome == Failed(BookNotFound)
    ensures forall i :: SessionMember(session).Some? && form.transactionId.Some?
                        && Transactions.FirstWithId(txs, form.transactionId.value, i)
                        && (exists b <- books :: b.id == txs[i].bookId) ==>
              var t := txs[i];
              var closed := t.(status := Returned, returnedAt := Some(ToIsoDate(today)));
              && r.outcome == Navigated(t.bookId)
              && r.books == ReturnBook(books, t.bookId).value.items
              && r.transactions == txs[i := closed]
  {
    if SessionMember(session).None? then Step(Ignored, books, txs)
    else if form.transactionId.None? then Step(Touched, books, txs)
    else
      var txId := form.transactionId.value;
      match Find(txs, Transactions.HasId(txId))
      case None => Step(Failed(TransactionNotFound), books, txs)
      case Some(tx) =>
        match ReturnBook(books, tx.bookId)
        case Err(e) => Step(Failed(e), books, txs)
        case Ok(returned) =>
          match UpdateTransactionStatus(txs, tx.id, Returned, Some(ToIsoDate(today)))
          case Err(e) => Step(Failed(e), returned.items, txs)
          case Ok(closed) => Step(Navigated(tx.bookId), returned.items, closed.items)
  }

  /** A successful return keeps every book's copies in range. */
  lemma ReturnKeepsBooksInRange(session: Option<int>, form: ReturnForm, today: Date,
                                books: seq<Book>, txs: seq<Transaction>)
    requires CopiesInRange(books)
    ensures CopiesInRange(SubmitEffect(session, form, today, books, txs).books)
  {
    if SessionMember(session).Some? && form.transactionId.Some? {
      match Find(txs, Transactions.HasId(form.transactionId.value))
      case None =>
      case Some(tx) => ReturnKeepsCopiesInRange(books, tx.bookId);
    }
  }

  /** `submit`, step by step over the injected services. */
  method Submit(auth: AuthService, bookService: BookService, txService: TransactionService,
                form: ReturnForm, today: Date) returns (outcome: Outcome)
    modifies bookService, txService
    ensures var e := SubmitEffect(old(auth.memberId), form, today, old(bookService.books), old(txService.transactions));
            && outcome == e.outcome
            && bookService.books == e.books
            && txService.transactions == e.transactions
  {
    if SessionMember(auth.memberId).None? {
      return Ignored;
    }
    if form.transactionId.None? {
      return Touched;
    }
    var txId := form.transactionId.value;
    var todayIso := ToIsoDate(today);
    var all := txService.GetAll();
    var tx := Find(all, Transactions.HasId(txId));
    if tx.None? {
      return Failed(TransactionNotFound);
    }
    var returned := bookService.Return(tx.value.bookId);
    if returned.Err? {
      return Failed(returned.error);
    }
    var closed := txService.UpdateStatus(tx.value.id, Returned, Some(todayIso));
    match closed
    case Err(e) => outcome := Failed(e);
    case Ok(_) => outcome := Navigated(tx.value.bookId);
  }
}
