/** The borrow form: with a member in session and a book and due date
    chosen, take one copy of the book and record the loan. */
module Borrowing {
  import opened Wrappers
  import opened Seqs
  import opened Models
  import opened Dates
  import opened Auth
  import opened Books
  import opened Transactions
  import opened Forms

  /** The form's two required controls. */
  datatype BorrowForm = BorrowForm(bookId: Option<int>, dueAt: Option<Date>)

  /** The two `Validators.required`: a book and a due date are chosen. */
  predicate FormValid(form: BorrowForm): (valid: bool)
    ensures valid <==> form.bookId != None && form.dueAt != None
  {
    form.bookId.Some? && form.dueAt.Some?
  }

  /** The form as it opens: no book chosen, due two weeks from today. */
  function InitialForm(today: Date): (f: BorrowForm)
    requires ValidDate(today)
    ensures f.bookId.None? && f.dueAt.Some?
    ensures ValidDate(f.dueAt.value) && DayNumber(f.dueAt.value) == DayNumber(today) + 14
  {
    BorrowForm(None, Some(DefaultDueDate(today)))
  }

  /** `books$`: the books offered for selection, those with a copy left. */
  function AvailableBooks(books: seq<Book>): (r: seq<Book>)
    ensures forall b <- r :: b in books && b.availableCopies > 0
    ensures forall b <- books :: b.availableCopies > 0 ==> b in r
    ensures forall b <- books :: multiset(r)[b] == if b.availableCopies > 0 then multiset(books)[b] else 0
    ensures IsSubsequence(r, books)
  {
    Filter(books, (b: Book) => b.availableCopies > 0)
  }

  /** The loan `submit` asks the transaction store to create. Its id is the
      store's to assign. */
  function Loan(bookId: int, memberId: int, borrowedAt: string, dueAt: string): Transaction
  {
    Transaction(0, bookId, memberId, borrowedAt, dueAt, None, Borrowed)
  }

  /** `submit`: the guard on the session, the guard on the form, `borrow`,
      then `create` of a BORROWED loan dated today. A failure changes
      nothing; a loan is recorded only after the copy was taken. */
  function SubmitEffect(session: Option<int>, form: BorrowForm, today: Date,
                        books: seq<Book>, txs: seq<Transaction>): (r: Step)
    ensures r.outcome == Ignored <==> SessionMember(session).None?
    ensures r.outcome == Touched <==> SessionMember(session).Some? && !FormValid(form)
    ensures !r.outcome.Navigated? ==> r.books == books && r.transactions == txs
    ensures r.outcome.Failed? ==>
              r.outcome == Failed(BookNotFound) || r.outcome == Failed(NoCopiesAvailable)
    ensures r.outcome.Navigated? ==>
              && SessionMember(session).Some? && FormValid(form)
              && r.outcome.bookId == form.bookId.value
              && BorrowBook(books, form.bookId.value).Ok?
              && r.books == BorrowBook(books, form.bookId.value).value.items
              && |r.transactions| == |txs| + 1
              && r.transactions[..|txs|] == txs
              && var t := r.transactions[|txs|];
                 && t.bookId == form.bookId.value && t.memberId == session.value
                 && t.borrowedAt == ToIsoDate(today) && t.dueAt == ToIsoDate(form.dueAt.value)
                 && t.returnedAt.None? && t.status == Borrowed
                 && (forall u <- txs :: u.id < t.id)
                 && t.id == NextId(txs, TransactionId)
    ensures SessionMember(session).Some? && FormValid(form) && BorrowBook(books, form.bookId.value).Ok? ==>
              r.outcome == Navigated(form.bookId.value)
    ensures SessionMember(session).Some? && FormValid(form) && BorrowBook(books, form.bookId.value).Err? ==>
              r.outcome == Failed(BorrowBook(books, form.bookId.value).error)
  {
    if SessionMember(session).None? then Step(Ignored, books, txs)
    else if !FormValid(form) then Step(Touched, books, txs)
    else
      var bookId := form.bookId.value;
      match BorrowBook(books, bookId)
      case Err(e) => Step(Failed(e), books, txs)
      case Ok(borrowed) =>
        var loan := Loan(bookId, session.value, ToIsoDate(today), ToIsoDate(form.dueAt.value));
        var created := CreateTransaction(txs, loan);
        assert created.items[..|txs|] == txs;
        Step(Navigated(bookId), borrowed.items, created.items)
  }

  /** A successful borrow leaves the new loan open and listed for the member. */
  lemma BorrowOpensLoan(session: Option<int>, form: BorrowForm, today: Date,
                        books: seq<Book>, txs: seq<Transaction>)
    requires SubmitEffect(session, form, today, books, txs).outcome.Navigated?
    ensures var r := SubmitEffect(session, form, today, books, txs);
            r.transactions[|txs|] in OpenByMemberId(r.transactions, session.value)
  {
    var r := SubmitEffect(session, form, today, books, txs);
    assert IsOpen(r.transactions[|txs|]);
  }

  /** A successful borrow keeps every book's copies in range. */
  lemma BorrowKeepsBooksInRange(session: Option<int>, form: BorrowForm, today: Date,
                                books: seq<Book>, txs: seq<Transaction>)
    requires CopiesInRange(books)
    ensures CopiesInRange(SubmitEffect(session, form, today, books, txs).books)
  {
    if SessionMember(session).Some? && FormValid(form) {
      BorrowKeepsCopiesInRange(books, form.bookId.value);
    }
  }

  /** `submit`, step by step over the injected services. */
  method Submit(auth: AuthService, bookService: BookService, txService: TransactionService,
                form: BorrowForm, today: Date) returns (outcome: Outcome)
    modifies bookService, txService
    ensures var e := SubmitEffect(old(auth.memberId), form, today, old(bookService.books), old(txService.transactions));
            && outcome == e.outcome
            && bookService.books == e.books
            && txService.transactions == e.transactions
  {
    if SessionMember(auth.memberId).None? {
      return Ignored;
    }
    if !FormValid(form) {
      return Touched;
    }
    var bookId := form.bookId.value;
    var todayIso := ToIsoDate(today);
    var dueIso := ToIsoDate(form.dueAt.value);
    var borrowed := bookService.Borrow(bookId);
    if borrowed.Err? {
      return Failed(borrowed.error);
    }
    var created := txService.Create(Loan(bookId, auth.memberId.value, todayIso, dueIso));
    outcome := Navigated(bookId);
  }
}
