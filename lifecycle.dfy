/** A loan's whole life through the two forms: borrowing a copy and then
    returning that loan. */
module Lifecycle {
  import opened Wrappers
  import opened Seqs
  import opened Models
  import opened Dates
  import opened Auth
  import opened Books
  import opened Transactions
  import opened Forms
  import Borrowing
  import Returning

  /** Borrowing a book that has a copy left and then returning the loan just
      created gives back the original books, and leaves the loan in the
      collection marked RETURNED on the return day. */
  lemma BorrowThenReturnLoan(session: Option<int>, bookId: int, due: Date, borrowDay: Date, returnDay: Date,
                             books: seq<Book>, txs: seq<Transaction>, i: int)
    requires SessionMember(session).Some?
    requires Books.FirstWithId(books, bookId, i)
    requires 0 < books[i].availableCopies <= books[i].totalCopies
    ensures var b := Borrowing.SubmitEffect(session, Borrowing.BorrowForm(Some(bookId), Some(due)), borrowDay, books, txs);
            && b.outcome == Navigated(bookId)
            && var loan := b.transactions[|txs|];
               var r := Returning.SubmitEffect(session, Returning.ReturnForm(Some(loan.id)), returnDay, b.books, b.transactions);
               && r.outcome == Navigated(bookId)
               && r.books == books
               && r.transactions == txs + [loan.(status := Returned, returnedAt := Some(ToIsoDate(returnDay)))]
  {
    var form := Borrowing.BorrowForm(Some(bookId), Some(due));
    var u := books[i].(availableCopies := books[i].availableCopies - 1);
    assert BorrowBook(books, bookId) == Ok(Change(books[i := u], u));
    BorrowThenReturn(books, bookId, i);

    var b := Borrowing.SubmitEffect(session, form, borrowDay, books, txs);
    assert b.outcome == Navigated(bookId);
    var loan := b.transactions[|txs|];
    assert b.transactions == txs + [loan] by {
      assert b.transactions[..|txs|] == txs;
    }
    ReturnNewestLoan(session, returnDay, b.books, txs, loan, books);
  }

  /** Returning the newest loan, whose book the store can give a copy back to,
      closes that loan in place and publishes the store's answer. */
  lemma ReturnNewestLoan(session: Option<int>, returnDay: Date, current: seq<Book>,
                         txs: seq<Transaction>, loan: Transaction, restored: seq<Book>)
    requires SessionMember(session).Some?
    requires forall t <- txs :: t.id < loan.id
    requires ReturnBook(current, loan.bookId).Ok?
    requires ReturnBook(current, loan.bookId).value.items == restored
    ensures var r := Returning.SubmitEffect(session, Returning.ReturnForm(Some(loan.id)), returnDay, current, txs + [loan]);
            && r.outcome == Navigated(loan.bookId)
            && r.books == restored
            && r.transactions == txs + [loan.(status := Returned, returnedAt := Some(ToIsoDate(returnDay)))]
  {
    var all := txs + [loan];
    assert Transactions.FirstWithId(all, loan.id, |txs|);
    assert exists b <- current :: b.id == loan.bookId;
    var closed := loan.(status := Returned, returnedAt := Some(ToIsoDate(returnDay)));
    assert all[|txs| := closed] == txs + [closed];
  }
}
