/** The transaction store: one cached array of loans, queried for the open
    ones, grown by `create` and rewritten by `updateStatus`. */
module Transactions {
  import opened Wrappers
  import opened Seqs
  import opened Models

  const TransactionNotFound := "Transaction not found"

  /** A loan is open while it is BORROWED or OVERDUE. */
  predicate IsOpen(t: Transaction)
  {
    t.status == Borrowed || t.status == Overdue
  }

  function HasId(id: int): Transaction -> bool
  {
    (t: Transaction) => t.id == id
  }

  function ForBook(bookId: int): Transaction -> bool
  {
    (t: Transaction) => t.bookId == bookId
  }

  function ForMember(memberId: int): Transaction -> bool
  {
    (t: Transaction) => t.memberId == memberId
  }

  function OpenTx(): Transaction -> bool
  {
    (t: Transaction) => IsOpen(t)
  }

  /** `i` is the first position of `txs` whose loan has id `id`. */
  ghost predicate FirstWithId(txs: seq<Transaction>, id: int, i: int)
  {
    0 <= i < |txs| && txs[i].id == id && forall j :: 0 <= j < i ==> txs[j].id != id
  }

  /** Some loan has id `id` exactly when there is a first such position. */
  lemma FirstWithIdExists(txs: seq<Transaction>, id: int)
    ensures (exists t <- txs :: t.id == id) <==> (exists i :: FirstWithId(txs, id, i))
  {
    match FindIndex(txs, HasId(id))
    case None =>
    case Some(i) => assert FirstWithId(txs, id, i);
  }

  /** `getOpenByBookId`: the first open loan of the book, in collection order. */
  function OpenByBookId(txs: seq<Transaction>, bookId: int): (r: Option<Transaction>)
    ensures r.None? <==> forall t <- txs :: !(t.bookId == bookId && IsOpen(t))
    ensures r.Some? ==> exists i :: 0 <= i < |txs| && txs[i] == r.value
                          && r.value.bookId == bookId && IsOpen(r.value)
                          && forall j :: 0 <= j < i ==> !(txs[j].bookId == bookId && IsOpen(txs[j]))
  {
    var both := (t: Transaction) => t.bookId == bookId && IsOpen(t);
    FindAfterFilter(txs, ForBook(bookId), OpenTx(), both);
    var r := Find(Filter(txs, ForBook(bookId)), OpenTx());
    assert r == Find(txs, both);
    r
  }

  /** `getOpenByMemberId`: exactly the member's open loans, in collection
      order; a RETURNED loan is never among them. */
  function OpenByMemberId(txs: seq<Transaction>, memberId: int): (r: seq<Transaction>)
    ensures forall t <- r :: t in txs && t.memberId == memberId && IsOpen(t)
    ensures forall t <- txs :: t.memberId == memberId && IsOpen(t) ==> t in r
    ensures forall t <- r :: t.status != Returned
    ensures forall t <- txs :: multiset(r)[t] == if t.memberId == memberId && IsOpen(t) then multiset(txs)[t] else 0
    ensures IsSubsequence(r, txs)
  {
    var both := (t: Transaction) => t.memberId == memberId && IsOpen(t);
    FilterFilter(txs, ForMember(memberId), OpenTx(), both);
    Filter(Filter(txs, ForMember(memberId)), OpenTx())
  }

  /** `create`: the draft receives the next free id and is appended. */
  function CreateTransaction(txs: seq<Transaction>, draft: Transaction): (r: Change<Transaction>)
    ensures r.record == draft.(id := r.record.id)
    ensures forall t <- txs :: t.id < r.record.id
    ensures txs == [] ==> r.record.id == 1
    ensures r.record.id == NextId(txs, TransactionId)
    ensures r.items == txs + [r.record]
  {
    var created := draft.(id := NextId(txs, TransactionId));
    Change(txs + [created], created)
  }

  /** `{ ...t, status, returnedAt: returnedAt ?? t.returnedAt }`. */
  function Stamped(t: Transaction, status: TransactionStatus, returnedAt: Option<string>): (r: Transaction)
    ensures r.status == status
    ensures r.returnedAt == (if returnedAt.Some? then returnedAt else t.returnedAt)
    ensures r.(status := t.status, returnedAt := t.returnedAt) == t
  {
    t.(status := status, returnedAt := if returnedAt.Some? then returnedAt else t.returnedAt)
  }

  /** `updateStatus`: fails when no loan has the id; otherwise the first loan
      with that id gets the new status (and the return date, when one is
      given), and nothing else changes. */
  function UpdateTransactionStatus(txs: seq<Transaction>, id: int, status: TransactionStatus, returnedAt: Option<string>)
    : (r: Result<Change<Transaction>>)
    ensures r.Err? <==> forall t <- txs :: t.id != id
    ensures r.Err? ==> r.error == TransactionNotFound
    ensures forall i :: FirstWithId(txs, id, i) ==>
              var u := Stamped(txs[i], status, returnedAt); r == Ok(Change(txs[i := u], u))
  {
    match FindIndex(txs, HasId(id))
    case None => Err(TransactionNotFound)
    case Some(i) =>
      var updated := Stamped(txs[i], status, returnedAt);
      Ok(Change(txs[i := updated], updated))
  }

  /** With unique ids, a loan marked RETURNED leaves every member's open list
      and is no longer its book's open loan. */
  lemma ReturnedLoanIsClosed(txs: seq<Transaction>, id: int, returnedAt: Option<string>, memberId: int, bookId: int)
    requires UniqueIds(txs, TransactionId)
    requires UpdateTransactionStatus(txs, id, Returned, returnedAt).Ok?
    ensures forall t <- OpenByMemberId(UpdateTransactionStatus(txs, id, Returned, returnedAt).value.items, memberId) :: t.id != id
    ensures OpenByBookId(UpdateTransactionStatus(txs, id, Returned, returnedAt).value.items, bookId).Some? ==>
              OpenByBookId(UpdateTransactionStatus(txs, id, Returned, returnedAt).value.items, bookId).value.id != id
  {
    FirstWithIdExists(txs, id);
    var i :| FirstWithId(txs, id, i);
    var after := UpdateTransactionStatus(txs, id, Returned, returnedAt).value.items;
    assert forall k :: 0 <= k < |after| && after[k].id == id ==> k == i;
    assert forall t <- after :: t.id == id ==> !IsOpen(t);
  }

  /** `create` keeps ids increasing. */
  lemma CreateKeepsIdsIncreasing(txs: seq<Transaction>, draft: Transaction)
    requires IncreasingIds(txs, TransactionId)
    ensures IncreasingIds(CreateTransaction(txs, draft).items, TransactionId)
  {
    AppendNextIdKeepsIncreasing(txs, TransactionId, CreateTransaction(txs, draft).record);
  }

  /** `create` keeps ids unique. */
  lemma CreateKeepsIdsUnique(txs: seq<Transaction>, draft: Transaction)
    requires UniqueIds(txs, TransactionId)
    ensures UniqueIds(CreateTransaction(txs, draft).items, TransactionId)
  {
    AppendNextIdKeepsUnique(txs, TransactionId, CreateTransaction(txs, draft).record);
  }

  /** `updateStatus` keeps ids unique. */
  lemma UpdateStatusKeepsIdsUnique(txs: seq<Transaction>, id: int, status: TransactionStatus, returnedAt: Option<string>)
    requires UniqueIds(txs, TransactionId)
    ensures UpdateTransactionStatus(txs, id, status, returnedAt).Ok? ==>
              UniqueIds(UpdateTransactionStatus(txs, id, status, returnedAt).value.items, TransactionId)
  {
    match FindIndex(txs, HasId(id))
    case None =>
    case Some(i) =>
      assert FirstWithId(txs, id, i);
      ReplaceSameIdKeepsUnique(txs, TransactionId, i, UpdateTransactionStatus(txs, id, status, returnedAt).value.record);
  }

  /** The cached loan array behind `TransactionService`. */
  class TransactionService {
    var transactions: seq<Transaction>

    /** The store after its first load, with `seed` as the fixture. */
    constructor (seed: seq<Transaction>)
      ensures transactions == seed
    {
      transactions := seed;
    }

    /** `getAll`: a copy of the current loans. */
    method GetAll() returns (r: seq<Transaction>)
      ensures r == transactions
    {
      r := transactions;
    }

    /** `getOpenByBookId` over the current loans. */
    function GetOpenByBookId(bookId: int): Option<Transaction>
      reads this
    {
      OpenByBookId(transactions, bookId)
    }

    /** `getOpenByMemberId` over the current loans. */
    function GetOpenByMemberId(memberId: int): seq<Transaction>
      reads this
    {
      OpenByMemberId(transactions, memberId)
    }

    method Create(draft: Transaction) returns (created: Transaction)
      modifies this
      ensures transactions == CreateTransaction(old(transactions), draft).items
      ensures created == CreateTransaction(old(transactions), draft).record
    {
      var nextId := NextId(transactions, TransactionId);
      created := draft.(id := nextId);
      transactions := transactions + [created];
    }

    method UpdateStatus(id: int, status: TransactionStatus, returnedAt: Option<string>) returns (r: Result<Transaction>)
      modifies this
      ensures Publishes(UpdateTransactionStatus(old(transactions), id, status, returnedAt), old(transactions), transactions, r)
    {
      var idx := FindIndex(transactions, HasId(id));
      if idx.None? {
        return Err(TransactionNotFound);
      }
      var updated := Stamped(transactions[idx.value], status, returnedAt);
      transactions := transactions[idx.value := updated];
      r := Ok(updated);
    }
  }
}
