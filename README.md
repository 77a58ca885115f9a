# Library management: a Dafny model of the stores and the workflows

The library app keeps three in-memory collections: books, members and loans
(transactions). Each collection lives in a store service that reads it whole
or by id, `create`s a record under the next free id, and `update`s the first
record with a given id. The book store also has `borrow` and `return`, which
take a copy away and give one back. A demo session holds at most one member
id. Three forms compose these operations:

- **borrow** a copy and record a BORROWED loan;
- **return** a loan's copy and mark the loan RETURNED;
- **log in** as an active member.

Two pure helpers complete the core: the catalog search (trim, lower-case,
substring match on four fields) and the `YYYY-MM-DD` date formatter.

The model has one Dafny module per source file, plus shared modules.

**Stores** (`Books`, `Members`, `Transactions`):
- Each store is a class whose `seq` field is the cached array.
- Each store method is proved equal to a pure function of the old array: `CreateBook`, `UpdateBook`, `BorrowBook`, `ReturnBook`, and the others.
- Those functions carry the properties: the id rule, first-match replacement, error cases, and "nothing else changes".
- Lemmas prove the store invariants. Ids stay unique, and stay increasing under `create`. Under `borrow` and `return`, every book keeps `0 <= availableCopies <= totalCopies`. `create` and `update` write whatever copy counts they are given, so they can break it.

**Auth** models the session signal as `Option<int>`.

**Workflow modules** (`Borrowing`, `Returning`, `MemberLogin`):
- Each states its `submit`/`login` as a pure effect: an outcome value plus the new collections.
- A method that calls the service objects in source order is proved to produce exactly that effect.

**`Lifecycle`** proves the borrow-then-return scenario end to end.

**Shared modules:**
- `Seqs` holds `find`, `findIndex`, `filter` and `Math.max(0, ...ids) + 1`, each with its contract.
- `Dates` holds the Gregorian calendar, `toIsoDate` and its parse-back.
- `Catalog` holds the search.

## Where the model follows the code over the written description

The return form looks up the chosen transaction id among **all** loans
(src/app/features/return/return-book/return-book.ts:82). It does not restrict
the lookup to the member's open loans. So an id that is not in the open list
does not necessarily fail:
- a loan that is already RETURNED is found;
- a loan of another member is found;
- in both cases the book is handed back again, clamped at `totalCopies`.

The model follows the code. `Returning.SubmitEffect` states success for any
loan whose id is found and whose book exists.

## Model

| member | source | states |
|---|---|---|
| Seqs.FindIndex | src/app/core/services/book.ts:38 | `findIndex` returns the first position whose element satisfies the predicate, or none exactly when no element does |
| Seqs.Find | src/app/core/services/book.ts:53 | `find` returns the element at the first matching position, or none exactly when nothing matches |
| Seqs.Filter | src/app/core/services/transaction.ts:31-34 | `filter` keeps exactly the elements that satisfy the predicate, each as many times as it occurs in the input, as a subsequence of the input in its order |
| Seqs.MaxId | src/app/core/services/book.ts:26 | `Math.max(0, ...ids)` is at least 0, bounds every id, and is 0 or one of the ids |
| Seqs.NextId | src/app/core/services/book.ts:26 | the next id is `max(0, ids) + 1`: at least 1, above every existing id, 1 for an empty collection, and otherwise one more than an existing id |
| Seqs.AppendNextIdKeepsIncreasing | src/app/core/services/book.ts:26-28 | appending the record that received the next id keeps ids strictly increasing |
| Seqs.AppendNextIdKeepsUnique | src/app/core/services/book.ts:26-28 | appending the record that received the next id keeps ids unique |
| Seqs.ReplaceSameIdKeepsUnique | src/app/core/services/book.ts:40-42 | writing a record with the same id over one position keeps ids unique |
| Seqs.FindAfterFilter | src/app/core/services/transaction.ts:21-23 | `filter(p).find(q)` finds the first element satisfying both `p` and `q` |
| Seqs.FilterFilter | src/app/core/services/transaction.ts:31-33 | `filter(p).filter(q)` is the single filter by `p && q` |
| Books.IndexOf | src/app/core/services/book.ts:38 | the first position holding a book with the id, or none exactly when no book has it |
| Books.Patched | src/app/core/services/book.ts:40 | `{ ...book, ...patch, id }`: each property the patch carries wins, the others are the book's, and the id is the argument even when the patch carries another |
| Books.CreateBook | src/app/core/services/book.ts:22-32 | the new book is the draft with the id `max(0, ids) + 1`, so above every existing id (1 when empty), appended after all earlier books unchanged |
| Books.UpdateBook | src/app/core/services/book.ts:34-47 | fails with "Book not found" exactly when no book has the id; otherwise only the first book with the id is replaced by the patched book, and the result is that book |
| Books.BorrowBook | src/app/core/services/book.ts:49-59 | "Book not found" exactly when the id is absent; "No copies available" when the first such book has `availableCopies <= 0`; otherwise that book's copies drop by exactly one and nothing else changes |
| Books.ReturnedCopies | src/app/core/services/book.ts:67 | the new count is `min(totalCopies, availableCopies + 1)`: never above the total, at most one more than before, and equal to one of the two |
| Books.ReturnBook | src/app/core/services/book.ts:61-71 | fails with "Book not found" exactly when the id is absent; otherwise only the first book with the id gets the clamped count, which never exceeds `totalCopies` |
| Books.BorrowKeepsCopiesInRange | src/app/core/services/book.ts:55-56 | if every book has `0 <= availableCopies <= totalCopies`, it still holds after a successful borrow |
| Books.ReturnKeepsCopiesInRange | src/app/core/services/book.ts:67-68 | if every book has `0 <= availableCopies <= totalCopies`, it still holds after a successful return |
| Books.BorrowThenReturn | src/app/core/services/book.ts:53-56 | for a book with a copy on the shelf and none missing from the total, borrow then return gives back the original collection |
| Books.CreateKeepsIdsIncreasing | src/app/core/services/book.ts:26-28 | `create` keeps book ids strictly increasing |
| Books.CreateKeepsIdsUnique | src/app/core/services/book.ts:26-28 | `create` keeps book ids unique |
| Books.UpdateKeepsIdsUnique | src/app/core/services/book.ts:40-43 | `update` keeps book ids unique, because the id is forced back to the argument |
| Books.BorrowKeepsIdsUnique | src/app/core/services/book.ts:53-56 | a successful `borrow` keeps book ids unique |
| Books.ReturnKeepsIdsUnique | src/app/core/services/book.ts:65-68 | a successful `return` keeps book ids unique |
| Books.BookService.constructor | src/app/core/services/book.ts:73-83 | the store starts from the seed collection that the first load would cache |
| Books.BookService.GetAll | src/app/core/services/book.ts:14-16 | `getAll` returns the current books |
| Books.BookService.GetById | src/app/core/services/book.ts:18-20 | `getById` returns the first book with the id, or none exactly when no book has it |
| Books.BookService.Create | src/app/core/services/book.ts:22-32 | the store's new array and the emitted book are those of `CreateBook` |
| Books.BookService.Update | src/app/core/services/book.ts:34-47 | the store publishes `UpdateBook`: on failure it emits the error and keeps the array; on success it emits the book and replaces the array |
| Books.BookService.Borrow | src/app/core/services/book.ts:49-59 | the store publishes `BorrowBook`, reached through `update` as the source does |
| Books.BookService.Return | src/app/core/services/book.ts:61-71 | the store publishes `ReturnBook`, reached through `update` as the source does |
| Members.IndexOf | src/app/core/services/member.ts:38 | the first position holding a member with the id, or none exactly when no member has it |
| Members.Patched | src/app/core/services/member.ts:40 | each property the patch carries wins, the others are the member's, and the id is the argument |
| Members.CreateMember | src/app/core/services/member.ts:22-32 | the new member is the draft with the id `max(0, ids) + 1`, so above every existing id (1 when empty), appended after all earlier members unchanged |
| Members.UpdateMember | src/app/core/services/member.ts:34-47 | fails with "Member not found" exactly when no member has the id; otherwise only the first member with the id is replaced by the patched member |
| Members.CreateKeepsIdsIncreasing | src/app/core/services/member.ts:26-28 | `create` keeps member ids strictly increasing |
| Members.CreateKeepsIdsUnique | src/app/core/services/member.ts:26-28 | `create` keeps member ids unique |
| Members.UpdateKeepsIdsUnique | src/app/core/services/member.ts:40-43 | `update` keeps member ids unique |
| Members.MemberService.constructor | src/app/core/services/member.ts:49-59 | the store starts from the seed collection |
| Members.MemberService.GetAll | src/app/core/services/member.ts:14-16 | `getAll` returns the current members |
| Members.MemberService.GetById | src/app/core/services/member.ts:18-20 | `getById` returns the first member with the id, or none exactly when no member has it |
| Members.MemberService.Create | src/app/core/services/member.ts:22-32 | the store's new array and the emitted member are those of `CreateMember` |
| Members.MemberService.Update | src/app/core/services/member.ts:34-47 | the store publishes `UpdateMember` |
| Transactions.OpenByBookId | src/app/core/services/transaction.ts:18-26 | the first loan, in collection order, of the book that is BORROWED or OVERDUE; none exactly when there is no such loan |
| Transactions.OpenByMemberId | src/app/core/services/transaction.ts:28-37 | exactly the member's BORROWED or OVERDUE loans, each as many times as it occurs, in collection order; never a RETURNED one |
| Transactions.CreateTransaction | src/app/core/services/transaction.ts:39-49 | the new loan is the draft with the id `max(0, ids) + 1`, so above every existing id (1 when empty), appended after all earlier loans unchanged |
| Transactions.Stamped | src/app/core/services/transaction.ts:57 | the status is the argument; `returnedAt` is the argument when given and the old value otherwise; every other field is kept |
| Transactions.UpdateTransactionStatus | src/app/core/services/transaction.ts:51-64 | fails with "Transaction not found" exactly when no loan has the id; otherwise only the first loan with the id is stamped |
| Transactions.ReturnedLoanIsClosed | src/app/core/services/transaction.ts:21-23 | with unique ids, a loan marked RETURNED is in no member's open list and is no book's open loan |
| Transactions.CreateKeepsIdsIncreasing | src/app/core/services/transaction.ts:43-45 | `create` keeps loan ids strictly increasing |
| Transactions.CreateKeepsIdsUnique | src/app/core/services/transaction.ts:43-45 | `create` keeps loan ids unique |
| Transactions.UpdateStatusKeepsIdsUnique | src/app/core/services/transaction.ts:57-60 | `updateStatus` keeps loan ids unique |
| Transactions.TransactionService.constructor | src/app/core/services/transaction.ts:66-76 | the store starts from the seed collection |
| Transactions.TransactionService.GetAll | src/app/core/services/transaction.ts:14-16 | `getAll` returns the current loans |
| Transactions.TransactionService.Create | src/app/core/services/transaction.ts:39-49 | the store's new array and the emitted loan are those of `CreateTransaction` |
| Transactions.TransactionService.UpdateStatus | src/app/core/services/transaction.ts:51-64 | the store publishes `UpdateTransactionStatus` |
| Auth.AuthService.constructor | src/app/core/auth/auth.ts:8 | the session starts as `null`, so not logged in |
| Auth.AuthService.Login | src/app/core/auth/auth.ts:10-12 | the session holds the id whatever it held before, and `isLoggedIn` is then true |
| Auth.AuthService.Logout | src/app/core/auth/auth.ts:14-16 | the session is `null`, and `isLoggedIn` is then false |
| Auth.AuthService.IsLoggedIn | src/app/core/auth/auth.ts:18-20 | `isLoggedIn` is true exactly when the session id is not `null`, 0 included |
| Auth.SessionMember | src/app/features/borrow/borrow-book/borrow-book.ts:67 | the forms' falsy guard lets a session through exactly when it holds an id other than 0 |
| Catalog.TrimStart | src/app/features/books/book-list/book-list.ts:44 | drops exactly the leading white space: the result is a suffix, what was dropped is all white space, and the result does not start with white space |
| Catalog.TrimEnd | src/app/features/books/book-list/book-list.ts:44 | drops exactly the trailing white space |
| Catalog.Trim | src/app/features/books/book-list/book-list.ts:44 | `trim` gives a slice of the term with only white space outside it, and neither end of the result is white space |
| Catalog.ToLower | src/app/features/books/book-list/book-list.ts:44 | same length, each character lower-cased |
| Catalog.Includes | src/app/features/books/book-list/book-list.ts:48-51 | `includes` is true exactly when the key occurs at some position |
| Catalog.SearchKey | src/app/features/books/book-list/book-list.ts:44-45 | the key is empty exactly when the term is all white space |
| Catalog.Search | src/app/features/books/book-list/book-list.ts:43-53 | an empty key gives the list unchanged; otherwise the result is a subsequence of the books, every result matches in title, author, genre or ISBN, and every matching book is returned as many times as it occurs |
| Catalog.TrimStartToLower | src/app/features/books/book-list/book-list.ts:44 | trimming the start commutes with lower-casing |
| Catalog.TrimEndToLower | src/app/features/books/book-list/book-list.ts:44 | trimming the end commutes with lower-casing |
| Catalog.ToLowerIdempotent | src/app/features/books/book-list/book-list.ts:44 | lower-casing twice is lower-casing once |
| Catalog.KeyIgnoresCase | src/app/features/books/book-list/book-list.ts:44 | a lower-cased term gives the same key |
| Catalog.SearchIgnoresCase | src/app/features/books/book-list/book-list.ts:44-52 | searching for the lower-cased term gives the same books |
| Catalog.TrimStartSpacePrefix | src/app/features/books/book-list/book-list.ts:44 | leading white space added to a string is trimmed away |
| Catalog.TrimEndSpaceSuffix | src/app/features/books/book-list/book-list.ts:44 | trailing white space added to a string is trimmed away |
| Catalog.SearchIgnoresSurroundingSpace | src/app/features/books/book-list/book-list.ts:44-52 | surrounding the term with white space gives the same books |
| Dates.NatToString | src/app/features/borrow/borrow-book/borrow-book.ts:112-115 | `String(n)` is a non-empty string of decimal digits with no leading zero ("0" for 0), at least two long from 10 on |
| Dates.NatToStringRoundTrip | src/app/features/borrow/borrow-book/borrow-book.ts:112 | the digits `String(n)` writes read back as `n` |
| Dates.PadStart2 | src/app/features/borrow/borrow-book/borrow-book.ts:113-114 | `padStart(2, '0')` leaves two or more characters alone and left-fills shorter text with '0' to length two |
| Dates.TwoDigitsRoundTrip | src/app/features/borrow/borrow-book/borrow-book.ts:113-114 | a month or day from 1 to 99 pads to two digits that read back as itself |
| Dates.ToIsoDate | src/app/features/borrow/borrow-book/borrow-book.ts:111-116 | a valid date is written as the year's digits, '-', two month digits, '-', two day digits |
| Dates.IsoDateRoundTrip | src/app/features/borrow/borrow-book/borrow-book.ts:111-116 | `toIsoDate` loses nothing: its text reads back as the date, with the 0-based month written plus one |
| Dates.NextDay | src/app/features/borrow/borrow-book/borrow-book.ts:107 | the next calendar day is a valid date whose day number is one more |
| Dates.AddDays | src/app/features/borrow/borrow-book/borrow-book.ts:107 | `setDate(getDate() + n)` gives a valid date whose day number is `n` more |
| Dates.DefaultDueDate | src/app/features/borrow/borrow-book/borrow-book.ts:105-109 | the default due date is a valid date 14 days after today |
| Borrowing.InitialForm | src/app/features/borrow/borrow-book/borrow-book.ts:46-55 | the form opens with no book chosen and the due date 14 days after today |
| Borrowing.FormValid | src/app/features/borrow/borrow-book/borrow-book.ts:46-55 | the form is valid exactly when both required controls, the book and the due date, hold a value |
| Borrowing.AvailableBooks | src/app/features/borrow/borrow-book/borrow-book.ts:57 | exactly the books with a copy left are offered, each as many times as it occurs, in catalog order |
| Borrowing.SubmitEffect | src/app/features/borrow/borrow-book/borrow-book.ts:66-103 | nothing happens without a truthy session id; an invalid form only marks the controls touched; a failed borrow changes nothing and reports `borrow`'s own error; otherwise the book loses one copy and a BORROWED loan with the book, the member, today and the formatted due date is appended under the id `max(0, ids) + 1` |
| Borrowing.BorrowOpensLoan | src/app/features/borrow/borrow-book/borrow-book.ts:82-88 | after a successful borrow the new loan is in the member's open list |
| Borrowing.BorrowKeepsBooksInRange | src/app/features/borrow/borrow-book/borrow-book.ts:79 | the borrow form keeps every book's copies within `0..totalCopies` |
| Borrowing.Submit | src/app/features/borrow/borrow-book/borrow-book.ts:66-103 | the form's calls on the session, the book store and the loan store produce exactly `SubmitEffect` |
| Returning.LastWithId | src/app/features/return/return-book/return-book.ts:56-58 | the id map keeps the last book with each id; none exactly when no book has the id |
| Returning.LastWithIdIsFirst | src/app/features/return/return-book/return-book.ts:56-58 | with unique ids the map finds the same book as `getById` |
| Returning.OpenRows | src/app/features/return/return-book/return-book.ts:41-61 | no rows while the session is `null`; otherwise one row per open loan of the member, in order, each with the last book carrying its book id (the `Map` lookup), or none when no book has that id |
| Returning.SubmitEffect | src/app/features/return/return-book/return-book.ts:68-98 | nothing happens without a truthy session id; a form without an id only marks it touched; an id found in no loan fails with "Transaction not found" and changes nothing; a loan whose book is missing fails with "Book not found" and changes nothing; otherwise the book gets a copy back and the first loan with the id becomes RETURNED on today's date |
| Returning.ReturnKeepsBooksInRange | src/app/features/return/return-book/return-book.ts:85 | the return form keeps every book's copies within `0..totalCopies` |
| Returning.Submit | src/app/features/return/return-book/return-book.ts:68-98 | the form's calls on the session and both stores produce exactly `SubmitEffect` |
| MemberLogin.RedirectTarget | src/app/features/members/members/members.ts:35 | the redirect target is the query parameter, or `/books` when it is missing |
| MemberLogin.FormValid | src/app/features/members/members/members.ts:41-46 | the form is valid exactly when the member id is given and at least 1 |
| MemberLogin.LoginEffect | src/app/features/members/members/members.ts:48-69 | an invalid form only marks the control touched; the session becomes the member's id exactly when the first member with the id exists and is active; an absent or inactive member sets `invalidMember` and leaves the session as it was |
| MemberLogin.Login | src/app/features/members/members/members.ts:48-69 | the login's calls produce exactly `LoginEffect`, and the session is set before any redirect |
| Lifecycle.BorrowThenReturnLoan | src/app/features/return/return-book/return-book.ts:78-92 | borrowing a book with a copy left and then returning the new loan restores the books and leaves the loan RETURNED on the return day |
| Lifecycle.ReturnNewestLoan | src/app/features/return/return-book/return-book.ts:82-87 | returning the most recent loan closes it in place and publishes the book store's answer |

## Left out

- The first load in `ensureLoaded` is not modelled. The HTTP fixture fetch and its one-shot cache become the seed passed to each store's constructor.
- RxJS plumbing (`switchMap`, `combineLatest`, `take`, subscriptions) is not modelled. Each call is a synchronous function or method returning a `Result`.
- Snackbar messages and router navigation become outcome values: an error message, or navigation to a book id or URL.
- `markAllAsTouched` and `setErrors` are reduced to the `Touched` and `InvalidMember` outcomes.
- `new Date()` and the local time zone are left out. Today is a parameter, a year/0-based-month/day triple in the proleptic Gregorian calendar, with years from 0 on.
- `toIsoDate` is defined twice in the source, at borrow-book.ts:111-116 and return-book.ts:100-105. Both copies are the single `Dates.ToIsoDate`.
- JavaScript numbers are unbounded integers here. `Number(...)` conversions, fractional ids and NaN are not modelled.
- `toLowerCase` is ASCII-only, so Unicode case mapping is not modelled. `trim` uses the full JavaScript white-space and line-terminator set.
- The transaction store's `create` cannot fail here. So the source's no-rollback path, where the copy stays taken after a failed `create` (borrow-book.ts:94-96), has no model counterpart. On the return side, the loan was just found in the same collection, so `updateStatus` cannot fail after `return`. No partial-return state arises in this sequential model.
- A patch that sets a required property to `undefined` is not modelled. Patches carry a value or leave the property out; only optional properties may be patched to `undefined`.
- `selectedBook$`, `member$`, `selectedTx$` and `loggedInMember$` are not part of this model. They are display lookups with no effect on state.
- `TransactionService.GetOpenByBookId` and `GetOpenByMemberId` only delegate. Their contracts are those of `Transactions.OpenByBookId` and `Transactions.OpenByMemberId`.
- The routing table, navbar, book detail view and `memberGuard` are not part of this model. They hold no logic of their own.
