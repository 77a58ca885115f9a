/** What the borrow and return forms lead to when submitted. */
module Forms {
  import opened Models

  /** Nothing (no member in session), every control marked touched (invalid
      form), an error message, or a success message and navigation to the
      book's page. */
  datatype Outcome = Ignored | Touched | Failed(message: string) | Navigated(bookId: int)

  /** The outcome and the two collections after a submission. */
  datatype Step = Step(outcome: Outcome, books: seq<Book>, transactions: seq<Transaction>)
}
