/** What a run leaves behind: the lines it echoes, in order, and the
    exception that ended it, if any. Percentages are kept as whole
    hundredths of a percent, the value of a `BigDecimal` of scale 2 times
    100. */
module Report {
  import opened Wrappers

  datatype Line =
    | NoCommitsNotice                                        // "There were no commits for the given arguments", to stderr
    | Searching(author: string)                              // "Finding folders with 1% or greater contributions for <author>"
    | InFolderLine(author: string, percentage: int)          // "<author> writes <p>% of their code in <folders>"
    | Separator                                              // "---"
    | OfFolderLine(author: string, percentage: int)          // "<author> accounts for <p>% of <folders>"
    | BucketLine(author: string, folder: string, percentage: int) // "<author> writes <p>% of their code in <folder>"

  /** The uncaught exceptions a run can end with: `NoSuchElementException`
      from the line iterator and `ArithmeticException` from a `BigDecimal`
      division by zero. */
  datatype Failure = NoSuchElement | DivisionByZero

  datatype Outcome = Outcome(printed: seq<Line>, failure: Option<Failure>)

  /** Rows below 1.00% are not shown. */
  const DisplayFloor := 100
}
