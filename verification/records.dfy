/** The entities the server stores and the client reads back (as JSON rows). */
module Records {
  import opened Common

  /** One multiple-choice item; `answer` is the index of the correct option. */
  datatype Question = Question(text: string, options: seq<string>, answer: int)

  /** A test as the client sees it: questions expanded, `prereq` an optional test id. */
  datatype TestRecord = TestRecord(
    title: string,
    difficulty: string,
    questions: seq<Question>,
    prereq: Option<int>)

  /** One completed attempt; `testTitle` is a snapshot taken when the attempt finished. */
  datatype HistoryRecord = HistoryRecord(
    user: string,
    testId: int,
    testTitle: string,
    score: int,
    date: int)

  /** A table row: the autoincrement id and the remaining columns. */
  datatype Row<+R> = Row(id: int, val: R)
}
