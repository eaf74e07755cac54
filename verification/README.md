# Quiz app core in Dafny

This project models the two pieces of logic at the heart of a small quiz web
application and proves properties about them.

* **The client's quiz logic** (`public/script/script.js`):
  * the walk over a test's questions, with its `(idx, score)` state and the
    record submitted at the end;
  * the home page's "Last" / "Best" summary and the prerequisite lock;
  * the history page's sort comparator, `getColIdx`, header direction
    toggling and the delete buttons;
  * the users page's guards: adding a blank name and deleting the active user.
* **The server's store** (`server.js`): a users table (a set of names) and two
  SQLite `AUTOINCREMENT` tables, `tests` and `history`. Each table is a
  sequence of rows in rowid order together with its `sqlite_sequence` value.
  Every REST handler is one synchronous transition of that store plus the HTTP
  status it answers with. First-start seeding is a transition too.

Modules:

| module | file | contents |
|---|---|---|
| `Common` | common.dfy | `Option`, `Result` |
| `Records` | records.dfy | `Question`, `TestRecord`, `HistoryRecord`, `Row` |
| `Strings` | strings.dfy | JavaScript `trim`, string `<`, `${n}` and unary `+` |
| `Table` | table.dfy | an AUTOINCREMENT table: lookup, insert, update, delete |
| `Codec` | codec.dfy | the stored `questions` text, with its read-back proof |
| `Server` | server.dfy | the store, seeding and every handler |
| `TestSession` | session.dfy | the Next/Finish walk and the submitted record |
| `Home` | home.dfy | last, best and locked |
| `HistoryView` | historyview.dfy | rendered rows, comparator, sort, header toggling, deletes |
| `UserPage` | userpage.dfy | the active user and the two guards |
| `Scenarios` | scenarios.dfy | end-to-end runs on a new database |

Conventions:

* The store invariant is `Server.Valid`. In both AUTOINCREMENT tables, ids
  strictly increase and lie between 1 and the sequence value. Every stored
  `questions` value can be read back.
* A new id is one past the sequence value, as SQLite's AUTOINCREMENT
  allocates it. Ids are therefore never reused, even after deletes. When the
  sequence value is already 2^63 - 1, SQLite fails with SQLITE_FULL. The
  handler then answers 500 and nothing changes. This is the only store error
  the model has.
* Where the browser code throws, the model returns a `Failure` value instead
  of requiring the input away. This covers a prerequisite id with no test
  (`Home.Locked`) and a test with no questions (`TestSession.TakeTest`).

## Model

| member | source | states |
|---|---|---|
| `Codec.RoundTrip` | server.js:79-97 | Decoding the stored text of a question list gives back the same questions: same order, texts, options and answer indices. |
| `Codec.EncodeInjective` | server.js:91 | Different question lists are stored as different texts. |
| `Strings.Trim` | public/script/script.js:306 | The result is the part of the input after its leading white space. It neither starts nor ends with white space. Everything after it is white space. It is empty exactly when the input is all white space. |
| `Strings.LexLessTotal` | public/script/script.js:151 | Of two different strings, one is `<` the other. |
| `Strings.LexLessTransitive` | public/script/script.js:151 | String `<` is transitive. |
| `Strings.ToNumberShowInt` | public/script/script.js:143-146 | Applying unary `+` to the decimal text of an integer gives that integer back. |
| `Table.Lookup` | public/script/script.js:51 | The result is none exactly when no row has the id. Otherwise it is the value of the first row with that id. |
| `Table.Insert` | server.js:21-35 | The new id is one past the sequence value and is used by no existing row. The row is appended and can be looked up. Every other id looks up as before. The table stays well formed. It fails exactly when the id space is exhausted. |
| `Table.Update` | server.js:98-107 | Ids and length are kept, and each row either stays as it was or becomes the row with the id and the new value. Afterwards the id looks up to the new value. Other ids look up as before. A missing id changes nothing. |
| `Table.Remove` | server.js:108-114 | The kept rows are exactly those with a different id. On a table with ascending ids they stay ascending, so they keep the table's order. The id is gone afterwards. Other ids look up as before. The length is unchanged exactly when the id was absent. |
| `Table.RemoveWellFormed` | server.js:28-35 | Deleting rows keeps ids ascending and within the sequence value. |
| `Table.RemoveAt` | server.js:135-145 | With unique ids, deleting the id of row k yields the table without row k, the others in order. |
| `Server.FreshValid` | server.js:17-35 | The empty tables of a new database satisfy the store invariant. |
| `Server.NormalizePrereq` | server.js:91 | `prereq` is stored as none exactly when it is missing or 0. Otherwise it is kept. |
| `Server.ToStored` | server.js:91 | The row written for a request body can always be parsed back. |
| `Server.StoredRoundTrip` | server.js:79-97 | Reading a written row back gives the body with only `prereq` normalised. |
| `Server.Seed` | server.js:37-52 | An empty users table becomes exactly {"Guest"}. An empty tests table gets the sample test under the next id, unless the id space is exhausted, in which case the tests table and its sequence value stay as they were. Non-empty tables and the history are untouched. The invariant is kept. |
| `Server.SeedIdempotent` | server.js:37-52 | Seeding a second time changes nothing. |
| `Server.PostUser` | server.js:62-69 | The name is in the users set afterwards and nothing else changes. An existing name leaves the store as it was. The answer is always 200. |
| `Server.DeleteUser` | server.js:70-76 | The name is removed and nothing else changes. An absent name is a no-op. The answer is always 200. |
| `Server.DecodeRows` | server.js:82 | Parsing succeeds exactly when every row is readable. Then it keeps order and ids, and each row is the parse of the stored one. |
| `Server.GetTests` | server.js:79-85 | On a store that satisfies the invariant, listing the tests always succeeds. |
| `Server.LookupDecoded` | server.js:79-85 | Looking an id up in the listed tests is the same as parsing the stored row with that id. |
| `Server.PostTest` | server.js:86-97 | On success, the answered id is one past the sequence value, the sequence value becomes that id, and the id is unused by any existing row. It looks up to the stored body with `prereq` normalised. Other ids and the other tables are unchanged. It answers 500 exactly when the id space is exhausted, and then nothing changes. |
| `Server.PutTest` | server.js:98-107 | The row with the id gets all four fields from the body. Other ids look up as before. A missing id changes nothing. The answer is always 200. |
| `Server.DeleteTest` | server.js:108-114 | The id is gone and other ids look up as before. A missing id changes nothing. The answer is always 200. |
| `Server.ReadBackAfterPost` | server.js:86-97 | After a successful create, the listed tests hold the new id with the body as sent, `prereq` normalised. |
| `Server.ReadBackAfterPut` | server.js:98-107 | After updating an existing id, the listed tests hold that id with the new body, `prereq` normalised. |
| `Server.PostHistory` | server.js:123-134 | On success, the record is appended under the id one past the sequence value, which is the answer. The sequence value becomes that id, so a deleted id is never answered again. Nothing else changes. It answers 500 exactly when the id space is exhausted, and then nothing changes. |
| `Server.DeleteHistory` | server.js:135-145 | It answers 404 exactly when no row has the id, and then nothing changes. Otherwise it answers 200 and exactly that row is removed, the others kept in order. |
| `Server.DeleteAllHistory` | server.js:146-151 | The history is empty afterwards and the answer is 200. The sequence value and the other tables are untouched. |
| `Server.DeleteAllIdempotent` | server.js:146-151 | Deleting all history twice leaves the same store as deleting it once. |
| `TestSession.Next` | public/script/script.js:258-263 | One activation of the button as written. The index goes up by exactly 1. The score goes up by 1 exactly when the selection equals the answer of the question the handler checks, and otherwise stays the same. After the walk that question is still the last one. `finish` is called exactly when the new index is not below the number of questions, so every activation after the walk calls it again. `score <= idx` is preserved. |
| `TestSession.LabelMatchesStep` | public/script/script.js:249-251 | The button reads "Finish" exactly on the click that ends the walk, and "Next" otherwise. |
| `TestSession.CountStep` | public/script/script.js:259-260 | Counting one more question adds 1 exactly when its selection was correct. |
| `TestSession.ActivationAfterWalk` | public/script/script.js:258-275 | With the handler as written, an activation after the walk calls `finish` again and posts a score. That score is one higher exactly when the selection answers the last question. |
| `TestSession.PostsAfterWalk` | public/script/script.js:258-275 | After the walk, the handler as written posts once per activation. |
| `TestSession.PostedAsWrittenWalk` | public/script/script.js:238-275 | With at least as many activations as questions, the handler as written first posts the number of correct answers, as the corrected `TestSession.TakeTest` does. It then posts once more for each further activation. |
| `TestSession.TakeTest` | public/script/script.js:238-275 | A test without questions fails. Fewer activations than questions post nothing. Otherwise exactly one record is posted, however many further activations follow. It carries the user, the test's id and title, and the time. Its score is the number of questions whose selection equals the answer, between 0 and the question count. Ignoring activations after the walk is the corrected behaviour (see Findings). |
| `Home.UserHist` | public/script/script.js:42 | The filtered list holds exactly the user's attempts on the test, from history. |
| `Home.LastAttempt` | public/script/script.js:43-44 | It finds the position of the user's last attempt on the test, with no attempt after it, or -1 when there is none. |
| `Home.UserHistLast` | public/script/script.js:42-44 | The filtered list is empty exactly when there is no attempt. Otherwise its last element is the last attempt in history order. |
| `Home.Max` | public/script/script.js:46 | The maximum is an element of the list, and no element exceeds it. |
| `Home.Last` | public/script/script.js:43-44 | "—" exactly without an attempt. Otherwise it shows the score of the last attempt in history order out of the question count. |
| `Home.BestScore` | public/script/script.js:45-46 | The best score is some attempt's score, and no attempt scored higher. |
| `Home.Best` | public/script/script.js:45-46 | "—" exactly without an attempt. Otherwise it shows the highest attempt score out of the question count. |
| `Home.Locked` | public/script/script.js:47-53 | Without a prerequisite (missing or 0), the test is unlocked. A prerequisite id that matches no test is an error. Otherwise the test is locked exactly when the user's best on the prerequisite is below its question count, with best 0 when there are no attempts. A score of at least the count unlocks. |
| `Home.EmptyPrereqNeverLocks` | public/script/script.js:47-53 | If scores are non-negative, a prerequisite without questions never locks. |
| `HistoryView.RenderRow` | public/script/script.js:80-91 | A rendered row has five cells. |
| `HistoryView.ColIdx` | public/script/script.js:161-168 | A position is returned exactly for the four column names, and it lies between 1 and 4. |
| `HistoryView.ColIdxPicksField` | public/script/script.js:145-149 | The cell `getColIdx` points at holds the field the column is named after: user, title, score text, date text. |
| `HistoryView.KeyCells` | public/script/script.js:142-150 | Date is read from the row's timestamp, score from the third cell as a number, and user and title from the first and second cells as strings. |
| `HistoryView.KeyOfRendered` | public/script/script.js:142-150 | On a rendered row the keys are the record's timestamp and score as numbers, and its user and title as strings. |
| `HistoryView.KeyLessStrict` | public/script/script.js:151 | Key `<` is irreflexive, asymmetric, total on different keys and transitive. |
| `HistoryView.Compare` | public/script/script.js:140-152 | The comparator returns 0 exactly on equal keys. It is negative exactly when the first row belongs first in the direction. Its values are -1, 0 and 1. |
| `HistoryView.BeforeTotal` | public/script/script.js:151 | Any two rows can be ordered one way or the other. |
| `HistoryView.BeforeTransitive` | public/script/script.js:151 | The comparator's order is transitive. |
| `HistoryView.InsertRow` | public/script/script.js:140-155 | Inserting adds exactly one copy of the row. |
| `HistoryView.InsertOrdered` | public/script/script.js:140-155 | Inserting into an ordered list keeps it ordered. |
| `HistoryView.OrderedKeys` | public/script/script.js:136-156 | In an ordered list, keys are non-decreasing for direction 1 and non-increasing for direction -1. |
| `HistoryView.SortRows` | public/script/script.js:136-156 | The result is a permutation of the rows, ordered by the comparator. With direction 1 the keys are non-decreasing, and with -1 they are non-increasing. |
| `HistoryView.InsertStable` | public/script/script.js:140-155 | Inserting a row keeps the relative order of the rows of every key and puts the new row before those that share its key. |
| `HistoryView.SortStable` | public/script/script.js:140-155 | Rows with equal keys keep their table order, as the stable `Array.prototype.sort` keeps them. Together with `SortRows` this fixes the sorted table. |
| `HistoryView.Toggle` | public/script/script.js:122-129 | Only the clicked header's direction is negated. Only it shows an indicator: ▲ when it had 1, ▼ when it had -1. |
| `HistoryView.Click` | public/script/script.js:122-129 | A click leaves the rows exactly as `SortRows` sorts them with the clicked header's stored direction: ordered, and stable by `HistoryView.SortStable`. It then toggles the headers. |
| `HistoryView.ToggleTwiceRestores` | public/script/script.js:122-129 | Two clicks on one header restore every stored direction. |
| `HistoryView.TogglesFrom` | public/script/script.js:120-129 | After n clicks on one header, its direction is negated exactly when n is odd. |
| `HistoryView.TogglesDir` | public/script/script.js:120-129 | Starting from direction 1 on every header, n clicks leave 1 stored after an even n and -1 after an odd one. |
| `HistoryView.TogglesGlyph` | public/script/script.js:126-128 | A click shows ▲ exactly when the direction it found stored was 1. |
| `HistoryView.ClicksAlternate` | public/script/script.js:120-129 | From the initial headers, the n-th consecutive click on one header sorts ascending and shows ▲ when n is odd, and sorts descending and shows ▼ when n is even. |
| `HistoryView.ClickDeleteCell` | public/script/script.js:105-111 | If the record exists, its row leaves the table and the store loses exactly that record. If the server answers 404, nothing changes. |
| `HistoryView.ClickDeleteAll` | public/script/script.js:114-117 | The store's history and the table body are both empty afterwards. Nothing else in the store changes. |
| `UserPage.CurrentUser` | public/script/script.js:25-27 | The active user is never empty. An unset or empty entry reads as "Guest". |
| `UserPage.SubmitAddUser` | public/script/script.js:304-311 | A name that is all white space changes nothing. Otherwise the trimmed name is added and becomes the active user. |
| `UserPage.ClickDeleteUser` | public/script/script.js:313-317 | The page warns exactly when the name is the active user, and then nothing changes. Any other name is removed from the users. The active user stays in the users set. |
| `Scenarios.SeededStore` | server.js:37-52 | A new database after start-up holds the user "Guest", the sample test under id 1 and no history. |
| `Scenarios.SeededTests` | server.js:79-85 | Listing the tests of a new database gives the sample test, parsed back, under id 1. |
| `Scenarios.SampleAnswersScoreTwo` | public/script/script.js:259-260 | Answers 3 then 0 score 2 on the sample test. No selection and then 0 score 1. |
| `Scenarios.RepeatedFinishOverscores` | public/script/script.js:258-275 | With the handler as written, answering 3 and 0 on the sample test and then activating Finish once more, with 0 still checked, posts the scores 2 and 3. The second exceeds the test's two questions. |
| `Scenarios.TakeSampleTest` | public/script/script.js:266-275 | Guest takes the sample test on a new database and gets 2/2. The history then holds exactly that record under id 1, and last and best both show 2/2. |
| `Scenarios.SingleAttempt` | public/script/script.js:42-46 | With one attempt on record, last and best are both its score. |
| `Scenarios.DeleteUnknownHistory` | server.js:135-145 | Deleting an unknown history id on a new database answers 404. |
| `Scenarios.PrerequisiteNotMet` | public/script/script.js:47-53 | A best of 1 on a two-question prerequisite locks the dependent test. |

## Left out

- DOM construction (`innerHTML`), event wiring, the menu toggle, the result modal, `location` navigation and reloads: page plumbing. The history table body is a sequence of rendered rows (`HistoryView.DomRow`). The Next/Finish handler sees the selection made on each question as a parameter.
- `fetch`/`fetchJSON`, Express routing and the sqlite3 driver's asynchronous callbacks: I/O. Each handler is a synchronous function of the store. The client's "throw on a non-2xx answer" is modelled only where it matters: a 404 on a history delete leaves the table body as it was.
- `GET /api/users` and `GET /api/history` are not separate functions. They return the store's `users` and `history` fields as they are.
- JSON text: `JSON.stringify`/`JSON.parse` of `questions` are replaced by a token encoding with a proved read-back (`Codec`). The JSON grammar is not modelled.
- `localStorage` is the `stored` parameter of `UserPage`. `Date.now()` is the `now` parameter of `TestSession.TakeTest`. `toLocaleString` is the `locale` parameter of `HistoryView.RenderRow`. The elapsed time shown at the end is not modelled.
- Store errors other than an exhausted id space (disk, locking, constraint failures) and concurrency between requests.
- The settings page (`renderSettings`, `startEdit`, `deleteTest`) and `switchUser`: outside this core. The handlers they call are modelled.
- Route parameters arrive as strings, and SQLite coerces `:id` to an integer. The model takes the id as an integer. URL encoding of `:u` is not modelled.
- JavaScript numbers are doubles. Ids, scores and timestamps are unbounded integers here, so behaviour beyond 2^53 is not modelled.
- `Strings.LexLess` compares characters by code point. JavaScript compares UTF-16 code units, which differ only for characters outside the Basic Multilingual Plane.
- `Strings.ToNumber` is specified only on the decimal text `Strings.ShowInt` writes (`Strings.ToNumberShowInt`). On other text it gives some integer, where JavaScript gives NaN. The comparator only ever applies unary `+` to the decimal text of an integer, so the rest of JavaScript's number grammar is left out.
- `HistoryView.SortRows`: `Array.prototype.sort` is modelled by an insertion sort with the same comparator. Both are stable, so rows with equal keys keep their table order (`HistoryView.SortStable`), and the result is the one the browser produces.
- `HistoryView.KeyOfRendered`: the user and title keys are the record's raw strings. The page interpolates them into `innerHTML` and compares their `innerText`. Markup inside a name is therefore parsed away, and runs of white space collapse, in the browser but not in the model. HTML parsing and CSS white-space rules are outside this model.
- `HistoryView.KeyLess`: a column always yields one kind of key, so the number-versus-string case never arises. The model orders it arbitrarily to make the order total.
- On `GET /api/tests`, a stored `questions` value that does not parse makes `JSON.parse` throw inside the driver callback. Nothing catches it, so no response is sent. The model returns `None` (`Server.DecodeRows`). Under the store invariant this case cannot occur.
- Sort headers keep one stored direction each, and nothing resets it. Clicking one header leaves every other header's stored direction as it was (`HistoryView.Toggle`). The n-th consecutive click on one header sorts ascending when n is odd and descending when n is even (`HistoryView.ClicksAlternate`). An even number of clicks therefore ends on a descending sort, not an ascending one.

## Findings

| source | as written | input that shows it | evidently intended | confidence | as-written member | corrected member |
|---|---|---|---|---|---|---|
| public/script/script.js:258-280 | `finish` neither clears the question container nor detaches the Next/Finish handler. Each further activation of the Finish button re-scores the last question, increments `idx` and calls `finish` again, which posts another history record. | The sample test: choose 3, Next, choose 0, Finish, then activate Finish again (for example Enter on the focused button). The records posted score 2 and then 3, out of 2 questions. | The walk ends at Finish: later activations change nothing and post nothing, so exactly one record is posted, with a score of at most the question count. | medium; not executed | `Scenarios.RepeatedFinishOverscores` | `TestSession.TakeTest` |
