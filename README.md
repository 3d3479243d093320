# Answer-sheet server: answer-key import, scoring, result upsert and role-gated sessions

This project models the core of an exam-management web server (`server.js`):
teachers upload a question paper as a flat text file of `question|answer`
lines, students submit answers to a paper, and the server scores the
submission against the stored answer key and records one result per
(roll number, paper). Access to these routes is gated by a role stored in
the server-side session, which the sign-in handler fills in.

The model has five modules:

- `Text` — the JavaScript string operations the handlers use:
  `trim` (with the ECMAScript white-space and line-terminator set written
  out), `split` on one character (with its inverse `Join`), an ASCII
  `toLowerCase`, and the decimal rendering of an index in
  `` `marks_${index}` ``.
- `AnswerKey` — the parser of `POST /add-paper`
  (`split('\n')`, then `trim().split('|')` per line, then keep the lines
  with exactly two fields), an index-based description of which lines are
  kept, and the writer `Render` that it inverts.
- `Access` — `verifyRole` as a function from the required role, the
  optional custom message and the session's role to one of three
  outcomes, and the `Response` type of the handlers.
- `Scoring` — the match rule (`userAnswer && trim/lower equal`), the
  total as a function `Score` of the answers in id order, and the
  `forEach` accumulator as the method `ComputeTotal` proved equal to it.
- `Store` — the database tables (`users`, `papers`, `questions`,
  `results`) and the serial counters as fields of a class `App`, the
  session as a class `Session`, and the handlers `POST /signin`,
  `GET /signin`, `POST /evaluate/:paperId` and `POST /add-paper` as methods
  that change them. SQL queries become functions over the tables
  (`UserByEmail`, `QuestionsOf`, `ResultsFor`, `SetMarks`); `App.Valid()`
  holds the table constraints (unique emails, unique
  (roll_number, paper_id) in results, serial ids).

Values that JavaScript may leave `undefined`/`null` are modelled by
`Access.Value` (`Absent` or `Text(s)`), with the source's truthiness:
absent and the empty string are false. `bcrypt.compare` is the
function-typed parameter `compare` of `PostSignin`. The uploaded file is
given to `PostAddPaper` as its text (`None` when no file came), and the
request body of `POST /evaluate/:paperId` as a map from field name to
string, with `roll_no` as a separate parameter.

Behaviour of the code that the model keeps and a reader might not expect:

- Evaluation checks for an empty question list before it looks the paper
  up, so a missing paper with no questions answers "No questions found for
  this paper.", never "Paper not found.".
- The result row is keyed by the `roll_no` of the request body, not by the
  session's roll number, and nothing checks that it is a registered
  student; `PostEvaluate` states the row it writes in terms of that
  parameter.
- The questions-to-papers foreign key is not part of `App.Valid()`, so the
  "Paper not found." exit stays reachable in the model as in the code;
  `App.QuestionsHavePapers()` states the key, `PostAddPaper` keeps it, and
  `App.PaperOfQuestionsExists` shows that under it that exit is never
  taken.
- A failed sign-in leaves an existing session's role in place (it only
  sets `error`), and a successful one leaves a pending `error` in place.

## Model

| member | source | states |
|---|---|---|
| `Access.VerifyRole` | server.js:41-53 | 401 with "Unauthorized: Please log in." iff the session role is missing or empty; 403 iff a role is present and differs from the required one; `next` iff it equals it |
| `Access.GuardOutcomesExclusive` | server.js:41-53 | exactly one of the three outcomes happens, each with its condition |
| `Access.ForbiddenMessageChoice` | server.js:47-49 | a 403 carries the route's message when it is non-empty, otherwise "Forbidden: Access denied." |
| `Access.GuardAdmitsOnlyRequiredRole` | server.js:43-51 | the guard passes exactly when the session role equals the required role and that role is non-empty |
| `Text.Trim` | server.js:268 | JavaScript `trim`; its contract is carried by `TrimStartShape`, `TrimEndShape` and `TrimIsCore` |
| `Text.Lower` | server.js:268 | `toLowerCase` on ASCII: same length, each character lowered on its own |
| `Text.Split` | server.js:311-312 | `split` on one character gives at least one field; the full contract is `SplitShape` |
| `Text.TrimStartShape` | server.js:312 | leading trim returns a suffix that does not start with white space, having dropped only white space |
| `Text.TrimEndShape` | server.js:312 | trailing trim returns a prefix that does not end with white space, having dropped only white space |
| `Text.TrimIsCore` | server.js:268 | `trim` returns the slice between leading and trailing white space, and that slice has no white space at either end |
| `Text.TrimPadded` | server.js:268 | white space added around a text does not change its trimmed form |
| `Text.TrimIdempotent` | server.js:268 | trimming twice equals trimming once |
| `Text.SplitShape` | server.js:311-312 | `split(d)` gives one more field than `d` occurs, no field contains `d`, and joining the fields with `d` gives the text back |
| `Text.SplitJoin` | server.js:311-312 | splitting the join of separator-free fields gives those fields back |
| `Text.NatToStringInjective` | server.js:266 | distinct indices render to distinct decimal strings |
| `AnswerKey.LinePairs` | server.js:312-313 | the per-line `trim().split('\|')` and length-2 filter; see `LinePairsIff` |
| `AnswerKey.ParseLines` | server.js:311-313 | the map and filter over the lines; see `ParseKeepsWellFormedLines` and `ParseLinesAppend` |
| `AnswerKey.Parse` | server.js:310-313 | no parsed question or answer contains a line break |
| `AnswerKey.LinePairsIff` | server.js:312-313 | a line yields a pair iff, after trimming, it holds exactly one `\|`; the pair is the text before and after it |
| `AnswerKey.ParseLinesAppend` | server.js:310-313 | the parse of concatenated line lists is the concatenation of their parses (order is kept) |
| `AnswerKey.KeptIndices` | server.js:313 | the kept line indices are increasing, all well formed, and include every well-formed line |
| `AnswerKey.ParseKeepsWellFormedLines` | server.js:310-313 | the k-th pair is the pair of the k-th well-formed line, and there are as many pairs as well-formed lines |
| `AnswerKey.ParseRender` | server.js:310-313 | writing pairs free of bars and line breaks (question not starting, answer not ending in white space) as a key file and parsing it gives the same pairs in order |
| `AnswerKey.ExampleFile` | server.js:310-313 | `"2+2\|4\n3+3\|6\nbadline\n"` parses to (2+2, 4), (3+3, 6) |
| `Scoring.Matches` | server.js:268 | the `userAnswer && trim/lower equal` test; see `MatchIgnoresCaseAndPadding`, `ParisExample` and `BlankSubmissionMatchesEmptyAnswer` |
| `Scoring.Score` | server.js:265-271 | the total after the loop; it is m·`Matched`, see `ScoreIsMatchedTimesMarks` |
| `Scoring.MarksKeyInjective` | server.js:266 | distinct question indices read distinct body fields |
| `Scoring.ComputeTotal` | server.js:265-271 | the accumulator loop returns `Score` of the answers, marks per question and body |
| `Scoring.ScoreIsMatchedTimesMarks` | server.js:265-271 | the total is marks per question times the number of matched questions, which is at most the number of questions |
| `Scoring.ScoreBounds` | server.js:265-271 | with k questions and m ≥ 0, 0 ≤ total ≤ k·m |
| `Scoring.ScoreAllMatched` | server.js:265-271 | if every question's field matches, the total is k·m |
| `Scoring.ScoreNoneMatched` | server.js:265-271 | if no field matches, the total is 0 |
| `Scoring.ScoreReadsOnlyMarksFields` | server.js:266 | two bodies that agree on `marks_0` .. `marks_{k-1}` score the same |
| `Scoring.ScoreOneField` | server.js:266-269 | changing `marks_i` changes the total by exactly the change in question i's award |
| `Scoring.ScoreIgnoresUnanswered` | server.js:268 | a missing or empty `marks_i` earns 0, and the total does not depend on question i's stored answer |
| `Scoring.ScoreByAwards` | server.js:265-271 | answer keys of one length whose questions earn the same awards give the same total |
| `Scoring.NormalizeIsTrimOfLower` | server.js:268 | trim-then-lower equals lower-then-trim |
| `Scoring.MatchIgnoresCaseAndPadding` | server.js:268 | non-empty submissions differing in letter case or surrounding white space are judged alike |
| `Scoring.ParisExample` | server.js:268 | `"Paris "` and `"paris"` both match the stored answer `"Paris"` |
| `Scoring.BlankSubmissionMatchesEmptyAnswer` | server.js:268 | a blank submission `" "` matches an empty stored answer while an empty submission does not |
| `Scoring.ExampleSubmission` | server.js:265-271 | answers (4, 6), 5 marks each, submission {marks_0: 4, marks_1: 7} scores 5 |
| `Store.UserByEmail` | server.js:210-211 | `rows[0]` of the email lookup; see `UserByEmailFinds` |
| `Store.UserByEmailFinds` | server.js:210-213 | with unique emails `rows[0]` is the one user with the email, and there is none iff no user has it |
| `Store.QuestionsOf` | server.js:243-246 | the paper's question rows; see `QuestionsOfOrdered` |
| `Store.QuestionsOfOrdered` | server.js:243-246 | the selected questions are exactly the paper's rows, in ascending id order |
| `Store.ImportedQuestionsReadBack` | server.js:321-323 | an imported paper's questions read back as exactly the inserted rows, whose questions and answers are its parsed pairs in file order |
| `Store.ImportKeepsOtherPapers` | server.js:321-323 | importing a paper leaves every other paper's questions unchanged |
| `Store.ImportKeepsSerialIds` | server.js:315-323 | the inserted rows keep ids positive, increasing and below the counter |
| `Store.ResultsFor` | server.js:273-276 | the rows with a (roll_number, paper_id) key; see `ResultsForUnique` and `SetMarksSelects` |
| `Store.SetMarks` | server.js:279-282 | the update keeps every row's key and gives the new marks to exactly the rows with the key |
| `Store.ResultsForUnique` | server.js:273-276 | with a unique key the lookup finds at most one row |
| `Store.SetMarksSelects` | server.js:279-282 | after the update the key's rows hold the new marks and other keys' rows are unchanged |
| `Store.UpdateExisting` | server.js:278-282 | updating an existing key leaves exactly one row for it, with the new marks, keeps keys unique and other keys' rows unchanged |
| `Store.InsertAbsent` | server.js:283-287 | inserting an absent key leaves exactly one row for it, keeps keys unique and other keys' rows unchanged |
| `Store.Session.constructor` | server.js:29 | a new session has no role, roll number, name or error |
| `Store.App.constructor` | db.js:4-10 | the database the server connects to, at the start: the given users, no papers, questions or results, both serial counters at 1, and the table constraints holding |
| `Store.App.GetSignin` | server.js:133-137 | the pending error is returned and cleared, so it is shown once |
| `Store.App.PostSignin` | server.js:206-229 | unknown email sets the "User Not Found" error, a failed password check sets "Invalid email or password.", both leave role, roll number and name unchanged; only success sets them from the user row |
| `Store.App.PostEvaluate` | server.js:238-290 | a denied guard, no questions, or no paper answer 401/403/404 and leave results unchanged; otherwise exactly one row for (roll_no, paper) holds the score of the paper's answers in id order, and every other key's rows are unchanged |
| `Store.App.PaperOfQuestionsExists` | server.js:248-261 | when every question names an existing paper, a paper with questions is found, so "Paper not found." is not answered |
| `Store.App.PostAddPaper` | server.js:300-325 | a denied guard or a missing file (400) changes nothing; otherwise a new paper id is used, selecting its questions gives exactly the inserted rows for the parsed pairs in file order, and other papers' questions are unchanged |
| `Store.App.InsertQuestions` | server.js:321-323 | the insert loop appends one row per pair, in order, with consecutive serial ids, and keeps the table constraints |
| `Store.FailedSignInThenSubmit` | server.js:206-238 | a new session whose sign-in fails is refused with 401 on its next submission, and no result is written |

## Left out

- `db.js` (the connection pool and its connection test), the session store, the body parser, passport and the other middleware set-up (server.js:21-38): library wiring.
- The database schema is not part of the repository: `App.Valid()` states the constraints the handlers rely on (unique emails, which the sign-up error message at server.js:348 names, a unique (roll_number, paper_id) in results, serial ids starting at 1).
- Every `catch` branch (status 500, and the sign-in message "An error occurred. Please try again."): database and hashing failures are not modelled, so every query succeeds.
- Multer's disk storage and `fs.readFileSync` (server.js:56-66, 309): the file's text is a parameter. The upload is stored before `verifyRole('teacher')` runs (server.js:300), so a refused request still writes the file; the model's "changes nothing" covers the tables only.
- UTF-8 decoding of the upload, and JavaScript's UTF-16 code units: strings are sequences of Unicode scalar values.
- `toLowerCase` is modelled for ASCII letters only; `trim` uses the ECMAScript white-space and line-terminator characters, with the space separators listed explicitly.
- `bcrypt.hash` and `POST /signup` (server.js:334-350): hashing is not modelled, so the users table is given to the `App` constructor and is never changed.
- The read-only and rendering routes (`GET /`, `/home`, `/set-roll-number`, `/success`, `/add-paper`, `/evaluate`, `/evaluate/:studentId/:paperId`, `/result/:rollNumber`, `/results`) and EJS rendering: thin reads of the tables.
- `GET /logout` (`req.logout`): a call into passport.
- Concurrency between requests, including the race between the result lookup and the update or insert.
- Request typing: body fields are strings (a repeated field that the body parser turns into an array is not modelled), `roll_no` is always present, and the path's paper id is a natural number (a non-numeric id would be a database error).
- Numbers: `marks_per_question`, `total_marks` and the total are unbounded integers; JavaScript doubles are exact for them up to 2^53.
- `Store.App.PostAddPaper`: the `totalMarks` and `marks_per_question` body fields are taken as integers, because the database's conversion of the submitted strings is not part of this model.
