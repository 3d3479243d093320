/** The server's tables and sessions, and the route handlers that change
    them: `POST /signin`, `GET /signin`, `POST /evaluate/:paperId` and
    `POST /add-paper`. The SQL statements of the handlers become reads and
    writes of in-memory tables. */
module Store {
  import opened Access
  import opened AnswerKey
  import opened Scoring

  datatype Option<T> = None | Some(value: T)

  /** A row of `users`; `rollNumber` is null for teachers. */
  datatype User = User(name: string, email: string, passwordHash: string, role: string, rollNumber: Value)

  /** A row of `papers`, without its id (the id is the key of the table). */
  datatype Paper = Paper(name: string, totalMarks: int, marksPerQuestion: int)

  /** A row of `questions`. */
  datatype Question = Question(id: nat, paperId: nat, question: string, answer: string)

  /** A row of `results`. */
  datatype ResultRow = ResultRow(rollNumber: string, paperId: nat, marks: int)

  const UserNotFoundMessage := "User Not Found. Please Sign Up"
  const BadCredentialsMessage := "Invalid email or password."
  const NoQuestionsMessage := "No questions found for this paper."
  const NoPaperMessage := "Paper not found."
  const NoFileMessage := "No file uploaded."

  // ---------------------------------------------------------------------
  // users

  /** The `email` column is unique. */
  predicate UniqueEmails(users: seq<User>) {
    forall i, j :: 0 <= i < j < |users| ==> users[i].email != users[j].email
  }

  /** `SELECT * FROM users WHERE email = $1`, then `rows[0]`. */
  function UserByEmail(users: seq<User>, email: string): Option<User> {
    if users == [] then None
    else if users[0].email == email then Some(users[0])
    else UserByEmail(users[1..], email)
  }

  /** With unique emails the lookup finds the one user holding the email,
      and finds nobody exactly when no user holds it. */
  lemma {:induction false} UserByEmailFinds(users: seq<User>, email: string)
    requires UniqueEmails(users)
    ensures UserByEmail(users, email).None? <==> forall i :: 0 <= i < |users| ==> users[i].email != email
    ensures forall i :: 0 <= i < |users| && users[i].email == email ==> UserByEmail(users, email) == Some(users[i])
  {
    if users != [] {
      UserByEmailFinds(users[1..], email);
      assert forall i :: 0 < i < |users| ==> users[i] == users[1..][i - 1];
    }
  }

  // ---------------------------------------------------------------------
  // questions

  /** Question ids grow along the table, as a serial column gives them. */
  predicate IdsIncreasing(qs: seq<Question>) {
    forall i, j :: 0 <= i < j < |qs| ==> qs[i].id < qs[j].id
  }

  /** `SELECT id, answer FROM questions WHERE paper_id = $1`, in table order. */
  function QuestionsOf(qs: seq<Question>, paperId: nat): seq<Question> {
    if qs == [] then []
    else (if qs[0].paperId == paperId then [qs[0]] else []) + QuestionsOf(qs[1..], paperId)
  }

  /** The selected rows are exactly the paper's questions, and when ids grow
      along the table they come out in ascending id order, as the source's
      `ORDER BY id ASC` asks. */
  lemma {:induction false} QuestionsOfOrdered(qs: seq<Question>, paperId: nat)
    requires IdsIncreasing(qs)
    ensures IdsIncreasing(QuestionsOf(qs, paperId))
    ensures forall q :: q in QuestionsOf(qs, paperId) <==> q in qs && q.paperId == paperId
  {
    if qs != [] {
      var rest := QuestionsOf(qs[1..], paperId);
      assert IdsIncreasing(qs[1..]) by {
        assert forall i :: 0 <= i < |qs| - 1 ==> qs[1..][i] == qs[i + 1];
      }
      QuestionsOfOrdered(qs[1..], paperId);
      assert qs == [qs[0]] + qs[1..];
      forall k | 0 <= k < |rest|
        ensures qs[0].id < rest[k].id
      {
        assert rest[k] in qs[1..];
        var j :| 0 <= j < |qs[1..]| && qs[1..][j] == rest[k];
        assert qs[j + 1] == rest[k];
      }
    }
  }

  lemma {:induction false} QuestionsOfAppend(a: seq<Question>, b: seq<Question>, paperId: nat)
    ensures QuestionsOf(a + b, paperId) == QuestionsOf(a, paperId) + QuestionsOf(b, paperId)
  {
    if a == [] {
      assert a + b == b;
    } else {
      var head := if a[0].paperId == paperId then [a[0]] else [];
      assert (a + b)[0] == a[0];
      assert (a + b)[1..] == a[1..] + b;
      QuestionsOfAppend(a[1..], b, paperId);
      calc {
        QuestionsOf(a + b, paperId);
        head + QuestionsOf(a[1..] + b, paperId);
        head + (QuestionsOf(a[1..], paperId) + QuestionsOf(b, paperId));
        (head + QuestionsOf(a[1..], paperId)) + QuestionsOf(b, paperId);
      }
    }
  }

  /** Selecting a paper no row belongs to gives nothing; selecting the paper
      every row belongs to gives every row. */
  lemma {:induction false} QuestionsOfUniform(qs: seq<Question>, paperId: nat, p: nat)
    requires forall i :: 0 <= i < |qs| ==> qs[i].paperId == paperId
    ensures QuestionsOf(qs, p) == if p == paperId then qs else []
  {
    if qs != [] {
      QuestionsOfUniform(qs[1..], paperId, p);
      assert qs == [qs[0]] + qs[1..];
    }
  }

  lemma {:induction false} QuestionsOfAbsent(qs: seq<Question>, paperId: nat)
    requires forall i :: 0 <= i < |qs| ==> qs[i].paperId != paperId
    ensures QuestionsOf(qs, paperId) == []
  {
    if qs != [] {
      QuestionsOfAbsent(qs[1..], paperId);
    }
  }

  /** The `question.answer` column of the selected rows. */
  function AnswersOf(qs: seq<Question>): (r: seq<string>)
    ensures |r| == |qs|
  {
    seq(|qs|, k requires 0 <= k < |qs| => qs[k].answer)
  }

  /** The rows the import loop inserts for `pairs`, with serial ids from
      `firstId` on. */
  function NewQuestions(paperId: nat, firstId: nat, pairs: seq<Pair>): (r: seq<Question>)
    ensures |r| == |pairs|
  {
    seq(|pairs|, k requires 0 <= k < |pairs| =>
      Question(firstId + k, paperId, pairs[k].question, pairs[k].answer))
  }

  /** Reading back an imported paper's questions gives its key file's
      pairs, in file order. */
  lemma ImportedQuestionsReadBack(qs: seq<Question>, paperId: nat, firstId: nat, pairs: seq<Pair>)
    requires forall i :: 0 <= i < |qs| ==> qs[i].paperId != paperId
    ensures var read := QuestionsOf(qs + NewQuestions(paperId, firstId, pairs), paperId);
      |read| == |pairs|
      && (forall k :: 0 <= k < |pairs| ==> read[k].question == pairs[k].question && read[k].answer == pairs[k].answer)
      && read == NewQuestions(paperId, firstId, pairs)
  {
    var added := NewQuestions(paperId, firstId, pairs);
    QuestionsOfAppend(qs, added, paperId);
    QuestionsOfAbsent(qs, paperId);
    QuestionsOfUniform(added, paperId, paperId);
    assert QuestionsOf(qs + added, paperId) == added;
  }

  /** Importing a paper leaves every other paper's questions as they were. */
  lemma ImportKeepsOtherPapers(qs: seq<Question>, paperId: nat, firstId: nat, pairs: seq<Pair>, p: nat)
    requires p != paperId
    ensures QuestionsOf(qs + NewQuestions(paperId, firstId, pairs), p) == QuestionsOf(qs, p)
  {
    var added := NewQuestions(paperId, firstId, pairs);
    QuestionsOfAppend(qs, added, p);
    QuestionsOfUniform(added, paperId, p);
  }

  // ---------------------------------------------------------------------
  // results

  predicate SameKey(row: ResultRow, rollNumber: string, paperId: nat) {
    row.rollNumber == rollNumber && row.paperId == paperId
  }

  /** The table's key (roll_number, paper_id) is unique. */
  predicate UniqueKeys(rows: seq<ResultRow>) {
    forall i, j :: 0 <= i < j < |rows| ==> !SameKey(rows[j], rows[i].rollNumber, rows[i].paperId)
  }

  /** `SELECT * FROM results WHERE roll_number = $1 AND paper_id = $2`. */
  function ResultsFor(rows: seq<ResultRow>, rollNumber: string, paperId: nat): seq<ResultRow> {
    if rows == [] then []
    else (if SameKey(rows[0], rollNumber, paperId) then [rows[0]] else [])
         + ResultsFor(rows[1..], rollNumber, paperId)
  }

  /** `UPDATE results SET marks = $1 WHERE roll_number = $2 AND paper_id = $3`:
      every row with the key gets the new marks, and no key changes. */
  function SetMarks(rows: seq<ResultRow>, rollNumber: string, paperId: nat, marks: int): (r: seq<ResultRow>)
    ensures |r| == |rows|
    ensures forall i :: 0 <= i < |rows| ==>
      r[i].rollNumber == rows[i].rollNumber && r[i].paperId == rows[i].paperId
      && r[i].marks == (if SameKey(rows[i], rollNumber, paperId) then marks else rows[i].marks)
  {
    if rows == [] then []
    else
      [if SameKey(rows[0], rollNumber, paperId) then rows[0].(marks := marks) else rows[0]]
      + SetMarks(rows[1..], rollNumber, paperId, marks)
  }

  /** The marks of the row with the given key, if there is one. */
  function MarksOf(rows: seq<ResultRow>, rollNumber: string, paperId: nat): Option<int> {
    var found := ResultsFor(rows, rollNumber, paperId);
    if found == [] then None else Some(found[0].marks)
  }

  lemma {:induction false} ResultsForNone(rows: seq<ResultRow>, rollNumber: string, paperId: nat)
    ensures ResultsFor(rows, rollNumber, paperId) == [] <==>
      forall i :: 0 <= i < |rows| ==> !SameKey(rows[i], rollNumber, paperId)
  {
    if rows != [] {
      ResultsForNone(rows[1..], rollNumber, paperId);
      assert forall i :: 0 < i < |rows| ==> rows[i] == rows[1..][i - 1];
    }
  }

  lemma {:induction false} ResultsForUnique(rows: seq<ResultRow>, rollNumber: string, paperId: nat)
    requires UniqueKeys(rows)
    ensures |ResultsFor(rows, rollNumber, paperId)| <= 1
  {
    if rows != [] {
      assert UniqueKeys(rows[1..]) by {
        assert forall i :: 0 <= i < |rows| - 1 ==> rows[1..][i] == rows[i + 1];
      }
      ResultsForUnique(rows[1..], rollNumber, paperId);
      if SameKey(rows[0], rollNumber, paperId) {
        ResultsForNone(rows[1..], rollNumber, paperId);
        assert forall i :: 0 <= i < |rows| - 1 ==> rows[1..][i] == rows[i + 1];
      }
    }
  }

  /** The update gives every selected row the new marks and leaves the
      rows of every other key alone. */
  lemma {:induction false} SetMarksSelects(rows: seq<ResultRow>, rollNumber: string, paperId: nat, marks: int,
                                         r: string, p: nat)
    ensures var after := ResultsFor(SetMarks(rows, rollNumber, paperId, marks), r, p);
      var before := ResultsFor(rows, r, p);
      if r == rollNumber && p == paperId
      then |after| == |before| && forall k :: 0 <= k < |after| ==> after[k] == ResultRow(r, p, marks)
      else after == before
  {
    if rows != [] {
      SetMarksSelects(rows[1..], rollNumber, paperId, marks, r, p);
      var s := SetMarks(rows, rollNumber, paperId, marks);
      assert s[1..] == SetMarks(rows[1..], rollNumber, paperId, marks);
    }
  }

  lemma {:induction false} ResultsForSnoc(rows: seq<ResultRow>, row: ResultRow, r: string, p: nat)
    ensures ResultsFor(rows + [row], r, p)
         == ResultsFor(rows, r, p) + (if SameKey(row, r, p) then [row] else [])
  {
    if rows == [] {
      assert rows + [row] == [row];
    } else {
      var head := if SameKey(rows[0], r, p) then [rows[0]] else [];
      var last := if SameKey(row, r, p) then [row] else [];
      assert (rows + [row])[0] == rows[0];
      assert (rows + [row])[1..] == rows[1..] + [row];
      ResultsForSnoc(rows[1..], row, r, p);
      calc {
        ResultsFor(rows + [row], r, p);
        head + ResultsFor(rows[1..] + [row], r, p);
        head + (ResultsFor(rows[1..], r, p) + last);
        (head + ResultsFor(rows[1..], r, p)) + last;
      }
    }
  }

  /** Updating an existing key keeps the keys unique, leaves exactly one
      row for the key, holding the new marks, and changes no other key's rows. */
  lemma UpdateExisting(rows: seq<ResultRow>, rollNumber: string, paperId: nat, marks: int)
    requires UniqueKeys(rows)
    requires ResultsFor(rows, rollNumber, paperId) != []
    ensures var after := SetMarks(rows, rollNumber, paperId, marks);
      && UniqueKeys(after)
      && ResultsFor(after, rollNumber, paperId) == [ResultRow(rollNumber, paperId, marks)]
      && forall r, p :: !(r == rollNumber && p == paperId) ==> ResultsFor(after, r, p) == ResultsFor(rows, r, p)
  {
    var after := SetMarks(rows, rollNumber, paperId, marks);
    ResultsForUnique(rows, rollNumber, paperId);
    SetMarksSelects(rows, rollNumber, paperId, marks, rollNumber, paperId);
    forall r, p | !(r == rollNumber && p == paperId)
      ensures ResultsFor(after, r, p) == ResultsFor(rows, r, p)
    {
      SetMarksSelects(rows, rollNumber, paperId, marks, r, p);
    }
  }

  /** Inserting a key that is not there keeps the keys unique, leaves
      exactly one row for the key, and changes no other key's rows. */
  lemma InsertAbsent(rows: seq<ResultRow>, rollNumber: string, paperId: nat, marks: int)
    requires UniqueKeys(rows)
    requires ResultsFor(rows, rollNumber, paperId) == []
    ensures var row := ResultRow(rollNumber, paperId, marks);
      var after := rows + [row];
      && UniqueKeys(after)
      && ResultsFor(after, rollNumber, paperId) == [row]
      && forall r, p :: !(r == rollNumber && p == paperId) ==> ResultsFor(after, r, p) == ResultsFor(rows, r, p)
  {
    var row := ResultRow(rollNumber, paperId, marks);
    var after := rows + [row];
    ResultsForNone(rows, rollNumber, paperId);
    ResultsForSnoc(rows, row, rollNumber, paperId);
    forall r, p | !(r == rollNumber && p == paperId)
      ensures ResultsFor(after, r, p) == ResultsFor(rows, r, p)
    {
      ResultsForSnoc(rows, row, r, p);
    }
  }

  // ---------------------------------------------------------------------
  // sessions and the server state

  /** `req.session`: the fields the handlers read and write. */
  class Session {
    var role: Value
    var rollNo: Value
    var name: Value
    var error: Value

    /** A new session, as `saveUninitialized` creates it: every field unset. */
    constructor ()
      ensures role == Absent && rollNo == Absent && name == Absent && error == Absent
    {
      role, rollNo, name, error := Absent, Absent, Absent, Absent;
    }
  }

  /** The database: the four tables and the next values of the two serial
      id columns. */
  class App {
    var users: seq<User>
    var papers: map<nat, Paper>
    var questions: seq<Question>
    var results: seq<ResultRow>
    var nextPaperId: nat
    var nextQuestionId: nat

    /** The table constraints: unique emails, serial ids below their
        counters (question ids growing along the table), a unique
        (roll_number, paper_id) key in results, and every result row
        naming an existing paper. */
    ghost predicate Valid()
      reads this
    {
      && UniqueEmails(users)
      && 0 < nextPaperId && 0 < nextQuestionId
      && (forall id :: id in papers ==> 0 < id < nextPaperId)
      && (forall i :: 0 <= i < |questions| ==>
            0 < questions[i].id < nextQuestionId && questions[i].paperId < nextPaperId)
      && IdsIncreasing(questions)
      && UniqueKeys(results)
      && (forall i :: 0 <= i < |results| ==> results[i].paperId in papers)
    }

    /** Every question row names an existing paper; the import keeps this. */
    ghost predicate QuestionsHavePapers()
      reads this
    {
      forall i :: 0 <= i < |questions| ==> questions[i].paperId in papers
    }

    /** A server over the registered `users` with no papers yet; serial
        ids start at 1. */
    constructor (users: seq<User>)
      requires UniqueEmails(users)
      ensures Valid() && QuestionsHavePapers()
      ensures this.users == users && papers == map[] && questions == [] && results == []
      ensures nextPaperId == 1 && nextQuestionId == 1
    {
      this.users := users;
      papers := map[];
      questions := [];
      results := [];
      nextPaperId := 1;
      nextQuestionId := 1;
    }

    /** `GET /signin`: the pending error is read once and cleared. */
    method GetSignin(session: Session) returns (shown: Value)
      modifies session`error
      ensures shown == old(session.error)
      ensures session.error == Absent
    {
      shown := session.error;
      session.error := Absent;
    }

    /** `POST /signin`; `compare` stands for `bcrypt.compare` of the
        submitted password with the stored hash. */
    method PostSignin(session: Session, email: string, password: string, compare: (string, string) -> bool)
      returns (resp: Response)
      requires Valid()
      modifies session
      ensures var found := UserByEmail(users, email);
        if found.None? then
          && resp == Redirect("/signin")
          && session.error == Text(UserNotFoundMessage)
          && session.role == old(session.role) && session.rollNo == old(session.rollNo)
          && session.name == old(session.name)
        else if !compare(password, found.value.passwordHash) then
          && resp == Redirect("/signin")
          && session.error == Text(BadCredentialsMessage)
          && session.role == old(session.role) && session.rollNo == old(session.rollNo)
          && session.name == old(session.name)
        else
          && resp == Redirect("/home")
          && session.role == Text(found.value.role)
          && session.rollNo == found.value.rollNumber
          && session.name == Text(found.value.name)
          && session.error == old(session.error)
    {
      var user := UserByEmail(users, email);
      if user.None? {
        session.error := Text(UserNotFoundMessage);
        return Redirect("/signin");
      }
      var isMatch := compare(password, user.value.passwordHash);
      if !isMatch {
        session.error := Text(BadCredentialsMessage);
        return Redirect("/signin");
      }
      session.role := Text(user.value.role);
      session.rollNo := user.value.rollNumber;
      session.name := Text(user.value.name);
      resp := Redirect("/home");
    }

    /** `POST /evaluate/:paperId`, behind `verifyRole('student')`; `rollNo`
        is the `roll_no` field of the request body. */
    method PostEvaluate(session: Session, rollNo: string, paperId: nat, body: map<string, string>)
      returns (resp: Response)
      requires Valid()
      modifies this`results
      ensures Valid()
      ensures var guard := VerifyRole("student", Absent, session.role);
        var selected := QuestionsOf(questions, paperId);
        if guard.Deny? then
          resp == guard.response && results == old(results)
        else if selected == [] then
          resp == Status(404, NoQuestionsMessage) && results == old(results)
        else if paperId !in papers then
          resp == Status(404, NoPaperMessage) && results == old(results)
        else
          var total := Score(AnswersOf(selected), papers[paperId].marksPerQuestion, body);
          && resp == Redirect("/success")
          && ResultsFor(results, rollNo, paperId) == [ResultRow(rollNo, paperId, total)]
          && MarksOf(results, rollNo, paperId) == Some(total)
          && |results| == |old(results)| + (if ResultsFor(old(results), rollNo, paperId) == [] then 1 else 0)
          && forall r, p :: !(r == rollNo && p == paperId) ==>
               ResultsFor(results, r, p) == ResultsFor(old(results), r, p)
    {
      var guard := VerifyRole("student", Absent, session.role);
      if guard.Deny? {
        return guard.response;
      }
      var selected := QuestionsOf(questions, paperId);
      if |selected| == 0 {
        return Status(404, NoQuestionsMessage);
      }
      if paperId !in papers {
        return Status(404, NoPaperMessage);
      }
      var marksPerQuestion := papers[paperId].marksPerQuestion;
      var totalMarks := ComputeTotal(AnswersOf(selected), marksPerQuestion, body);
      var existing := ResultsFor(results, rollNo, paperId);
      if |existing| > 0 {
        UpdateExisting(results, rollNo, paperId, totalMarks);
        results := SetMarks(results, rollNo, paperId, totalMarks);
      } else {
        InsertAbsent(results, rollNo, paperId, totalMarks);
        results := results + [ResultRow(rollNo, paperId, totalMarks)];
      }
      resp := Redirect("/success");
    }

    /** When the questions table only names existing papers, a paper with
        questions is always found, so the "Paper not found." exit of
        PostEvaluate is not taken. */
    lemma PaperOfQuestionsExists(paperId: nat)
      requires QuestionsHavePapers()
      requires QuestionsOf(questions, paperId) != []
      ensures paperId in papers
    {
      var q := QuestionsOf(questions, paperId)[0];
      QuestionsOfMember(questions, paperId, q);
    }

    /** `POST /add-paper`, behind `verifyRole('teacher')`. `questionFile` is
        the uploaded file's text, `None` when no file came with the request. */
    method PostAddPaper(session: Session, questionFile: Option<string>,
                        name: string, totalMarks: int, marksPerQuestion: int)
      returns (resp: Response)
      requires Valid()
      modifies this`papers, this`questions, this`nextPaperId, this`nextQuestionId
      ensures Valid()
      ensures old(QuestionsHavePapers()) ==> QuestionsHavePapers()
      ensures var guard := VerifyRole("teacher", Absent, session.role);
        if guard.Deny? || questionFile.None? then
          && resp == (if guard.Deny? then guard.response else Status(400, NoFileMessage))
          && papers == old(papers) && questions == old(questions)
          && nextPaperId == old(nextPaperId) && nextQuestionId == old(nextQuestionId)
        else
          var id := old(nextPaperId);
          var pairs := Parse(questionFile.value);
          && resp == Redirect("/add-paper")
          && id !in old(papers)
          && papers == old(papers)[id := Paper(name, totalMarks, marksPerQuestion)]
          && questions == old(questions) + NewQuestions(id, old(nextQuestionId), pairs)
          && QuestionsOf(questions, id) == NewQuestions(id, old(nextQuestionId), pairs)
          && (forall p :: p != id ==> QuestionsOf(questions, p) == QuestionsOf(old(questions), p))
    {
      var guard := VerifyRole("teacher", Absent, session.role);
      if guard.Deny? {
        return guard.response;
      }
      if questionFile.None? {
        return Status(400, NoFileMessage);
      }
      var pairs := Parse(questionFile.value);
      var paperId := nextPaperId;
      papers := papers[paperId := Paper(name, totalMarks, marksPerQuestion)];
      nextPaperId := nextPaperId + 1;
      ghost var before := questions;
      ghost var firstId := nextQuestionId;
      assert forall i :: 0 <= i < |before| ==> before[i].paperId != paperId;
      InsertQuestions(paperId, pairs);
      ImportedQuestionsReadBack(before, paperId, firstId, pairs);
      forall p | p != paperId
        ensures QuestionsOf(questions, p) == QuestionsOf(before, p)
      {
        ImportKeepsOtherPapers(before, paperId, firstId, pairs, p);
      }
      resp := Redirect("/add-paper");
    }

    /** The `for (const [question, answer] of questionAnswerPairs)` loop:
        one row per pair, in order, each with the next serial id. */
    method InsertQuestions(paperId: nat, pairs: seq<Pair>)
      requires Valid() && paperId in papers
      modifies this`questions, this`nextQuestionId
      ensures Valid()
      ensures questions == old(questions) + NewQuestions(paperId, old(nextQuestionId), pairs)
      ensures nextQuestionId == old(nextQuestionId) + |pairs|
    {
      var k := 0;
      while k < |pairs|
        invariant 0 <= k <= |pairs|
        invariant questions == old(questions) + NewQuestions(paperId, old(nextQuestionId), pairs[..k])
        invariant nextQuestionId == old(nextQuestionId) + k
      {
        var row := Question(nextQuestionId, paperId, pairs[k].question, pairs[k].answer);
        assert NewQuestions(paperId, old(nextQuestionId), pairs[..k + 1])
            == NewQuestions(paperId, old(nextQuestionId), pairs[..k]) + [row];
        questions := questions + [row];
        nextQuestionId := nextQuestionId + 1;
        k := k + 1;
      }
      assert pairs[..k] == pairs;
      ImportKeepsSerialIds(old(questions), paperId, old(nextQuestionId), pairs, nextPaperId);
    }
  }

  /** A new session whose sign-in fails stays anonymous: its next answer
      submission is refused with 401 and writes no result. */
  method FailedSignInThenSubmit(app: App, email: string, password: string, compare: (string, string) -> bool,
                                rollNo: string, paperId: nat, body: map<string, string>)
    returns (signin: Response, submit: Response)
    requires app.Valid()
    requires UserByEmail(app.users, email).Some? ==> !compare(password, UserByEmail(app.users, email).value.passwordHash)
    modifies app`results
    ensures signin == Redirect("/signin")
    ensures submit == Status(401, UnauthorizedMessage)
    ensures app.results == old(app.results)
  {
    var session := new Session();
    signin := app.PostSignin(session, email, password, compare);
    submit := app.PostEvaluate(session, rollNo, paperId, body);
  }

  /** The imported rows keep the serial-id constraints: ids stay positive,
      below the counter and increasing, and paper ids below theirs. */
  lemma ImportKeepsSerialIds(qs: seq<Question>, paperId: nat, firstId: nat, pairs: seq<Pair>, paperBound: nat)
    requires 0 < firstId && paperId < paperBound
    requires forall i :: 0 <= i < |qs| ==> 0 < qs[i].id < firstId && qs[i].paperId < paperBound
    requires IdsIncreasing(qs)
    ensures var after := qs + NewQuestions(paperId, firstId, pairs);
      && IdsIncreasing(after)
      && (forall i :: 0 <= i < |after| ==>
            0 < after[i].id < firstId + |pairs| && after[i].paperId < paperBound)
  {
    var after := qs + NewQuestions(paperId, firstId, pairs);
    forall i, j | 0 <= i < j < |after|
      ensures after[i].id < after[j].id
    {
      if j < |qs| {
      } else if i < |qs| {
      } else {
        assert after[i].id == firstId + (i - |qs|);
      }
    }
  }

  lemma {:induction false} QuestionsOfMember(qs: seq<Question>, paperId: nat, q: Question)
    requires q in QuestionsOf(qs, paperId)
    ensures q in qs && q.paperId == paperId
  {
    if qs != [] {
      assert qs == [qs[0]] + qs[1..];
      if q != qs[0] || qs[0].paperId != paperId {
        QuestionsOfMember(qs[1..], paperId, q);
      }
    }
  }
}
