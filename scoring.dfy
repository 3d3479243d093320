/** The scoring rule of `POST /evaluate/:paperId`: the paper's stored
    answers, in question-id order, are compared one by one with the
    submitted fields `marks_0`, `marks_1`, ...; every match earns the
    paper's marks per question. */
module Scoring {
  import opened Text
  import opened Access

  /** The request-body key of the answer to the question at `index`:
      `` `marks_${index}` ``. */
  function MarksKey(index: nat): string {
    "marks_" + NatToString(index)
  }

  /** Different questions read different fields. */
  lemma MarksKeyInjective(i: nat, j: nat)
    requires MarksKey(i) == MarksKey(j)
    ensures i == j
  {
    var p := "marks_";
    assert NatToString(i) == MarksKey(i)[|p|..];
    assert NatToString(j) == MarksKey(j)[|p|..];
    NatToStringInjective(i, j);
  }

  /** `req.body[key]`: a submitted string or nothing. */
  function Field(body: map<string, string>, key: string): Value {
    if key in body then Text(body[key]) else Absent
  }

  /** `s.trim().toLowerCase()`. */
  function Normalize(s: string): string {
    Lower(Trim(s))
  }

  /** `userAnswer && userAnswer.trim().toLowerCase() === answer.trim().toLowerCase()`. */
  predicate Matches(submitted: Value, stored: string) {
    Truthy(submitted) && Normalize(submitted.s) == Normalize(stored)
  }

  /** Whether the question at `index`, whose stored answer is `stored`,
      earns its marks. */
  predicate Earns(body: map<string, string>, index: nat, stored: string) {
    Matches(Field(body, MarksKey(index)), stored)
  }

  /** What the question at `index` adds to the total: all or nothing. */
  function Award(body: map<string, string>, index: nat, stored: string, marksPerQuestion: int): int {
    if Earns(body, index, stored) then marksPerQuestion else 0
  }

  /** The total after the `forEach` over the questions whose stored answers
      are `answers`, in id order. */
  function Score(answers: seq<string>, marksPerQuestion: int, body: map<string, string>): int {
    if answers == [] then 0
    else
      var n := |answers| - 1;
      Score(answers[..n], marksPerQuestion, body) + Award(body, n, answers[n], marksPerQuestion)
  }

  /** How many questions earn their marks. */
  function Matched(answers: seq<string>, body: map<string, string>): nat {
    if answers == [] then 0
    else
      var n := |answers| - 1;
      Matched(answers[..n], body) + (if Earns(body, n, answers[n]) then 1 else 0)
  }

  /** The scoring loop. */
  method ComputeTotal(answers: seq<string>, marksPerQuestion: int, body: map<string, string>)
    returns (totalMarks: int)
    ensures totalMarks == Score(answers, marksPerQuestion, body)
  {
    totalMarks := 0;
    var index := 0;
    while index < |answers|
      invariant 0 <= index <= |answers|
      invariant totalMarks == Score(answers[..index], marksPerQuestion, body)
    {
      var userAnswer := Field(body, MarksKey(index));
      if Truthy(userAnswer) && Normalize(userAnswer.s) == Normalize(answers[index]) {
        totalMarks := totalMarks + marksPerQuestion;
      }
      assert answers[..index + 1][..index] == answers[..index];
      index := index + 1;
    }
    assert answers[..index] == answers;
  }

  // ---------------------------------------------------------------------
  // What the total is.

  /** No partial credit: the total is the marks per question times the
      number of matched questions. */
  lemma {:induction false} ScoreIsMatchedTimesMarks(answers: seq<string>, marksPerQuestion: int, body: map<string, string>)
    ensures Matched(answers, body) <= |answers|
    ensures Score(answers, marksPerQuestion, body) == marksPerQuestion * Matched(answers, body)
  {
    if answers != [] {
      var n := |answers| - 1;
      ScoreIsMatchedTimesMarks(answers[..n], marksPerQuestion, body);
      var c := Matched(answers[..n], body);
      var e := Earns(body, n, answers[n]);
      var b := if e then 1 else 0;
      assert Matched(answers, body) == c + b;
      assert Score(answers, marksPerQuestion, body) == marksPerQuestion * c + b * marksPerQuestion;
      MulDistributes(marksPerQuestion, c, b);
    }
  }

  lemma MulDistributes(m: int, c: int, b: int)
    ensures m * (c + b) == m * c + b * m
  {
  }

  /** With k questions and non-negative marks m, the total lies in [0, k*m]. */
  lemma ScoreBounds(answers: seq<string>, marksPerQuestion: int, body: map<string, string>)
    requires marksPerQuestion >= 0
    ensures 0 <= Score(answers, marksPerQuestion, body) <= |answers| * marksPerQuestion
  {
    ScoreIsMatchedTimesMarks(answers, marksPerQuestion, body);
    MulMonotone(marksPerQuestion, Matched(answers, body), |answers|);
  }

  lemma MulMonotone(m: int, c: nat, k: nat)
    requires m >= 0 && c <= k
    ensures 0 <= m * c <= k * m
  {
    assert m * (k - c) >= 0;
  }

  /** A submission that matches every stored answer earns k*m. */
  lemma {:induction false} ScoreAllMatched(answers: seq<string>, marksPerQuestion: int, body: map<string, string>)
    requires forall i :: 0 <= i < |answers| ==> Earns(body, i, answers[i])
    ensures Score(answers, marksPerQuestion, body) == |answers| * marksPerQuestion
  {
    if answers != [] {
      var n := |answers| - 1;
      var prefix := answers[..n];
      forall j | 0 <= j < n
        ensures Earns(body, j, prefix[j])
      {
        assert prefix[j] == answers[j];
      }
      ScoreAllMatched(prefix, marksPerQuestion, body);
      assert Earns(body, n, answers[n]);
      assert Score(answers, marksPerQuestion, body) == n * marksPerQuestion + marksPerQuestion;
      MulSucc(n, marksPerQuestion);
    }
  }

  lemma MulSucc(k: int, m: int)
    ensures (k + 1) * m == k * m + m
  {
  }

  /** A submission that matches none earns nothing. */
  lemma {:induction false} ScoreNoneMatched(answers: seq<string>, marksPerQuestion: int, body: map<string, string>)
    requires forall i :: 0 <= i < |answers| ==> !Earns(body, i, answers[i])
    ensures Score(answers, marksPerQuestion, body) == 0
  {
    if answers != [] {
      ScoreNoneMatched(answers[..|answers| - 1], marksPerQuestion, body);
    }
  }

  /** The score reads only the fields `marks_0` .. `marks_{k-1}`. */
  lemma {:induction false} ScoreReadsOnlyMarksFields(answers: seq<string>, marksPerQuestion: int,
                                                   body: map<string, string>, body': map<string, string>)
    requires forall i :: 0 <= i < |answers| ==> Field(body, MarksKey(i)) == Field(body', MarksKey(i))
    ensures Score(answers, marksPerQuestion, body) == Score(answers, marksPerQuestion, body')
  {
    if answers != [] {
      ScoreReadsOnlyMarksFields(answers[..|answers| - 1], marksPerQuestion, body, body');
    }
  }

  /** Question i is paired with field `marks_i` only: changing that one
      field changes the total by exactly the change in question i's award. */
  lemma {:induction false} ScoreOneField(answers: seq<string>, marksPerQuestion: int,
                                       body: map<string, string>, i: nat, v: string)
    requires i < |answers|
    ensures var body' := body[MarksKey(i) := v];
      Score(answers, marksPerQuestion, body')
        == Score(answers, marksPerQuestion, body)
           - Award(body, i, answers[i], marksPerQuestion)
           + Award(body', i, answers[i], marksPerQuestion)
  {
    var body' := body[MarksKey(i) := v];
    var n := |answers| - 1;
    if i < n {
      ScoreOneField(answers[..n], marksPerQuestion, body, i, v);
      assert answers[..n][i] == answers[i];
      assert MarksKey(n) != MarksKey(i) by {
        if MarksKey(n) == MarksKey(i) { MarksKeyInjective(n, i); }
      }
      assert Field(body', MarksKey(n)) == Field(body, MarksKey(n));
    } else {
      forall j | 0 <= j < |answers[..n]|
        ensures Field(body, MarksKey(j)) == Field(body', MarksKey(j))
      {
        if MarksKey(j) == MarksKey(i) { MarksKeyInjective(j, i); }
      }
      ScoreReadsOnlyMarksFields(answers[..n], marksPerQuestion, body, body');
    }
  }

  /** A missing or empty `marks_i` earns nothing, whatever the stored
      answer of question i is. */
  lemma {:induction false} ScoreIgnoresUnanswered(answers: seq<string>, marksPerQuestion: int,
                                                body: map<string, string>, i: nat, other: string)
    requires i < |answers|
    requires !Truthy(Field(body, MarksKey(i)))
    ensures Score(answers[i := other], marksPerQuestion, body) == Score(answers, marksPerQuestion, body)
    ensures Award(body, i, answers[i], marksPerQuestion) == 0
  {
    var changed := answers[i := other];
    forall j | 0 <= j < |answers|
      ensures Award(body, j, changed[j], marksPerQuestion) == Award(body, j, answers[j], marksPerQuestion)
    {
      if j == i {
        assert !Earns(body, j, changed[j]) && !Earns(body, j, answers[j]);
      }
    }
    ScoreByAwards(changed, answers, marksPerQuestion, body);
  }

  /** Two answer keys of one length whose questions earn the same awards
      score the same. */
  lemma {:induction false} ScoreByAwards(answers: seq<string>, answers': seq<string>, marksPerQuestion: int,
                                       body: map<string, string>)
    requires |answers| == |answers'|
    requires forall j :: 0 <= j < |answers| ==>
      Award(body, j, answers[j], marksPerQuestion) == Award(body, j, answers'[j], marksPerQuestion)
    ensures Score(answers, marksPerQuestion, body) == Score(answers', marksPerQuestion, body)
  {
    if answers != [] {
      var n := |answers| - 1;
      var a, a' := answers[..n], answers'[..n];
      forall j | 0 <= j < n
        ensures Award(body, j, a[j], marksPerQuestion) == Award(body, j, a'[j], marksPerQuestion)
      {
        assert a[j] == answers[j] && a'[j] == answers'[j];
      }
      ScoreByAwards(a, a', marksPerQuestion, body);
    }
  }

  // ---------------------------------------------------------------------
  // The match ignores case and surrounding white space.

  lemma {:induction false} LowerTrimStart(s: string)
    ensures Lower(TrimStart(s)) == TrimStart(Lower(s))
  {
    if |s| > 0 {
      assert Lower(s)[0] == LowerChar(s[0]);
      assert Lower(s)[1..] == Lower(s[1..]);
      if IsSpace(s[0]) {
        LowerTrimStart(s[1..]);
      }
    }
  }

  lemma {:induction false} LowerTrimEnd(s: string)
    ensures Lower(TrimEnd(s)) == TrimEnd(Lower(s))
  {
    if |s| > 0 {
      var n := |s| - 1;
      assert Lower(s)[n] == LowerChar(s[n]);
      assert Lower(s)[..n] == Lower(s[..n]);
      if IsSpace(s[n]) {
        LowerTrimEnd(s[..n]);
      }
    }
  }

  /** Normalising is trimming the lower-cased text. */
  lemma NormalizeIsTrimOfLower(s: string)
    ensures Normalize(s) == Trim(Lower(s))
  {
    LowerTrimStart(s);
    LowerTrimEnd(TrimStart(s));
  }

  /** Two non-empty submissions that differ only in letter case, or in
      white space around them, are judged alike. */
  lemma MatchIgnoresCaseAndPadding(s: string, t: string, w1: string, w2: string, stored: string)
    requires s != [] && Lower(s) == Lower(t)
    requires AllSpace(w1) && AllSpace(w2)
    ensures Matches(Text(w1 + t + w2), stored) <==> Matches(Text(s), stored)
  {
    NormalizeIsTrimOfLower(s);
    NormalizeIsTrimOfLower(t);
    NormalizeIsTrimOfLower(w1 + t + w2);
    var l := Lower(w1 + t + w2);
    assert l == Lower(w1) + Lower(t) + Lower(w2);
    assert AllSpace(Lower(w1)) && AllSpace(Lower(w2));
    TrimPadded(Lower(w1), Lower(t), Lower(w2));
    assert |t| == |s|;
  }

  /** `"Paris "` and `"paris"` both match the stored answer `"Paris"`. */
  lemma ParisExample()
    ensures Matches(Text("Paris "), "Paris")
    ensures Matches(Text("paris"), "Paris")
  {
    var p := "Paris";
    assert TrimStart(p) == p && TrimEnd(p) == p;
    assert TrimEnd("Paris ") == TrimEnd(p);
    assert TrimStart("Paris ") == "Paris ";
    assert TrimStart("paris") == "paris" && TrimEnd("paris") == "paris";
    assert Lower(p) == "paris";
    assert Lower("paris") == "paris";
  }

  /** A blank but non-empty submission is truthy and trims to the empty
      text, so it earns the marks of a question whose stored answer is
      empty, while an empty submission does not. */
  lemma BlankSubmissionMatchesEmptyAnswer()
    ensures Matches(Text(" "), "")
    ensures !Matches(Text(""), "")
  {
    assert TrimStart(" ") == TrimStart("");
  }

  /** A paper with answers "4" and "6", 5 marks per question, and the
      submission {marks_0: "4", marks_1: "7"}: only the first question
      earns its marks. */
  lemma ExampleSubmission()
    ensures Score(["4", "6"], 5, map["marks_0" := "4", "marks_1" := "7"]) == 5
  {
    var body := map["marks_0" := "4", "marks_1" := "7"];
    assert MarksKey(0) == "marks_0";
    assert MarksKey(1) == "marks_1";
    assert Normalize("4") == "4" by {
      assert TrimStart("4") == "4" && TrimEnd("4") == "4";
    }
    assert Normalize("6") == "6" by {
      assert TrimStart("6") == "6" && TrimEnd("6") == "6";
    }
    assert Normalize("7") == "7" by {
      assert TrimStart("7") == "7" && TrimEnd("7") == "7";
    }
    assert Earns(body, 0, "4");
    assert !Earns(body, 1, "6");
    assert ["4", "6"][..1] == ["4"];
    assert ["4"][..0] == [];
  }
}
