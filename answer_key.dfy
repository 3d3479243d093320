/** The answer-key import of `POST /add-paper`: the uploaded text is cut
    into lines, each whole line is trimmed and cut at `|`, and only the
    lines that give exactly two fields become (question, answer) pairs. */
module AnswerKey {
  import opened Text

  const LineBreak := '\n'
  const Bar := '|'

  datatype Pair = Pair(question: string, answer: string)

  /** `line.trim().split('|')`. */
  function Fields(line: string): seq<string> {
    Split(Trim(line), Bar)
  }

  /** The pair a line contributes: none, or the one its two fields give. */
  function LinePairs(line: string): seq<Pair> {
    var f := Fields(line);
    if |f| == 2 then [Pair(f[0], f[1])] else []
  }

  /** `.map(...).filter(pair => pair.length === 2)` over the lines. */
  function ParseLines(lines: seq<string>): seq<Pair>
  {
    if lines == [] then [] else LinePairs(lines[0]) + ParseLines(lines[1..])
  }

  /** The whole parser: `fileContent.split('\n')`, then ParseLines. */
  function Parse(content: string): (r: seq<Pair>)
    ensures forall k :: 0 <= k < |r| ==> LineBreak !in r[k].question && LineBreak !in r[k].answer
  {
    var lines := Split(content, LineBreak);
    SplitShape(content, LineBreak);
    ParseLinesNoBreak(lines);
    ParseLines(lines)
  }

  lemma {:induction false} ParseLinesNoBreak(lines: seq<string>)
    requires forall k :: 0 <= k < |lines| ==> LineBreak !in lines[k]
    ensures forall k :: 0 <= k < |ParseLines(lines)| ==>
      LineBreak !in ParseLines(lines)[k].question && LineBreak !in ParseLines(lines)[k].answer
  {
    if lines != [] {
      ParseLinesNoBreak(lines[1..]);
      var t := Trim(lines[0]);
      var f := Fields(lines[0]);
      SplitShape(t, Bar);
      if |f| == 2 {
        assert t == f[0] + [Bar] + f[1];
        if LineBreak in f[0] + f[1] {
          assert LineBreak in t;
          TrimKeepsCharacters(lines[0], LineBreak);
        }
      }
    }
  }

  // ---------------------------------------------------------------------
  // An independent description of a kept line: after trimming it holds
  // the bar exactly once, and the pair is what stands before and after it.

  predicate WellFormed(line: string) {
    Count(Trim(line), Bar) == 1
  }

  /** Position of the first `d` in `s`. */
  function IndexOf(s: string, d: char): (i: nat)
    requires d in s
    ensures i < |s| && s[i] == d && d !in s[..i]
  {
    if s[0] == d then 0 else
      assert d in s[1..] by { assert s == [s[0]] + s[1..]; }
      var j := IndexOf(s[1..], d);
      assert s[..j + 1] == [s[0]] + s[1..][..j];
      j + 1
  }

  /** The pair a well-formed line stands for. */
  function LinePair(line: string): Pair
    requires WellFormed(line)
  {
    var t := Trim(line);
    CountZero(t, Bar);
    var i := IndexOf(t, Bar);
    Pair(t[..i], t[i + 1..])
  }

  /** A line contributes a pair exactly when it is well formed, and then
      the pair is the text before and after its only bar. */
  lemma LinePairsIff(line: string)
    ensures |LinePairs(line)| == (if WellFormed(line) then 1 else 0)
    ensures WellFormed(line) ==> LinePairs(line) == [LinePair(line)]
  {
    var t := Trim(line);
    SplitShape(t, Bar);
    if WellFormed(line) {
      CountZero(t, Bar);
      var i := IndexOf(t, Bar);
      var before, after := t[..i], t[i + 1..];
      assert t == before + ([Bar] + after);
      CountAppend(before, [Bar] + after, Bar);
      CountAppend([Bar], after, Bar);
      CountZero(before, Bar);
      CountZero(after, Bar);
      assert Bar !in after;
      var f := [before, after];
      assert Join(f, Bar) == t;
      SplitJoin(f, Bar);
    }
  }

  lemma {:induction false} ParseLinesAppend(a: seq<string>, b: seq<string>)
    ensures ParseLines(a + b) == ParseLines(a) + ParseLines(b)
  {
    if a == [] {
      assert a + b == b;
    } else {
      assert (a + b)[1..] == a[1..] + b;
      ParseLinesAppend(a[1..], b);
    }
  }

  /** Indices of the well-formed lines, in increasing order. */
  function KeptIndices(lines: seq<string>): (idx: seq<nat>)
    ensures forall k :: 0 <= k < |idx| ==> idx[k] < |lines| && WellFormed(lines[idx[k]])
    ensures forall k, l :: 0 <= k < l < |idx| ==> idx[k] < idx[l]
    ensures forall j :: 0 <= j < |lines| && WellFormed(lines[j]) ==> j in idx
  {
    if lines == [] then []
    else
      var n := |lines| - 1;
      var prefix := KeptIndices(lines[..n]);
      assert forall k :: 0 <= k < |prefix| ==> lines[..n][prefix[k]] == lines[prefix[k]];
      prefix + (if WellFormed(lines[n]) then [n] else [])
  }

  /** The parser keeps exactly the well-formed lines, in their order: the
      k-th pair is the pair of the k-th well-formed line. */
  lemma {:induction false} ParseKeepsWellFormedLines(lines: seq<string>)
    ensures |ParseLines(lines)| == |KeptIndices(lines)|
    ensures forall k :: 0 <= k < |KeptIndices(lines)| ==>
      ParseLines(lines)[k] == LinePair(lines[KeptIndices(lines)[k]])
  {
    if lines != [] {
      var n := |lines| - 1;
      var prefix := lines[..n];
      ParseKeepsWellFormedLines(prefix);
      assert lines == prefix + [lines[n]];
      ParseLinesAppend(prefix, [lines[n]]);
      LinePairsIff(lines[n]);
      assert ParseLines([lines[n]]) == LinePairs(lines[n]) + ParseLines([]);
      var parsed, pparsed := ParseLines(lines), ParseLines(prefix);
      var idx, pidx := KeptIndices(lines), KeptIndices(prefix);
      assert parsed == pparsed + LinePairs(lines[n]);
      assert idx == pidx + (if WellFormed(lines[n]) then [n] else []);
      forall k | 0 <= k < |idx|
        ensures parsed[k] == LinePair(lines[idx[k]])
      {
        if k < |pidx| {
          assert parsed[k] == pparsed[k];
          assert prefix[pidx[k]] == lines[pidx[k]];
        }
      }
    }
  }

  // ---------------------------------------------------------------------
  // The inverse direction: writing pairs out as a key file.

  /** A pair survives a write-and-read unchanged when neither part holds a
      bar or a line break, the question does not start with white space and
      the answer does not end with it. */
  predicate Writable(p: Pair) {
    Bar !in p.question && Bar !in p.answer
    && LineBreak !in p.question && LineBreak !in p.answer
    && (p.question == [] || !IsSpace(p.question[0]))
    && (p.answer == [] || !IsSpace(p.answer[|p.answer| - 1]))
  }

  function Line(p: Pair): string {
    p.question + [Bar] + p.answer
  }

  /** The key file of `pairs`: one `question|answer` line each. */
  function Render(pairs: seq<Pair>): string {
    if pairs == [] then [] else Line(pairs[0]) + [LineBreak] + Render(pairs[1..])
  }

  function Lines(pairs: seq<Pair>): (r: seq<string>)
    ensures |r| == |pairs|
  {
    seq(|pairs|, k requires 0 <= k < |pairs| => Line(pairs[k]))
  }

  lemma {:induction false} RenderIsJoin(pairs: seq<Pair>)
    ensures Render(pairs) == Join(Lines(pairs) + [[]], LineBreak)
  {
    if pairs != [] {
      RenderIsJoin(pairs[1..]);
      assert Lines(pairs) + [[]] == [Line(pairs[0])] + (Lines(pairs[1..]) + [[]]);
    }
  }

  lemma LineParses(p: Pair)
    requires Writable(p)
    ensures LinePairs(Line(p)) == [p]
  {
    var l := Line(p);
    assert l[0] == (if p.question == [] then Bar else p.question[0]);
    assert l[|l| - 1] == (if p.answer == [] then Bar else p.answer[|p.answer| - 1]);
    assert TrimStart(l) == l;
    assert TrimEnd(l) == l;
    assert Join([p.question, p.answer], Bar) == l;
    SplitJoin([p.question, p.answer], Bar);
  }

  lemma {:induction false} ParseLinesOfLines(pairs: seq<Pair>)
    requires forall k :: 0 <= k < |pairs| ==> Writable(pairs[k])
    ensures ParseLines(Lines(pairs)) == pairs
  {
    if pairs != [] {
      LineParses(pairs[0]);
      ParseLinesOfLines(pairs[1..]);
      assert Lines(pairs)[1..] == Lines(pairs[1..]);
    }
  }

  lemma LinesNoBreak(pairs: seq<Pair>)
    requires forall k :: 0 <= k < |pairs| ==> Writable(pairs[k])
    ensures var ls := Lines(pairs) + [[]];
      forall k :: 0 <= k < |ls| ==> LineBreak !in ls[k]
  {
    var ls := Lines(pairs) + [[]];
    forall k | 0 <= k < |ls|
      ensures LineBreak !in ls[k]
    {
      if k < |pairs| {
        var p := pairs[k];
        assert ls[k] == p.question + [Bar] + p.answer;
        assert Writable(p);
      }
    }
  }

  /** Reading back a written key file gives the same pairs in the same
      order. */
  lemma ParseRender(pairs: seq<Pair>)
    requires forall k :: 0 <= k < |pairs| ==> Writable(pairs[k])
    ensures Parse(Render(pairs)) == pairs
  {
    var text := Render(pairs);
    var ls := Lines(pairs) + [[]];
    RenderIsJoin(pairs);
    assert text == Join(ls, LineBreak);
    LinesNoBreak(pairs);
    SplitJoin(ls, LineBreak);
    assert Split(text, LineBreak) == ls;
    ParseLinesAppend(Lines(pairs), [[]]);
    EmptyLineDropped();
    ParseLinesOfLines(pairs);
    calc {
      Parse(text);
      ParseLines(ls);
      ParseLines(Lines(pairs)) + ParseLines([[]]);
      pairs;
    }
  }

  /** An empty line, such as the one after a final line break, gives no pair. */
  lemma EmptyLineDropped()
    ensures ParseLines([[]]) == []
  {
    assert Trim([]) == [];
    assert Split([], Bar) == [[]];
    assert ParseLines([[]]) == LinePairs([]) + ParseLines([]);
  }

  /** Two good lines and one without a bar: the bad line is dropped and
      the order is kept. */
  lemma ExampleFile()
    ensures Parse("2+2|4\n3+3|6\nbadline\n") == [Pair("2+2", "4"), Pair("3+3", "6")]
  {
    var lines := ["2+2|4", "3+3|6", "badline", ""];
    ExampleLines();
    ExampleLinesParse();
    assert Parse("2+2|4\n3+3|6\nbadline\n") == ParseLines(lines);
  }

  lemma ExampleLines()
    ensures Split("2+2|4\n3+3|6\nbadline\n", LineBreak) == ["2+2|4", "3+3|6", "badline", ""]
  {
    var lines := ["2+2|4", "3+3|6", "badline", ""];
    var text := "2+2|4\n3+3|6\nbadline\n";
    assert Join(lines[3..], LineBreak) == "";
    assert Join(lines[2..], LineBreak) == "badline" + "\n" + "";
    assert Join(lines[1..], LineBreak) == "3+3|6" + "\n" + "badline\n";
    assert Join(lines, LineBreak) == "2+2|4" + "\n" + "3+3|6\nbadline\n";
    assert Join(lines, LineBreak) == text;
    SplitJoin(lines, LineBreak);
  }

  lemma ExampleLinesParse()
    ensures ParseLines(["2+2|4", "3+3|6", "badline", ""]) == [Pair("2+2", "4"), Pair("3+3", "6")]
  {
    var good := [Pair("2+2", "4"), Pair("3+3", "6")];
    var rest := ["badline", ""];
    assert Line(good[0]) == "2+2|4";
    assert Line(good[1]) == "3+3|6";
    assert Lines(good) == ["2+2|4", "3+3|6"];
    assert ["2+2|4", "3+3|6", "badline", ""] == Lines(good) + rest;
    ParseLinesAppend(Lines(good), rest);
    ExampleGoodLines();
    ExampleBadLines();
  }

  lemma ExampleGoodLines()
    ensures ParseLines(Lines([Pair("2+2", "4"), Pair("3+3", "6")])) == [Pair("2+2", "4"), Pair("3+3", "6")]
  {
    var good := [Pair("2+2", "4"), Pair("3+3", "6")];
    assert Writable(good[0]) && Writable(good[1]);
    ParseLinesOfLines(good);
  }

  lemma ExampleBadLines()
    ensures ParseLines(["badline", ""]) == []
  {
    var bad := "badline";
    assert TrimStart(bad) == bad;
    assert TrimEnd(bad) == bad;
    SplitFieldFree(bad, Bar);
    assert LinePairs(bad) == [];
    assert ParseLines([bad, ""]) == LinePairs(bad) + ParseLines([""]);
    EmptyLineDropped();
  }
}
