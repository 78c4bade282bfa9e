/** The parser that turns one LLM completion into question/answer records
    (`QAGenerator._parse_qa_output`). The completion is stripped, split into
    lines, and scanned once: a `Q:` line followed by an `A:` line gives one
    pair; a `Q:` line always consumes the line after it, whatever that line is;
    every other line is passed over. */
module QAParser {
  import opened PyStrings

  /** One record of the generated dataset. */
  datatype QAPair = QAPair(question: string, answer: string)

  predicate IsQuestionLine(line: string)
  {
    StartsWith(line, "Q:")
  }

  predicate IsAnswerLine(line: string)
  {
    StartsWith(line, "A:")
  }

  /** The text after the two-character marker, stripped. */
  function FieldText(line: string): string
  {
    Strip(SliceFrom(line, 2))
  }

  /** The pair built from the question line at `i` and the line after it. */
  function PairAt(lines: seq<string>, i: nat): QAPair
    requires i + 1 < |lines|
  {
    QAPair(FieldText(lines[i]), FieldText(lines[i + 1]))
  }

  /** The lines the scan works on: the stripped completion split at newlines. */
  function Lines(output: string): seq<string>
  {
    Split(Strip(output))
  }

  /** What the scan appends to its result from index `i` to the end. */
  function ScanFrom(lines: seq<string>, i: nat): seq<QAPair>
    decreases |lines| - i
  {
    if i >= |lines| then []
    else if IsQuestionLine(lines[i]) then
      (if i + 1 < |lines| && IsAnswerLine(lines[i + 1]) then [PairAt(lines, i)] else [])
      + ScanFrom(lines, i + 2)
    else
      ScanFrom(lines, i + 1)
  }

  /** The pairs parsed from a whole completion. */
  function ParseOutput(output: string): seq<QAPair>
  {
    ScanFrom(Lines(output), 0)
  }

  /** The line scanner itself (data_gen.py, `_parse_qa_output`): strip the
      completion, split it into lines, and scan them. */
  method ParseQAOutput(output: string) returns (pairs: seq<QAPair>)
    ensures pairs == ParseOutput(output)
  {
    var lines := Split(Strip(output));
    pairs := ScanLines(lines);
  }

  /** The scanning loop of `_parse_qa_output` over the split lines. */
  method ScanLines(lines: seq<string>) returns (pairs: seq<QAPair>)
    ensures pairs == ScanFrom(lines, 0)
  {
    pairs := [];
    var i := 0;
    while i < |lines|
      invariant i <= |lines| + 1
      invariant pairs + ScanFrom(lines, i) == ScanFrom(lines, 0)
      decreases |lines| - i
    {
      if IsQuestionLine(lines[i]) {
        var question := FieldText(lines[i]);
        if i + 1 < |lines| && IsAnswerLine(lines[i + 1]) {
          var answer := FieldText(lines[i + 1]);
          assert ScanFrom(lines, i) == [QAPair(question, answer)] + ScanFrom(lines, i + 2);
          pairs := pairs + [QAPair(question, answer)];
        } else {
          assert ScanFrom(lines, i) == ScanFrom(lines, i + 2);
        }
        i := i + 2;
      } else {
        assert ScanFrom(lines, i) == ScanFrom(lines, i + 1);
        i := i + 1;
      }
    }
  }

  // ---------------------------------------------------------------------------
  // A reference definition: the scan as a two-state machine reading one line
  // at a time. Waiting for a question, a `Q:` line moves it to waiting for the
  // answer; waiting for the answer, the next line is consumed whatever it is
  // and a pair is emitted only if it is an `A:` line.

  datatype ScanState = SeekQuestion | SeekAnswer(question: string)

  function RunMachine(state: ScanState, lines: seq<string>): seq<QAPair>
    decreases |lines|
  {
    if lines == [] then []
    else
      match state
      case SeekQuestion =>
        if IsQuestionLine(lines[0]) then RunMachine(SeekAnswer(FieldText(lines[0])), lines[1..])
        else RunMachine(SeekQuestion, lines[1..])
      case SeekAnswer(q) =>
        (if IsAnswerLine(lines[0]) then [QAPair(q, FieldText(lines[0]))] else [])
        + RunMachine(SeekQuestion, lines[1..])
  }

  /** The index-jumping scan and the line-at-a-time machine agree. */
  lemma {:induction false} ScanAgreesWithMachine(lines: seq<string>, i: nat)
    requires i <= |lines|
    ensures ScanFrom(lines, i) == RunMachine(SeekQuestion, lines[i..])
    decreases |lines| - i
  {
    if i < |lines| {
      var rest := lines[i..];
      assert rest[1..] == lines[i + 1..];
      if IsQuestionLine(lines[i]) {
        var q := FieldText(lines[i]);
        if i + 1 < |lines| {
          assert rest[1..][1..] == lines[i + 2..];
          ScanAgreesWithMachine(lines, i + 2);
        }
      } else {
        ScanAgreesWithMachine(lines, i + 1);
      }
    }
  }

  // ---------------------------------------------------------------------------
  // A second reference: which line indices the scan visits, defined backwards
  // from the index, and the pairs those visits emit, read off in index order.

  /** Index `j` is visited by the scan: it is the first line, or it follows a
      visited line that is not a question, or it is two past a visited question. */
  predicate Visited(lines: seq<string>, j: nat)
    decreases j
  {
    j == 0
    || (1 <= j <= |lines| && Visited(lines, j - 1) && !IsQuestionLine(lines[j - 1]))
    || (2 <= j <= |lines| + 1 && Visited(lines, j - 2) && IsQuestionLine(lines[j - 2]))
  }

  /** A pair is made at index `j`: the scan visits a question line there and
      the next line is an answer line. */
  predicate Emits(lines: seq<string>, j: nat)
  {
    j + 1 < |lines| && Visited(lines, j) && IsQuestionLine(lines[j]) && IsAnswerLine(lines[j + 1])
  }

  /** The indices from `i` on that make a pair, in increasing order. */
  function EmitPositionsFrom(lines: seq<string>, i: nat): (ps: seq<nat>)
    ensures forall j: nat :: j in ps <==> i <= j < |lines| && Emits(lines, j)
    ensures forall k, l :: 0 <= k < l < |ps| ==> ps[k] < ps[l]
    decreases |lines| - i
  {
    if i >= |lines| then []
    else
      var rest := EmitPositionsFrom(lines, i + 1);
      assert forall k :: 0 <= k < |rest| ==> i < rest[k] by {
        forall k | 0 <= k < |rest| ensures i < rest[k] {
          assert rest[k] in rest;
        }
      }
      (if Emits(lines, i) then [i] else []) + rest
  }

  /** The pairs made from index `i` on, in index order. */
  function CollectFrom(lines: seq<string>, i: nat): seq<QAPair>
    decreases |lines| - i
  {
    if i >= |lines| then []
    else (if Emits(lines, i) then [PairAt(lines, i)] else []) + CollectFrom(lines, i + 1)
  }

  lemma {:induction false} CollectFollowsPositions(lines: seq<string>, i: nat)
    ensures |CollectFrom(lines, i)| == |EmitPositionsFrom(lines, i)|
    ensures forall k :: 0 <= k < |CollectFrom(lines, i)| ==>
              EmitPositionsFrom(lines, i)[k] + 1 < |lines|
              && CollectFrom(lines, i)[k] == PairAt(lines, EmitPositionsFrom(lines, i)[k])
    decreases |lines| - i
  {
    if i < |lines| {
      CollectFollowsPositions(lines, i + 1);
      var c, p := CollectFrom(lines, i + 1), EmitPositionsFrom(lines, i + 1);
      if Emits(lines, i) {
        assert CollectFrom(lines, i) == [PairAt(lines, i)] + c;
        assert EmitPositionsFrom(lines, i) == [i] + p;
      } else {
        assert CollectFrom(lines, i) == c;
        assert EmitPositionsFrom(lines, i) == p;
      }
    }
  }

  /** A visited question line consumes the next line: that line is never
      visited, so even a `Q:` line there is never read as a question; the
      scan goes on two lines further. A visited line that is not a question
      makes no pair and the scan goes on at the next line. */
  lemma {:induction false} VisitedStep(lines: seq<string>, j: nat)
    requires j < |lines| && Visited(lines, j)
    ensures IsQuestionLine(lines[j]) ==> !Visited(lines, j + 1) && Visited(lines, j + 2)
    ensures !IsQuestionLine(lines[j]) ==> Visited(lines, j + 1) && !Emits(lines, j)
    decreases j
  {
    if IsQuestionLine(lines[j]) && j >= 1 && Visited(lines, j - 1) && IsQuestionLine(lines[j - 1]) {
      VisitedStep(lines, j - 1);
      assert false;
    }
  }

  /** At a visited question line with a line after it, the visits make the
      pair of those two lines when the second is an answer line, and nothing
      at the consumed line. */
  lemma QuestionStep(lines: seq<string>, i: nat)
    requires i + 1 < |lines| && Visited(lines, i) && IsQuestionLine(lines[i])
    ensures CollectFrom(lines, i)
            == (if IsAnswerLine(lines[i + 1]) then [PairAt(lines, i)] else []) + CollectFrom(lines, i + 2)
  {
    VisitedStep(lines, i);
    assert !Emits(lines, i + 1);
    assert CollectFrom(lines, i + 1) == CollectFrom(lines, i + 2);
  }

  /** From every visited index on, the scan makes exactly what the visits from
      there on make. */
  lemma {:induction false} ScanCollectsFromVisited(lines: seq<string>, i: nat)
    requires Visited(lines, i)
    ensures ScanFrom(lines, i) == CollectFrom(lines, i)
    decreases |lines| - i
  {
    if i < |lines| {
      VisitedStep(lines, i);
      if !IsQuestionLine(lines[i]) {
        ScanCollectsFromVisited(lines, i + 1);
        assert CollectFrom(lines, i) == CollectFrom(lines, i + 1);
      } else if i + 1 < |lines| {
        ScanCollectsFromVisited(lines, i + 2);
        QuestionStep(lines, i);
      } else {
        assert !Emits(lines, i);
        assert CollectFrom(lines, i + 1) == [];
      }
    }
  }

  /** The scan's result, characterised without the scan: it holds exactly one
      pair per visited question line that is directly followed by an answer
      line, built from those two lines, in the order of the lines. */
  lemma ScanEmitsAtVisitedQuestions(lines: seq<string>)
    ensures var ps := EmitPositionsFrom(lines, 0);
            |ScanFrom(lines, 0)| == |ps|
            && forall k :: 0 <= k < |ps| ==>
                 ps[k] + 1 < |lines| && ScanFrom(lines, 0)[k] == PairAt(lines, ps[k])
  {
    ScanCollectsFromVisited(lines, 0);
    CollectFollowsPositions(lines, 0);
  }

  /** `p` is the pair of some `Q:` line directly followed by an `A:` line:
      the stripped text after each marker. */
  predicate FromAdjacentLines(lines: seq<string>, p: QAPair)
  {
    exists j :: 0 <= j && j + 1 < |lines| && IsQuestionLine(lines[j]) && IsAnswerLine(lines[j + 1])
                && p == QAPair(FieldText(lines[j]), FieldText(lines[j + 1]))
  }

  /** Every parsed pair comes from a `Q:` line directly followed by an `A:`
      line, its question and answer being the stripped text after each marker. */
  lemma ParsedPairsComeFromAdjacentLines(lines: seq<string>)
    ensures forall k :: 0 <= k < |ScanFrom(lines, 0)| ==> FromAdjacentLines(lines, ScanFrom(lines, 0)[k])
  {
    ScanEmitsAtVisitedQuestions(lines);
    var ps := EmitPositionsFrom(lines, 0);
    forall k | 0 <= k < |ScanFrom(lines, 0)|
      ensures FromAdjacentLines(lines, ScanFrom(lines, 0)[k])
    {
      var j := ps[k];
      assert j in ps;
      assert ScanFrom(lines, 0)[k] == PairAt(lines, j);
      assert Emits(lines, j);
    }
  }

  // ---------------------------------------------------------------------------
  // Bounds.

  /** Number of lines that start with `Q:`. */
  function QuestionLineCount(lines: seq<string>): nat
  {
    if lines == [] then 0
    else (if IsQuestionLine(lines[0]) then 1 else 0) + QuestionLineCount(lines[1..])
  }

  lemma {:induction false} ScanBoundsFrom(lines: seq<string>, i: nat)
    requires i <= |lines|
    ensures 2 * |ScanFrom(lines, i)| <= |lines| - i
    ensures |ScanFrom(lines, i)| <= QuestionLineCount(lines[i..])
    decreases |lines| - i
  {
    if i < |lines| {
      var rest := lines[i..];
      assert rest[1..] == lines[i + 1..];
      if IsQuestionLine(lines[i]) {
        if i + 1 < |lines| {
          ScanBoundsFrom(lines, i + 2);
          assert rest[1..][1..] == lines[i + 2..];
          assert QuestionLineCount(lines[i + 1..]) >= QuestionLineCount(lines[i + 2..]);
        }
      } else {
        ScanBoundsFrom(lines, i + 1);
      }
    }
  }

  /** At most one pair per two lines, and at most one pair per `Q:` line. */
  lemma ScanBounds(lines: seq<string>)
    ensures |ScanFrom(lines, 0)| <= |lines| / 2
    ensures |ScanFrom(lines, 0)| <= QuestionLineCount(lines)
  {
    ScanBoundsFrom(lines, 0);
    assert lines[0..] == lines;
  }

  // ---------------------------------------------------------------------------
  // Facts about whole completions.

  /** Whitespace before and after the completion makes no difference, since the
      whole completion is stripped before it is split. */
  lemma ParseIgnoresSurroundingWhitespace(ws1: string, output: string, ws2: string)
    requires AllWhitespace(ws1) && AllWhitespace(ws2)
    ensures ParseOutput(ws1 + output + ws2) == ParseOutput(output)
  {
    StripIgnoresPadding(ws1, output, ws2);
  }

  /** An empty or all-whitespace completion gives no pairs. */
  lemma BlankOutputGivesNoPairs(output: string)
    requires AllWhitespace(output)
    ensures ParseOutput(output) == []
  {
    StripSpec(output);
    assert Strip(output) == [];
    assert Lines(output) == [""];
    assert !IsQuestionLine("");
    assert ScanFrom([""], 0) == ScanFrom([""], 1) == [];
  }

  /** A question line directly after a question line without an answer is
      taken as the missing answer, and the answer line that follows it is
      then passed over: no pair at all. */
  lemma FailedQuestionSwallowsNextQuestion()
    ensures ParseOutput("Q: a\nQ: b\nA: c") == []
  {
    LinesOfThreeLineText();
    ScanOfSwallowedQuestion();
  }

  lemma LinesOfThreeLineText()
    ensures Lines("Q: a\nQ: b\nA: c") == ["Q: a", "Q: b", "A: c"]
  {
    var text, lines := "Q: a\nQ: b\nA: c", ["Q: a", "Q: b", "A: c"];
    assert Join(lines) == text;
    StripOfTrimmed(text);
    SplitJoin(lines);
  }

  lemma ScanOfSwallowedQuestion()
    ensures ScanFrom(["Q: a", "Q: b", "A: c"], 0) == []
  {
    var lines := ["Q: a", "Q: b", "A: c"];
    assert lines[1][..2][0] == 'Q' && lines[2][..2][0] == 'A';
    assert !IsAnswerLine(lines[1]) && !IsQuestionLine(lines[2]);
    assert ScanFrom(lines, 2) == [];
  }

  /** A complete pair followed by a blank line and a question with no answer
      gives only the complete pair. */
  lemma TrailingQuestionWithoutAnswerIsDropped()
    ensures ParseOutput("Q: q\nA: a\n\nQ: r")
            == [QAPair("q", "a")]
  {
    LinesOfFourLineText();
    ScanOfTrailingQuestion();
  }

  lemma LinesOfFourLineText()
    ensures Lines("Q: q\nA: a\n\nQ: r")
            == ["Q: q", "A: a", "", "Q: r"]
  {
    var text := "Q: q\nA: a\n\nQ: r";
    var lines := ["Q: q", "A: a", "", "Q: r"];
    assert Join(lines) == text;
    StripOfTrimmed(text);
    SplitJoin(lines);
  }

  lemma ScanOfTrailingQuestion()
    ensures ScanFrom(["Q: q", "A: a", "", "Q: r"], 0)
            == [QAPair("q", "a")]
  {
  }

  /** With Windows line endings every line but the last keeps its `'\r'`,
      since the split is on `'\n'` only; the markers are still recognised,
      the `'\r'` is stripped off the questions and the answers, and a line
      holding only `'\r'` is passed over like a blank line. */
  lemma CarriageReturnsAreStripped()
    ensures ParseOutput("Q: q\r\nA: a\r\n\r\nQ: r\r\nA: s")
            == [QAPair("q", "a"), QAPair("r", "s")]
  {
    LinesOfCrLfText();
    ScanOfCrLfLines();
  }

  lemma LinesOfCrLfText()
    ensures Lines("Q: q\r\nA: a\r\n\r\nQ: r\r\nA: s")
            == ["Q: q\r", "A: a\r", "\r", "Q: r\r", "A: s"]
  {
    var text := "Q: q\r\nA: a\r\n\r\nQ: r\r\nA: s";
    var lines := ["Q: q\r", "A: a\r", "\r", "Q: r\r", "A: s"];
    JoinOfCrLfLines();
    StripOfTrimmed(text);
    SplitJoin(lines);
  }

  lemma JoinOfCrLfLines()
    ensures Join(["Q: q\r", "A: a\r", "\r", "Q: r\r", "A: s"]) == "Q: q\r\nA: a\r\n\r\nQ: r\r\nA: s"
  {
  }

  lemma ScanOfCrLfLines()
    ensures ScanFrom(["Q: q\r", "A: a\r", "\r", "Q: r\r", "A: s"], 0)
            == [QAPair("q", "a"), QAPair("r", "s")]
  {
    var lines := ["Q: q\r", "A: a\r", "\r", "Q: r\r", "A: s"];
    assert IsQuestionLine(lines[0]) && IsAnswerLine(lines[1]);
    assert !IsQuestionLine(lines[2]);
    assert IsQuestionLine(lines[3]) && IsAnswerLine(lines[4]);
    assert ScanFrom(lines, 5) == [];
    CrLfFieldTexts();
    assert ScanFrom(lines, 3) == [QAPair("r", "s")];
    assert ScanFrom(lines, 2) == ScanFrom(lines, 3);
  }

  lemma CrLfFieldTexts()
    ensures FieldText("Q: q\r") == "q" && FieldText("A: a\r") == "a"
    ensures FieldText("Q: r\r") == "r" && FieldText("A: s") == "s"
  {
    FieldTextOfShortLine("Q: q\r");
    FieldTextOfShortLine("A: a\r");
    FieldTextOfShortLine("Q: r\r");
    FieldTextOfShortLine("A: s");
  }

  /** The field of a marker, a space, one character and maybe a `'\r'`. */
  lemma FieldTextOfShortLine(line: string)
    requires |line| == 4 || (|line| == 5 && line[4] == '\r')
    requires line[2] == ' ' && !IsWhitespace(line[3])
    ensures FieldText(line) == [line[3]]
  {
    var rest := SliceFrom(line, 2);
    assert rest[0] == ' ' && rest[1..][0] == line[3];
    assert LStrip(rest) == rest[1..];
    if |line| == 5 {
      assert rest[1..][..1] == [line[3]];
      assert RStrip([line[3]]) == [line[3]];
    } else {
      assert rest[1..] == [line[3]];
    }
  }
}
