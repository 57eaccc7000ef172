/**
 * The question-file parser of console_quiz.py (load_questions), taken as a
 * function of the file's content: the file is cut into sections at every
 * blank line ("\n\n"); the first line of a section is the question, and the
 * lines after it that start with '*' are its answers. An answer whose line,
 * lower-cased, contains "верно" or "выбрано" is also recorded as a correct
 * answer. Correct answers are kept as texts, not as positions.
 */
module QuestionFile {
  import opened Wrappers
  import opened PyStr

  /** One question record: the dictionary with keys 'question', 'answers' and 'correct_answers'. */
  datatype Question = Question(text: string, answers: seq<string>, correctAnswers: seq<string>)

  const SectionSeparator: string := "\n\n"
  const LineSeparator: string := "\n"
  const OptionMarker: string := "*"
  const CorrectKeyword: string := "верно"
  const ChosenKeyword: string := "выбрано"

  /** Only lines that start with '*' are answers. */
  predicate IsOptionLine(line: string) {
    StartsWith(line, OptionMarker)
  }

  /** The stored text of an answer: the line without its first two characters, stripped. */
  function AnswerText(line: string): string {
    Strip(DropPrefix(line, 2))
  }

  /** A line marks its answer correct when, lower-cased, it contains either keyword. */
  predicate MarksCorrect(line: string) {
    Contains(Lower(line), CorrectKeyword) || Contains(Lower(line), ChosenKeyword)
  }

  /** A line that is an answer marked correct. */
  predicate IsCorrectLine(line: string) {
    IsOptionLine(line) && MarksCorrect(line)
  }

  /** The texts of the lines that `keep` selects, in order: what an appending loop over `lines` builds. */
  function Collect(lines: seq<string>, keep: string -> bool, text: string -> string): (r: seq<string>)
    ensures |r| <= |lines|
  {
    if lines == [] then []
    else
      var n := |lines| - 1;
      Collect(lines[..n], keep, text) + (if keep(lines[n]) then [text(lines[n])] else [])
  }

  lemma CollectSnoc(lines: seq<string>, line: string, keep: string -> bool, text: string -> string)
    ensures Collect(lines + [line], keep, text)
            == Collect(lines, keep, text) + (if keep(line) then [text(line)] else [])
  {
    assert (lines + [line])[..|lines|] == lines;
  }

  /** The answers the inner loop collects from `lines`. */
  function Answers(lines: seq<string>): seq<string> {
    Collect(lines, IsOptionLine, AnswerText)
  }

  /** The correct answers the inner loop collects from `lines`. */
  function CorrectAnswers(lines: seq<string>): seq<string> {
    Collect(lines, IsCorrectLine, AnswerText)
  }

  /** The record built from one section. */
  function ParseSection(section: string): Question {
    var lines := Split(Strip(section), LineSeparator);
    Question(Strip(lines[0]), Answers(lines[1..]), CorrectAnswers(lines[1..]))
  }

  /** One record per section, in the sections' order. */
  function ParseSections(sections: seq<string>): (questions: seq<Question>)
    ensures |questions| == |sections|
    ensures forall i :: 0 <= i < |sections| ==> questions[i] == ParseSection(sections[i])
  {
    if sections == [] then []
    else ParseSections(sections[..|sections| - 1]) + [ParseSection(sections[|sections| - 1])]
  }

  /** What load_questions returns for a file with this content. */
  function ParseContent(content: string): seq<Question> {
    ParseSections(Split(content, SectionSeparator))
  }

  /**
   * load_questions after the file has been read: one record per section,
   * appended in order.
   */
  method LoadQuestions(content: string) returns (questions: seq<Question>)
    ensures questions == ParseContent(content)
    ensures |questions| == |Split(content, SectionSeparator)|
  {
    var sections := Split(content, SectionSeparator);
    questions := [];
    var s := 0;
    while s < |sections|
      invariant 0 <= s <= |sections|
      invariant questions == ParseSections(sections[..s])
    {
      var question := LoadSection(sections[s]);
      questions := questions + [question];
      assert sections[..s + 1][..s] == sections[..s];
      s := s + 1;
    }
    assert sections[..s] == sections;
  }

  /** The body of load_questions' outer loop: the question line, then the answer lines. */
  method LoadSection(section: string) returns (question: Question)
    ensures question == ParseSection(section)
  {
    var lines := Split(Strip(section), LineSeparator);
    var questionText := Strip(lines[0]);
    var answers, correctAnswers := LoadAnswers(lines[1..]);
    question := Question(questionText, answers, correctAnswers);
  }

  /** The inner loop of load_questions, appending to answers and correct_answers. */
  method LoadAnswers(lines: seq<string>) returns (answers: seq<string>, correctAnswers: seq<string>)
    ensures answers == Answers(lines)
    ensures correctAnswers == CorrectAnswers(lines)
  {
    answers, correctAnswers := [], [];
    var j := 0;
    while j < |lines|
      invariant 0 <= j <= |lines|
      invariant answers == Answers(lines[..j])
      invariant correctAnswers == CorrectAnswers(lines[..j])
    {
      var line := lines[j];
      if IsOptionLine(line) {
        var answerText := AnswerText(line);
        var isCorrect := MarksCorrect(line);
        answers := answers + [answerText];
        if isCorrect {
          correctAnswers := correctAnswers + [answerText];
        }
      }
      assert lines[..j + 1] == lines[..j] + [line];
      CollectSnoc(lines[..j], line, IsOptionLine, AnswerText);
      CollectSnoc(lines[..j], line, IsCorrectLine, AnswerText);
      j := j + 1;
    }
    assert lines[..j] == lines;
  }

  // ---------------------------------------------------------------- properties

  /** `idx` picks, in increasing order, the positions of `b` that spell out `a`. */
  ghost predicate SubsequenceAt(a: seq<string>, b: seq<string>, idx: seq<nat>) {
    && |idx| == |a|
    && (forall k :: 0 <= k < |idx| ==> idx[k] < |b| && a[k] == b[idx[k]])
    && (forall k, l :: 0 <= k < l < |idx| ==> idx[k] < idx[l])
  }

  /** The positions of the lines of `lines` that `keep` selects, in order. */
  ghost function Positions(lines: seq<string>, keep: string -> bool): (idx: seq<nat>)
    ensures forall k :: 0 <= k < |idx| ==> idx[k] < |lines| && keep(lines[idx[k]])
    ensures forall k, l :: 0 <= k < l < |idx| ==> idx[k] < idx[l]
    ensures forall j :: 0 <= j < |lines| && keep(lines[j]) ==> j in idx
  {
    if lines == [] then []
    else
      var n := |lines| - 1;
      Positions(lines[..n], keep) + (if keep(lines[n]) then [n] else [])
  }

  /**
   * For a selection `keep2` finer than `keep`: the positions, among the lines
   * `keep` selects, of those that `keep2` selects as well.
   */
  ghost function SubPositions(lines: seq<string>, keep: string -> bool, keep2: string -> bool): seq<nat> {
    if lines == [] then []
    else
      var n := |lines| - 1;
      SubPositions(lines[..n], keep, keep2)
        + (if keep2(lines[n]) then [|Positions(lines[..n], keep)|] else [])
  }

  lemma {:induction false} CollectAtPositions(lines: seq<string>, keep: string -> bool, text: string -> string)
    ensures |Collect(lines, keep, text)| == |Positions(lines, keep)|
    ensures forall k :: 0 <= k < |Positions(lines, keep)| ==>
              Collect(lines, keep, text)[k] == text(lines[Positions(lines, keep)[k]])
  {
    if lines != [] {
      var n := |lines| - 1;
      var init := lines[..n];
      CollectAtPositions(init, keep, text);
      var p0, p := Positions(init, keep), Positions(lines, keep);
      forall k | 0 <= k < |p0| ensures p[k] == p0[k] && lines[p[k]] == init[p0[k]] {
      }
    }
  }

  /** SubPositions maps the k-th position `keep2` selects to its place among the positions `keep` selects. */
  lemma {:induction false} SubPositionsMap(lines: seq<string>, keep: string -> bool, keep2: string -> bool)
    requires forall line :: keep2(line) ==> keep(line)
    ensures |SubPositions(lines, keep, keep2)| == |Positions(lines, keep2)|
    ensures forall k :: 0 <= k < |SubPositions(lines, keep, keep2)| ==>
              SubPositions(lines, keep, keep2)[k] < |Positions(lines, keep)|
              && Positions(lines, keep)[SubPositions(lines, keep, keep2)[k]] == Positions(lines, keep2)[k]
  {
    if lines != [] {
      var n := |lines| - 1;
      var init := lines[..n];
      SubPositionsMap(init, keep, keep2);
      var s0, s := SubPositions(init, keep, keep2), SubPositions(lines, keep, keep2);
      var p0, p := Positions(init, keep), Positions(lines, keep);
      var q0, q := Positions(init, keep2), Positions(lines, keep2);
      forall k | 0 <= k < |s| ensures s[k] < |p| && p[s[k]] == q[k] {
        if k < |s0| {
          assert s[k] == s0[k] && q[k] == q0[k] && p[s0[k]] == p0[s0[k]];
        }
      }
    }
  }

  /** The positions SubPositions lists strictly increase. */
  lemma {:induction false} SubPositionsIncreasing(lines: seq<string>, keep: string -> bool, keep2: string -> bool)
    requires forall line :: keep2(line) ==> keep(line)
    ensures forall k, l :: 0 <= k < l < |SubPositions(lines, keep, keep2)| ==>
              SubPositions(lines, keep, keep2)[k] < SubPositions(lines, keep, keep2)[l]
  {
    if lines != [] {
      var n := |lines| - 1;
      var init := lines[..n];
      SubPositionsIncreasing(init, keep, keep2);
      SubPositionsMap(init, keep, keep2);
      var s0, s := SubPositions(init, keep, keep2), SubPositions(lines, keep, keep2);
      forall k, l | 0 <= k < l < |s| ensures s[k] < s[l] {
        assert s[k] == s0[k];
        if l < |s0| {
          assert s[l] == s0[l];
        }
      }
    }
  }

  /** A position among those `keep` selects is listed by SubPositions exactly when `keep2` selects its line. */
  lemma {:induction false} SubPositionsMembership(lines: seq<string>, keep: string -> bool, keep2: string -> bool)
    requires forall line :: keep2(line) ==> keep(line)
    ensures forall k :: 0 <= k < |Positions(lines, keep)| ==>
              (k in SubPositions(lines, keep, keep2) <==> keep2(lines[Positions(lines, keep)[k]]))
  {
    if lines != [] {
      var n := |lines| - 1;
      var init := lines[..n];
      SubPositionsMembership(init, keep, keep2);
      SubPositionsMap(init, keep, keep2);
      var s0, s := SubPositions(init, keep, keep2), SubPositions(lines, keep, keep2);
      var p0, p := Positions(init, keep), Positions(lines, keep);
      forall k | 0 <= k < |p| ensures k in s <==> keep2(lines[p[k]]) {
        if k < |p0| {
          assert p[k] == p0[k] && lines[p0[k]] == init[p0[k]];
          assert k in s <==> k in s0;
        } else {
          assert k !in s0;
        }
      }
    }
  }

  /** Collecting with a finer selection picks a subsequence, at the positions SubPositions names. */
  lemma CollectSubsequence(lines: seq<string>, keep: string -> bool, keep2: string -> bool, text: string -> string)
    requires forall line :: keep2(line) ==> keep(line)
    ensures SubsequenceAt(Collect(lines, keep2, text), Collect(lines, keep, text), SubPositions(lines, keep, keep2))
  {
    CollectAtPositions(lines, keep, text);
    CollectAtPositions(lines, keep2, text);
    SubPositionsMap(lines, keep, keep2);
    SubPositionsIncreasing(lines, keep, keep2);
  }

  /**
   * The answers are exactly the '*' lines, in their order, each stored as its
   * text; the correct answers are the subsequence of the answers whose line
   * carries a keyword, and an answer is among them exactly when its line does.
   */
  lemma AnswersFromOptionLines(lines: seq<string>)
    ensures |Answers(lines)| == |Positions(lines, IsOptionLine)|
    ensures forall k :: 0 <= k < |Answers(lines)| ==>
              Answers(lines)[k] == AnswerText(lines[Positions(lines, IsOptionLine)[k]])
    ensures SubsequenceAt(CorrectAnswers(lines), Answers(lines), SubPositions(lines, IsOptionLine, IsCorrectLine))
    ensures forall k :: 0 <= k < |Answers(lines)| ==>
              (k in SubPositions(lines, IsOptionLine, IsCorrectLine)
               <==> MarksCorrect(lines[Positions(lines, IsOptionLine)[k]]))
  {
    CollectAtPositions(lines, IsOptionLine, AnswerText);
    CollectSubsequence(lines, IsOptionLine, IsCorrectLine, AnswerText);
    SubPositionsMembership(lines, IsOptionLine, IsCorrectLine);
  }

  /** At most as many correct answers as answers, and every correct answer is an answer. */
  lemma CorrectAnswersAreAnswers(lines: seq<string>)
    ensures |CorrectAnswers(lines)| <= |Answers(lines)|
    ensures forall a :: a in CorrectAnswers(lines) ==> a in Answers(lines)
  {
    CollectSubsequence(lines, IsOptionLine, IsCorrectLine, AnswerText);
    var c, a, idx := CorrectAnswers(lines), Answers(lines), SubPositions(lines, IsOptionLine, IsCorrectLine);
    forall x | x in c ensures x in a {
      var k :| 0 <= k < |c| && c[k] == x;
      assert a[idx[k]] == x;
    }
    StrictlyIncreasingBound(idx, |a|);
  }

  lemma {:induction false} StrictlyIncreasingBound(idx: seq<nat>, n: nat)
    requires forall k :: 0 <= k < |idx| ==> idx[k] < n
    requires forall k, l :: 0 <= k < l < |idx| ==> idx[k] < idx[l]
    ensures |idx| <= n
  {
    if idx != [] {
      var m := |idx| - 1;
      StrictlyIncreasingBound(idx[..m], idx[m]);
    }
  }

  /** A section gets no answers exactly when none of its lines after the first starts with '*'. */
  lemma {:induction false} NoOptionLinesNoAnswers(lines: seq<string>)
    ensures Answers(lines) == [] <==> forall j :: 0 <= j < |lines| ==> !IsOptionLine(lines[j])
    ensures Answers(lines) == [] ==> CorrectAnswers(lines) == []
  {
    if lines != [] {
      var n := |lines| - 1;
      NoOptionLinesNoAnswers(lines[..n]);
      assert forall j :: 0 <= j < n ==> lines[j] == lines[..n][j];
    }
  }

  /**
   * The question text is the part of the stripped section before its first
   * line break, stripped again; a section without a line break is all question.
   */
  lemma QuestionTextIsFirstLine(section: string)
    ensures var body := Strip(section);
            match Find(body, LineSeparator)
            case Some(i) => ParseSection(section).text == Strip(body[..i])
            case None => ParseSection(section).text == body
  {
    var body := Strip(section);
    var lines := Split(body, LineSeparator);
    match Find(body, LineSeparator)
    case Some(i) =>
      SplitFirstPiece(body, LineSeparator, i);
    case None =>
      assert lines == [body];
      StripIdempotent(section);
  }

  lemma SplitFirstPiece(s: string, sep: string, i: nat)
    requires sep != [] && Find(s, sep) == Some(i)
    ensures Split(s, sep)[0] == s[..i]
  {
  }

  /** A line is an answer exactly when its first character is '*'. */
  lemma OptionLineMarker(line: string)
    ensures IsOptionLine(line) <==> line != [] && line[0] == '*'
  {
    if line != [] && line[0] == '*' {
      assert line[..1] == OptionMarker;
    }
  }

  /**
   * The keyword test looks for a substring, so an answer written "неверно"
   * ("incorrect") is marked correct: it contains "верно".
   */
  lemma NegatedKeywordMarksCorrect()
    ensures IsCorrectLine("* неверно")
  {
    var line := "* неверно";
    assert Lower(line) == line;
    assert OccursAt(Lower(line), CorrectKeyword, 4);
    ContainsOccurs(Lower(line), CorrectKeyword);
    OptionLineMarker(line);
  }

  /** Every section is kept, the empty one too: it becomes a question with no text and no answers. */
  lemma EmptySectionKept()
    ensures ParseSection("") == Question("", [], [])
    ensures ParseContent("") == [Question("", [], [])]
  {
    assert Strip("") == "";
    assert Find("", LineSeparator) == None;
    assert Split("", LineSeparator) == [""];
    assert Find("", SectionSeparator) == None;
    assert Split("", SectionSeparator) == [""];
  }
}
