/**
 * The part of ask_question in console_quiz.py that is not console I/O: the
 * line the user typed is stripped; "exit" in any letter case ends the quiz;
 * anything else is split on whitespace, every token goes through int(), and
 * token k selects answers[k - 1]. Python's list indexing applies, so 0 and
 * negative numbers count from the end of the list; a token that is not an
 * integer (ValueError) or an index outside the list (IndexError) is a failure.
 */
module AnswerInput {
  import opened Wrappers
  import opened PyStr

  const ExitCommand: string := "exit"

  /** The exceptions ask_question can raise while converting the user's line. */
  datatype InputError =
    | NotAnInteger(token: string)
    | IndexOutOfRange(index: int)

  /** None (the user typed exit) or the list of selected answer texts. */
  datatype Reply = Exit | Selected(answers: seq<string>)

  /**
   * Python's a[i] on a list of length n: the position read, if any. Negative
   * indices count from the end, so the position is i itself or i + n.
   */
  function PyIndex(n: nat, i: int): (r: Option<nat>)
    ensures r.Some? <==> -(n as int) <= i < n
    ensures r.Some? ==> r.value < n && (r.value == i || r.value == i + n)
  {
    if 0 <= i < n then Some(i)
    else if -(n as int) <= i < 0 then Some(n + i)
    else None
  }

  /** [int(num) for num in tokens]: fails on the first token int() rejects. */
  function ParseTokens(tokens: seq<string>): (r: Result<seq<int>, InputError>)
    ensures r.Success? ==> |r.value| == |tokens|
  {
    if tokens == [] then Success([])
    else
      match ParseInt(tokens[0])
      case None => Failure(NotAnInteger(tokens[0]))
      case Some(v) =>
        match ParseTokens(tokens[1..])
        case Failure(e) => Failure(e)
        case Success(vs) => Success([v] + vs)
  }

  /**
   * The conversion succeeds exactly when int() accepts every token, and then
   * gives each token's value in order; otherwise it reports a token int() rejects.
   */
  lemma {:induction false} ParseTokensSpec(tokens: seq<string>)
    ensures var r := ParseTokens(tokens);
            && (r.Success? <==> forall k :: 0 <= k < |tokens| ==> ParseInt(tokens[k]).Some?)
            && (r.Success? ==> forall k :: 0 <= k < |tokens| ==> ParseInt(tokens[k]) == Some(r.value[k]))
            && (r.Failure? ==> exists k :: 0 <= k < |tokens| && r.error == NotAnInteger(tokens[k])
                                           && ParseInt(tokens[k]).None?)
  {
    if tokens != [] && ParseInt(tokens[0]).Some? {
      var tail := tokens[1..];
      ParseTokensSpec(tail);
      assert forall k :: 1 <= k < |tokens| ==> tokens[k] == tail[k - 1];
      var r := ParseTokens(tokens);
      if r.Failure? {
        var k :| 0 <= k < |tail| && r.error == NotAnInteger(tail[k]) && ParseInt(tail[k]).None?;
        assert tokens[k + 1] == tail[k];
      }
    }
  }

  /** [answers[i] for i in indices]: fails on the first index outside the list. */
  function SelectAnswers(answers: seq<string>, indices: seq<int>): (r: Result<seq<string>, InputError>)
    ensures r.Success? ==> |r.value| == |indices|
  {
    if indices == [] then Success([])
    else
      match PyIndex(|answers|, indices[0])
      case None => Failure(IndexOutOfRange(indices[0]))
      case Some(p) =>
        match SelectAnswers(answers, indices[1..])
        case Failure(e) => Failure(e)
        case Success(sel) => Success([answers[p]] + sel)
  }

  /**
   * The look-up succeeds exactly when every index is valid for the list, and
   * then reads the answer at each index in order; otherwise it reports an
   * index that is not.
   */
  lemma {:induction false} SelectAnswersSpec(answers: seq<string>, indices: seq<int>)
    ensures var r := SelectAnswers(answers, indices);
            && (r.Success? <==> forall k :: 0 <= k < |indices| ==> PyIndex(|answers|, indices[k]).Some?)
            && (r.Success? ==> forall k :: 0 <= k < |indices| ==>
                  r.value[k] == answers[PyIndex(|answers|, indices[k]).value])
            && (r.Failure? ==> exists k :: 0 <= k < |indices| && r.error == IndexOutOfRange(indices[k])
                                           && PyIndex(|answers|, indices[k]).None?)
  {
    if indices != [] && PyIndex(|answers|, indices[0]).Some? {
      var tail := indices[1..];
      SelectAnswersSpec(answers, tail);
      assert forall k :: 1 <= k < |indices| ==> indices[k] == tail[k - 1];
      var r := SelectAnswers(answers, indices);
      if r.Failure? {
        var k :| 0 <= k < |tail| && r.error == IndexOutOfRange(tail[k]) && PyIndex(|answers|, tail[k]).None?;
        assert indices[k + 1] == tail[k];
      }
    }
  }

  /** The list indices the user's numbers stand for: [int(num) - 1 for num in ...]. */
  function ToIndices(numbers: seq<int>): (indices: seq<int>)
    ensures |indices| == |numbers|
  {
    seq(|numbers|, k requires 0 <= k < |numbers| => numbers[k] - 1)
  }

  /** The two list comprehensions of ask_question, applied to the tokens of the line. */
  function SelectByTokens(answers: seq<string>, tokens: seq<string>): (r: Result<Reply, InputError>)
    ensures r.Success? ==> r.value.Selected?
  {
    match ParseTokens(tokens)
    case Failure(e) => Failure(e)
    case Success(numbers) =>
      match SelectAnswers(answers, ToIndices(numbers))
      case Failure(e) => Failure(e)
      case Success(selected) => Success(Selected(selected))
  }

  /** What ask_question returns for the line `line` typed at a question with these answers. */
  function ParseReply(answers: seq<string>, line: string): (r: Result<Reply, InputError>)
    ensures r == Success(Exit) <==> Lower(Strip(line)) == ExitCommand
  {
    var input := Strip(line);
    if Lower(input) == ExitCommand then Success(Exit)
    else SelectByTokens(answers, SplitWhitespace(input))
  }

  // ---------------------------------------------------------------- properties

  /** The tokens ask_question reads from `line`. */
  function Tokens(line: string): seq<string> {
    SplitWhitespace(Strip(line))
  }

  /** The position token value `n` selects among `count` answers, written out without list indexing. */
  function PositionOf(count: nat, n: int): int {
    if n >= 1 then n - 1 else count + n - 1
  }

  /**
   * A selection has one answer per token, in token order: with n the token's
   * integer value, 1 - |answers| <= n <= |answers|, and the answer is
   * answers[n - 1] for n >= 1 and answers[|answers| + n - 1] otherwise.
   */
  lemma SelectionPerToken(answers: seq<string>, tokens: seq<string>, selected: seq<string>)
    requires SelectByTokens(answers, tokens) == Success(Selected(selected))
    ensures |selected| == |tokens|
    ensures forall k :: 0 <= k < |selected| ==>
              && ParseInt(tokens[k]).Some?
              && 1 - |answers| <= ParseInt(tokens[k]).value <= |answers|
              && selected[k] == answers[PositionOf(|answers|, ParseInt(tokens[k]).value)]
  {
    ParseTokensSpec(tokens);
    var numbers := ParseTokens(tokens).value;
    var indices := ToIndices(numbers);
    SelectAnswersSpec(answers, indices);
    forall k | 0 <= k < |selected|
      ensures ParseInt(tokens[k]).Some? && ParseInt(tokens[k]).value == numbers[k]
      ensures 1 - |answers| <= numbers[k] <= |answers|
      ensures selected[k] == answers[PositionOf(|answers|, numbers[k])]
    {
      assert PyIndex(|answers|, indices[k]).Some?;
    }
  }

  /** The token values that stand for an answer among `count`: 1 .. count, and 0 .. 1 - count from the end. */
  predicate Selectable(count: nat, n: int) {
    1 - count <= n <= count
  }

  /** A token that makes ask_question raise: not an integer, or a number that stands for no answer. */
  predicate BadToken(count: nat, token: string) {
    ParseInt(token).None? || !Selectable(count, ParseInt(token).value)
  }

  /** The tokens fail exactly when one of them is bad. */
  lemma FailureIffBadToken(answers: seq<string>, tokens: seq<string>)
    ensures SelectByTokens(answers, tokens).Failure? <==>
              exists k :: 0 <= k < |tokens| && BadToken(|answers|, tokens[k])
  {
    ParseTokensSpec(tokens);
    var parsed := ParseTokens(tokens);
    if parsed.Failure? {
      var k :| 0 <= k < |tokens| && parsed.error == NotAnInteger(tokens[k]) && ParseInt(tokens[k]).None?;
      assert BadToken(|answers|, tokens[k]);
    } else {
      var numbers := parsed.value;
      var indices := ToIndices(numbers);
      SelectAnswersSpec(answers, indices);
      forall k | 0 <= k < |tokens|
        ensures BadToken(|answers|, tokens[k]) <==> PyIndex(|answers|, indices[k]).None?
      {
        assert ParseInt(tokens[k]) == Some(numbers[k]);
      }
    }
  }

  /**
   * int() runs on every token before any answer is looked up, so a token that
   * is not an integer is what gets reported, even after a number out of range.
   */
  lemma NonIntegerReportedFirst(answers: seq<string>, tokens: seq<string>, k: nat)
    requires k < |tokens| && ParseInt(tokens[k]).None?
    ensures SelectByTokens(answers, tokens).Failure?
    ensures SelectByTokens(answers, tokens).error.NotAnInteger?
  {
    ParseTokensSpec(tokens);
  }

  /** When every token is an integer, the failure names a number (less one) that stands for no answer. */
  lemma OutOfRangeReported(answers: seq<string>, tokens: seq<string>)
    requires forall k :: 0 <= k < |tokens| ==> ParseInt(tokens[k]).Some?
    requires SelectByTokens(answers, tokens).Failure?
    ensures SelectByTokens(answers, tokens).error.IndexOutOfRange?
    ensures exists k :: 0 <= k < |tokens| &&
              SelectByTokens(answers, tokens).error.index + 1 == ParseInt(tokens[k]).value &&
              !Selectable(|answers|, ParseInt(tokens[k]).value)
  {
    ParseTokensSpec(tokens);
    var numbers := ParseTokens(tokens).value;
    var indices := ToIndices(numbers);
    SelectAnswersSpec(answers, indices);
    var e := SelectAnswers(answers, indices).error;
    var k :| 0 <= k < |indices| && e == IndexOutOfRange(indices[k]) && PyIndex(|answers|, indices[k]).None?;
    assert ParseInt(tokens[k]) == Some(numbers[k]);
  }

  /** Every line but exit is read as the selection its whitespace-separated tokens make. */
  lemma ReplyReadsTokens(answers: seq<string>, line: string)
    requires Lower(Strip(line)) != ExitCommand
    ensures ParseReply(answers, line) == SelectByTokens(answers, Tokens(line))
  {
  }

  /** An empty or all-blank line selects nothing. */
  lemma BlankLineSelectsNothing(answers: seq<string>, line: string)
    requires AllSpace(line)
    ensures ParseReply(answers, line) == Success(Selected([]))
  {
    StripEmpty(line);
    assert Lower([]) == [];
    assert SplitWhitespace([]) == [];
  }

  /** Exit is recognised in any mixture of letter cases, and surrounding whitespace is ignored. */
  lemma ExitInAnyCase(answers: seq<string>, line: string)
    ensures var s := Strip(line);
            ParseReply(answers, line) == Success(Exit) <==>
              |s| == 4 && (s[0] == 'e' || s[0] == 'E') && (s[1] == 'x' || s[1] == 'X')
                       && (s[2] == 'i' || s[2] == 'I') && (s[3] == 't' || s[3] == 'T')
  {
    LowerIsExit(Strip(line));
  }

  /** Token 0 does not fail: it reads answers[-1], the last answer. */
  lemma ZeroSelectsLast(answers: seq<string>)
    requires answers != []
    ensures ParseReply(answers, "0") == Success(Selected([answers[|answers| - 1]]))
  {
    assert TrimLeft("0") == "0";
    assert TrimRight("0") == "0";
    assert Lower("0") == "0";
    assert Word("0") == "0" by {
      assert "0"[1..] == [];
    }
    assert SplitWhitespace("0") == ["0"] by {
      assert "0"[1..] == [];
    }
    assert ParseInt("0") == Some(0) by {
      assert "0"[..0] == "";
    }
    var tokens, numbers, indices := ["0"], [0], [-1];
    assert tokens[0] == "0" && numbers[0] == 0 && indices[0] == -1;
    ParseTokensSpec(tokens);
    var parsed := ParseTokens(tokens);
    assert parsed.Success? && parsed.value[0] == 0;
    assert parsed.value == numbers;
    assert ToIndices(numbers) == indices;
    SelectAnswersSpec(answers, indices);
    var selected := SelectAnswers(answers, indices);
    assert selected.Success? && selected.value[0] == answers[|answers| - 1];
    assert selected.value == [answers[|answers| - 1]];
  }

  /** The decimal numbers of a list, separated by single spaces, as a user would type them. */
  function TypedNumbers(numbers: seq<nat>): string {
    Join(NumberWords(numbers), " ")
  }

  function NumberWords(numbers: seq<nat>): (words: seq<string>)
    ensures |words| == |numbers|
  {
    seq(|numbers|, k requires 0 <= k < |numbers| => FormatNat(numbers[k]))
  }

  /** The typed numbers split back into one token per number, and are not "exit". */
  lemma TypedNumbersTokens(numbers: seq<nat>)
    ensures Tokens(TypedNumbers(numbers)) == NumberWords(numbers)
    ensures Lower(Strip(TypedNumbers(numbers))) != ExitCommand
  {
    var words := NumberWords(numbers);
    var line := TypedNumbers(numbers);
    forall k | 0 <= k < |words| ensures words[k] != [] && NoSpace(words[k]) && AllDigits(words[k]) {
      assert words[k] == FormatNat(numbers[k]);
    }
    JoinOfDigitWords(words);
    assert Strip(line) == line by {
      assert TrimLeft(line) == line;
      assert TrimRight(line) == line;
    }
    if |line| == 4 {
      LowerIsExit(line);
    }
    SplitWhitespaceJoin(words);
  }

  /** int() reads each typed number back. */
  lemma NumberWordsParse(numbers: seq<nat>)
    ensures ParseTokens(NumberWords(numbers)) == Success(numbers)
  {
    var words := NumberWords(numbers);
    forall k | 0 <= k < |words| ensures ParseInt(words[k]) == Some(numbers[k] as int) {
      ParseFormatInt(numbers[k]);
    }
    ParseTokensSpec(words);
    var parsed := ParseTokens(words);
    assert parsed.Success?;
    assert parsed.value == numbers;
  }

  /**
   * Typing the numbers 1..|answers| of some answers, separated by spaces,
   * selects exactly those answers, in the order typed, duplicates included.
   */
  lemma TypedNumbersSelect(answers: seq<string>, numbers: seq<nat>)
    requires forall k :: 0 <= k < |numbers| ==> 1 <= numbers[k] <= |answers|
    ensures ParseReply(answers, TypedNumbers(numbers))
            == Success(Selected(seq(|numbers|, k requires 0 <= k < |numbers| => answers[numbers[k] - 1])))
  {
    TypedNumbersTokens(numbers);
    NumberWordsParse(numbers);
    NumbersSelect(answers, numbers);
  }

  /** In-range 1-based numbers select the answers they number. */
  lemma NumbersSelect(answers: seq<string>, numbers: seq<nat>)
    requires forall k :: 0 <= k < |numbers| ==> 1 <= numbers[k] <= |answers|
    ensures SelectAnswers(answers, ToIndices(numbers))
            == Success(seq(|numbers|, k requires 0 <= k < |numbers| => answers[numbers[k] - 1]))
  {
    var indices := ToIndices(numbers);
    var n := |answers|;
    var chosen := seq(|numbers|, k requires 0 <= k < |numbers| => answers[numbers[k] - 1]);
    forall k | 0 <= k < |indices| ensures PyIndex(n, indices[k]) == Some(numbers[k] - 1) {
      assert indices[k] == numbers[k] - 1;
    }
    SelectAnswersSpec(answers, indices);
    var r := SelectAnswers(answers, indices);
    assert r.Success?;
    forall k | 0 <= k < |chosen| ensures r.value[k] == chosen[k] {
      assert PyIndex(n, indices[k]).value == numbers[k] - 1;
    }
    assert r.value == chosen;
  }

  /** Words of digits joined by spaces start and end with a digit, or are empty. */
  lemma {:induction false} JoinOfDigitWords(words: seq<string>)
    requires forall k :: 0 <= k < |words| ==> words[k] != [] && AllDigits(words[k])
    ensures var s := Join(words, " ");
            s == [] || (IsDigit(s[0]) && IsDigit(s[|s| - 1]))
  {
    if |words| > 1 {
      JoinOfDigitWords(words[1..]);
      assert words[1..][0] == words[1];
      assert words[1..][|words| - 2] == words[|words| - 1];
    }
  }
}
