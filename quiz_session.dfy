/**
 * The scoring loop of main in console_quiz.py. Questions are asked in file
 * order; each reply is read with ask_question; "exit" ends the loop early; a
 * reply is correct when the set of selected answers equals the set of correct
 * answers; the score is the number of correct replies. The lines the user
 * types are a sequence of responses, and an exception from ask_question or
 * from input() ends the session, since main catches none.
 *
 * The loop's specification, PlayWith, takes the question-asking function as
 * a parameter, so that its properties are proved once for any such function;
 * Play is PlayWith applied to ask_question.
 */
module QuizSession {
  import opened Wrappers
  import opened PyStr
  import opened QuestionFile
  import opened AnswerInput

  /** set(user_answers) == set(question['correct_answers']). */
  predicate IsCorrect(selected: seq<string>, correct: seq<string>) {
    (set x | x in selected) == (set x | x in correct)
  }

  /** Why the session raised: a bad reply, or input() at the end of the input (EOFError). */
  datatype SessionError = BadInput(error: InputError) | EndOfInput

  /** How the loop over the questions ended. */
  datatype Stop = Completed | ExitTyped | Crashed(error: SessionError)

  /** The verdict (correct or not) for each question answered, in order, and how the loop ended. */
  datatype Session = Session(verdicts: seq<bool>, stop: Stop)

  /** ask_question(question) with `line` the line input() returns. */
  function AskQuestion(q: Question, line: string): Result<Reply, InputError> {
    ParseReply(q.answers, line)
  }

  /** A session that first gave `verdicts` and then went on as `rest`. */
  function Extend(verdicts: seq<bool>, rest: Session): (s: Session)
    ensures |s.verdicts| == |verdicts| + |rest.verdicts|
    ensures s.stop == rest.stop
  {
    Session(verdicts + rest.verdicts, rest.stop)
  }

  /** One turn of the loop: what the reply to question `q` makes of the session `rest` after it. */
  function Turn(q: Question, reply: Result<Reply, InputError>, rest: Session): Session {
    match reply
    case Failure(e) => Session([], Crashed(BadInput(e)))
    case Success(Exit) => Session([], ExitTyped)
    case Success(Selected(selected)) => Extend([IsCorrect(selected, q.correctAnswers)], rest)
  }

  /**
   * The questions `qs` asked in turn with `ask`, with `rs` the lines the user
   * types. The loop ends after the last question, at exit, where `ask`
   * raises, or where input() finds no line left.
   */
  function PlayWith(ask: (Question, string) -> Result<Reply, InputError>, qs: seq<Question>, rs: seq<string>)
    : (s: Session)
    ensures |s.verdicts| <= |qs| && |s.verdicts| <= |rs|
    ensures s.stop == Completed <==> |s.verdicts| == |qs|
  {
    if qs == [] then Session([], Completed)
    else if rs == [] then Session([], Crashed(EndOfInput))
    else Turn(qs[0], ask(qs[0], rs[0]), PlayWith(ask, qs[1..], rs[1..]))
  }

  /** main's loop over `qs`, with `rs` the lines the user types. */
  function Play(qs: seq<Question>, rs: seq<string>): Session {
    PlayWith(AskQuestion, qs, rs)
  }

  /** Play from question i on is the turn at question i followed by play from question i + 1. */
  lemma PlayFrom(qs: seq<Question>, rs: seq<string>, i: nat)
    requires i < |qs| && i < |rs|
    ensures Play(qs[i..], rs[i..]) == Turn(qs[i], AskQuestion(qs[i], rs[i]), Play(qs[i + 1..], rs[i + 1..]))
  {
    assert qs[i..][0] == qs[i] && rs[i..][0] == rs[i];
    assert qs[i..][1..] == qs[i + 1..] && rs[i..][1..] == rs[i + 1..];
  }

  lemma ExtendEmpty(verdicts: seq<bool>, stop: Stop)
    ensures Extend(verdicts, Session([], stop)) == Session(verdicts, stop)
  {
    assert verdicts + [] == verdicts;
  }

  lemma ExtendAppend(verdicts: seq<bool>, v: bool, rest: Session)
    ensures Extend(verdicts, Extend([v], rest)) == Extend(verdicts + [v], rest)
  {
    assert verdicts + ([v] + rest.verdicts) == (verdicts + [v]) + rest.verdicts;
  }

  /** The number of correct verdicts. */
  function Score(verdicts: seq<bool>): (n: nat)
    ensures n <= |verdicts|
  {
    if verdicts == [] then 0
    else Score(verdicts[..|verdicts| - 1]) + (if verdicts[|verdicts| - 1] then 1 else 0)
  }

  lemma ScoreAppend(verdicts: seq<bool>, v: bool)
    ensures Score(verdicts + [v]) == Score(verdicts) + (if v then 1 else 0)
  {
    assert (verdicts + [v])[..|verdicts|] == verdicts;
  }

  /**
   * main's loop: ask each question in turn, stop at exit, count the correct
   * replies. A reply that raises ends the run with no score printed.
   */
  method RunQuiz(questions: seq<Question>, responses: seq<string>)
    returns (verdicts: seq<bool>, stop: Stop, score: nat)
    ensures Session(verdicts, stop) == Play(questions, responses)
    ensures score == Score(verdicts)
  {
    verdicts, stop, score := [], Completed, 0;
    var i := 0;
    while i < |questions|
      invariant i <= |questions| && i <= |responses|
      invariant |verdicts| == i
      invariant score == Score(verdicts)
      invariant Play(questions, responses) == Extend(verdicts, Play(questions[i..], responses[i..]))
    {
      if i == |responses| {
        ExtendEmpty(verdicts, Crashed(EndOfInput));
        stop := Crashed(EndOfInput);
        return;
      }
      var question := questions[i];
      var reply := AskQuestion(question, responses[i]);
      PlayFrom(questions, responses, i);
      match reply
      case Failure(e) =>
        ExtendEmpty(verdicts, Crashed(BadInput(e)));
        stop := Crashed(BadInput(e));
        return;
      case Success(Exit) =>
        ExtendEmpty(verdicts, ExitTyped);
        stop := ExitTyped;
        break;
      case Success(Selected(selected)) =>
        var correct := IsCorrect(selected, question.correctAnswers);
        if correct {
          score := score + 1;
        }
        ExtendAppend(verdicts, correct, Play(questions[i + 1..], responses[i + 1..]));
        ScoreAppend(verdicts, correct);
        verdicts := verdicts + [correct];
        i := i + 1;
    }
    if i == |questions| {
      assert questions[i..] == [];
      ExtendEmpty(verdicts, Completed);
    }
  }

  /**
   * main: load the questions from the file's content, then run the loop.
   * `total` is the count of questions main prints after the score.
   */
  method Quiz(content: string, responses: seq<string>)
    returns (verdicts: seq<bool>, stop: Stop, score: nat, total: nat)
    ensures Session(verdicts, stop) == Play(ParseContent(content), responses)
    ensures score == Score(verdicts) && total == |ParseContent(content)|
    ensures score <= total
  {
    var questions := LoadQuestions(content);
    total := |questions|;
    verdicts, stop, score := RunQuiz(questions, responses);
  }

  // ---------------------------------------------------------------- properties

  /** A reply is correct exactly when it names every correct answer and nothing else; order and repeats do not count. */
  lemma IsCorrectMembers(selected: seq<string>, correct: seq<string>)
    ensures IsCorrect(selected, correct) <==> forall x :: x in selected <==> x in correct
  {
    var a, b := set x | x in selected, set x | x in correct;
    if forall x :: x in selected <==> x in correct {
      assert forall x :: x in a <==> x in b;
    } else {
      var x :| !(x in selected <==> x in correct);
      assert x in a <==> x in selected;
      assert x in b <==> x in correct;
    }
  }

  /** With no correct answers, only the empty selection is correct. */
  lemma NoCorrectAnswers(selected: seq<string>)
    ensures IsCorrect(selected, []) <==> selected == []
  {
    IsCorrectMembers(selected, []);
    if selected != [] {
      assert selected[0] in selected;
    }
  }

  /** Selecting nothing is correct exactly at a question without correct answers. */
  lemma NothingSelected(correct: seq<string>)
    ensures IsCorrect([], correct) <==> correct == []
  {
    IsCorrectMembers([], correct);
    if correct != [] {
      assert correct[0] in correct;
    }
  }

  /**
   * A blank line is a reply that selects nothing: it scores exactly at a
   * question without correct answers, and the loop goes on.
   */
  lemma BlankLineVerdict(q: Question, line: string, qs: seq<Question>, rs: seq<string>)
    requires AllSpace(line)
    ensures Play([q] + qs, [line] + rs) == Extend([q.correctAnswers == []], Play(qs, rs))
  {
    BlankLineSelectsNothing(q.answers, line);
    NothingSelected(q.correctAnswers);
    assert ([q] + qs)[1..] == qs && ([line] + rs)[1..] == rs;
  }

  /** The reply is a selection, and `verdict` is its judgement against the correct answers of `q`. */
  predicate Scored(q: Question, reply: Result<Reply, InputError>, verdict: bool) {
    reply.Success? && reply.value.Selected? && verdict == IsCorrect(reply.value.answers, q.correctAnswers)
  }

  /** Verdict k is the judgement of the selection that response k makes at question k. */
  lemma {:induction false} VerdictsPerQuestion(ask: (Question, string) -> Result<Reply, InputError>,
                                               qs: seq<Question>, rs: seq<string>)
    ensures var v := PlayWith(ask, qs, rs).verdicts;
            forall k :: 0 <= k < |v| ==> Scored(qs[k], ask(qs[k], rs[k]), v[k])
  {
    if qs != [] && rs != [] {
      var reply := ask(qs[0], rs[0]);
      if reply.Success? && reply.value.Selected? {
        VerdictsPerQuestion(ask, qs[1..], rs[1..]);
        var v, rest := PlayWith(ask, qs, rs).verdicts, PlayWith(ask, qs[1..], rs[1..]).verdicts;
        assert v == [IsCorrect(reply.value.answers, qs[0].correctAnswers)] + rest;
        forall k | 0 <= k < |v| ensures Scored(qs[k], ask(qs[k], rs[k]), v[k]) {
          if k > 0 {
            assert v[k] == rest[k - 1] && qs[k] == qs[1..][k - 1] && rs[k] == rs[1..][k - 1];
          }
        }
      }
    }
  }

  /** The reply to the question at which the loop stopped ends it as `stop` says. */
  predicate EndsAs(reply: Result<Reply, InputError>, stop: Stop) {
    match stop
    case ExitTyped => reply == Success(Exit)
    case Crashed(BadInput(e)) => reply == Failure(e)
    case _ => false
  }

  /**
   * How the loop ended, at position n (the number of verdicts): after the
   * last question; at question n for want of a response; or at response n,
   * which is exit or a reply `ask` rejects.
   */
  lemma {:induction false} HowItStopped(ask: (Question, string) -> Result<Reply, InputError>,
                                        qs: seq<Question>, rs: seq<string>)
    ensures var s := PlayWith(ask, qs, rs); var n := |s.verdicts|;
            && (s.stop == Crashed(EndOfInput) <==> n < |qs| && n == |rs|)
            && (s.stop != Completed && s.stop != Crashed(EndOfInput) ==>
                  n < |qs| && n < |rs| && EndsAs(ask(qs[n], rs[n]), s.stop))
  {
    if qs != [] && rs != [] {
      var reply := ask(qs[0], rs[0]);
      if reply.Success? && reply.value.Selected? {
        HowItStopped(ask, qs[1..], rs[1..]);
        var n := |PlayWith(ask, qs[1..], rs[1..]).verdicts|;
        if n < |qs| - 1 && n < |rs| - 1 {
          assert qs[1..][n] == qs[n + 1] && rs[1..][n] == rs[n + 1];
        }
      }
    }
  }

  /** Lines typed after the loop has stopped are never read, unless it stopped for want of one. */
  lemma {:induction false} LaterResponsesUnread(ask: (Question, string) -> Result<Reply, InputError>,
                                                qs: seq<Question>, rs: seq<string>, more: seq<string>)
    requires PlayWith(ask, qs, rs).stop != Crashed(EndOfInput)
    ensures PlayWith(ask, qs, rs + more) == PlayWith(ask, qs, rs)
  {
    if qs != [] {
      assert rs != [];
      assert (rs + more)[0] == rs[0] && (rs + more)[1..] == rs[1..] + more;
      var reply := ask(qs[0], rs[0]);
      if reply.Success? && reply.value.Selected? {
        LaterResponsesUnread(ask, qs[1..], rs[1..], more);
      }
    }
  }

  /** After exit, or after a reply that raises, the remaining questions are never asked. */
  lemma {:induction false} LaterQuestionsUnasked(ask: (Question, string) -> Result<Reply, InputError>,
                                                 qs: seq<Question>, rs: seq<string>, more: seq<Question>)
    requires PlayWith(ask, qs, rs).stop == ExitTyped || PlayWith(ask, qs, rs).stop.Crashed?
    ensures PlayWith(ask, qs + more, rs) == PlayWith(ask, qs, rs)
  {
    assert qs != [];
    assert (qs + more)[0] == qs[0];
    if rs != [] {
      var reply := ask(qs[0], rs[0]);
      if reply.Success? && reply.value.Selected? {
        assert (qs + more)[1..] == qs[1..] + more;
        LaterQuestionsUnasked(ask, qs[1..], rs[1..], more);
      }
    }
  }

  /** The score equals the number of verdicts exactly when every verdict is correct. */
  lemma {:induction false} ScoreAllCorrect(verdicts: seq<bool>)
    ensures Score(verdicts) == |verdicts| <==> forall k :: 0 <= k < |verdicts| ==> verdicts[k]
  {
    if verdicts != [] {
      var init := verdicts[..|verdicts| - 1];
      ScoreAllCorrect(init);
      assert forall k :: 0 <= k < |init| ==> init[k] == verdicts[k];
    }
  }

  /** main prints score == total exactly when every question was answered, and answered correctly. */
  lemma FullScore(qs: seq<Question>, rs: seq<string>)
    ensures var s := Play(qs, rs);
            Score(s.verdicts) == |qs| <==> s.stop == Completed && forall k :: 0 <= k < |s.verdicts| ==> s.verdicts[k]
  {
    ScoreAllCorrect(Play(qs, rs).verdicts);
  }
}
