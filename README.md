# console_quiz in Dafny

A model of `console_quiz.py`, a console quiz. The program reads a question
file, asks each question in turn, reads the numbers of the answers the user
picks, and counts the correct replies.

The model has five modules.

- `Wrappers` holds the `Option` and `Result` types.
- `PyStr` models the Python string operations the program relies on:
  - `str.strip()` (`Strip`);
  - `str.split(sep)` (`Split`) and `str.split()` (`SplitWhitespace`);
  - `str.startswith` (`StartsWith`);
  - the substring test `sep in s` (`Contains`);
  - `str.lower()` (`Lower`);
  - `int()` on a token (`ParseInt`);
  - slicing `s[n:]` (`DropPrefix`);
  - `sep.join` (`Join`).

  Each one comes with the lemmas that say what it computes.
- `QuestionFile` models `load_questions` once the file has been read.
  - `ParseContent` is a function of the file's text. It gives one `Question` per section: the question text, the answer texts, and the correct answer texts.
  - `LoadQuestions`, `LoadSection` and `LoadAnswers` are the program's nested loops as methods. Each is proved to compute `ParseContent`, `ParseSection` and the answer lists.
- `AnswerInput` models what `ask_question` does with the line the user types.
  - `ParseReply` strips the line. "exit" in any letter case gives `Exit`.
  - Anything else is split on whitespace, and every token goes through `int()`. The number `n` selects `answers[n - 1]`, with Python's indexing, so `0` and negative numbers count from the end.
  - A token `int()` rejects gives `Failure(NotAnInteger(token))`. This is the `ValueError`.
  - An index outside the list gives `Failure(IndexOutOfRange(index))`. This is the `IndexError`.
  - Every token goes through `int()` before any answer is looked up, so the `ValueError` is the one raised when both could be.
- `QuizSession` models `main`'s loop.
  - `PlayWith` is the loop's specification. It takes the question-asking function as a parameter, and `Play` applies it to `AskQuestion`.
  - `RunQuiz` is the loop as a method, proved to compute `Play` and the score.
  - `Quiz` chains `LoadQuestions` and `RunQuiz`.
  - What the user types is a sequence of lines. Running out of lines is `input()` raising `EOFError`.
  - The program catches no exception, so a reply that raises ends the session. The session records that as `Crashed`.

## Model

| member | source | states |
|---|---|---|
| PyStr.Strip | console_quiz.py:31 | `strip()` never lengthens the string; StripAt, StripEnds and StripEmpty state what it keeps and removes |
| PyStr.TrimLeftSuffix | console_quiz.py:9 | `lstrip` keeps a suffix of the string and removes only whitespace |
| PyStr.TrimRightPrefix | console_quiz.py:9 | `rstrip` keeps a prefix of the string and removes only whitespace |
| PyStr.StripEnds | console_quiz.py:31 | the result of `strip()` neither starts nor ends with whitespace |
| PyStr.StripAt | console_quiz.py:15 | `strip()` returns a contiguous part of the string; what lies on either side of it is all whitespace |
| PyStr.StripIsInfix | console_quiz.py:10 | `strip()` returns a contiguous part of the string |
| PyStr.StripEmpty | console_quiz.py:31 | `strip()` gives the empty string exactly when the string is all whitespace |
| PyStr.StripIdempotent | console_quiz.py:9-10 | stripping a stripped string changes nothing; for a section without a line break, `lines[0]` is the stripped section and line 10 strips it again |
| PyStr.FindFromSpec | console_quiz.py:16 | the search finds an occurrence of the separator, and no earlier one; finding none means there is none |
| PyStr.Contains | console_quiz.py:16 | `sep in s`; ContainsOccurs states that it holds exactly when `sep` occurs at some position of `s` |
| PyStr.ContainsOccurs | console_quiz.py:16 | `sep in s` holds exactly when `sep` occurs at some position of `s` |
| PyStr.FindIsLeftmost | console_quiz.py:7 | the leftmost occurrence is the one the search returns |
| PyStr.StartsWith | console_quiz.py:14 | `s.startswith(prefix)`: `prefix` is the first `len(prefix)` characters of `s`; OptionLineMarker states what this means for '*' |
| PyStr.DropPrefix | console_quiz.py:15 | `line[2:]` is the line from position 2 on, and is empty for a line shorter than 2 |
| PyStr.Split | console_quiz.py:9-10 | `split(sep)` returns at least one piece, so `lines[0]` always exists |
| PyStr.SplitJoin | console_quiz.py:7 | joining the pieces of `split(sep)` with `sep` gives the string back |
| PyStr.SplitLastPiece | console_quiz.py:7 | the last piece of `split(sep)` holds no separator |
| PyStr.SplitLeftmost | console_quiz.py:9 | every piece but the last, followed by the separator, has its first occurrence of the separator at its end: the cut is made at the leftmost occurrence |
| PyStr.SplitWhitespace | console_quiz.py:34 | `split()` with no argument; SplitWhitespaceGaps and SplitInterleave, with SplitWhitespaceWords, state which pieces it returns for every string |
| PyStr.SplitWhitespaceGaps | console_quiz.py:34 | every string is the pieces of `split()` interleaved with whitespace runs: a run before, after and between the pieces, each between two pieces non-empty |
| PyStr.SplitInterleave | console_quiz.py:34 | conversely, words without whitespace, interleaved with whitespace runs that are non-empty between two words, are exactly what `split()` returns for the result; so the pieces are determined |
| PyStr.WordIsMaximal | console_quiz.py:34 | a word is a whitespace-free prefix that ends at whitespace or at the end of the string |
| PyStr.SplitWhitespaceWords | console_quiz.py:34 | every piece of `split()` is non-empty and free of whitespace |
| PyStr.SplitWhitespaceEmpty | console_quiz.py:34 | `split()` returns no pieces exactly when the string is all whitespace |
| PyStr.SplitWhitespaceJoin | console_quiz.py:34 | `split()` of words joined by single spaces gives back the words |
| PyStr.Lower | console_quiz.py:16 | `lower()` keeps the length of the string |
| PyStr.LowerIsExit | console_quiz.py:32 | `s.lower() == 'exit'` holds exactly for the sixteen upper/lower-case spellings of "exit" |
| PyStr.ParseInt | console_quiz.py:34 | `int()` accepts a token exactly when it is an optional sign followed by decimal digits |
| PyStr.FormatNat | console_quiz.py:29-30 | the printed number of an answer is a non-empty string of digits |
| PyStr.FormatNatValue | console_quiz.py:29-30 | the digits of a printed number have the number's value |
| PyStr.ParseFormatInt | console_quiz.py:29-34 | `int()` reads back any printed number: `int(str(n)) == n` |
| QuestionFile.ParseContent | console_quiz.py:7-24 | what `load_questions` returns for the file's content; LoadQuestions is proved to compute it, and ParseSections states that it has one record per section |
| QuestionFile.ParseSection | console_quiz.py:9-24 | the record built from one section; QuestionTextIsFirstLine states its question text and AnswersFromOptionLines its two answer lists |
| QuestionFile.IsCorrectLine | console_quiz.py:14-18 | the guard that sends an answer to `correct_answers`: a '*' line carrying a keyword; AnswersFromOptionLines states that the correct answers are exactly the answers of such lines |
| QuestionFile.Answers | console_quiz.py:11-17 | the `answers` list the inner loop builds; AnswersFromOptionLines states that answer k is the text of the k-th '*' line |
| QuestionFile.CorrectAnswers | console_quiz.py:12-19 | the `correct_answers` list; AnswersFromOptionLines states that it is the subsequence of the answers whose lines carry a keyword |
| QuestionFile.IsOptionLine | console_quiz.py:14 | `line.startswith('*')`; OptionLineMarker states that it holds exactly when the first character is '*' |
| QuestionFile.OptionLineMarker | console_quiz.py:14 | a line is an answer exactly when it is non-empty and its first character is '*' |
| QuestionFile.AnswerText | console_quiz.py:15 | `line[2:].strip()`; DropPrefix states what `line[2:]` keeps, and StripAt what `strip()` then keeps |
| QuestionFile.MarksCorrect | console_quiz.py:16 | the keyword test; with ContainsOccurs it holds exactly when "верно" or "выбрано" occurs in the lower-cased line |
| QuestionFile.NegatedKeywordMarksCorrect | console_quiz.py:16 | the line "* неверно" ("incorrect") is an answer marked correct, because it contains "верно" |
| QuestionFile.LoadQuestions | console_quiz.py:7-25 | the loop over sections returns `ParseContent(content)`: one record per blank-line-separated section, in order |
| QuestionFile.LoadSection | console_quiz.py:9-24 | one section's record is `ParseSection(section)`: the stripped first line, then the answers of the later lines |
| QuestionFile.LoadAnswers | console_quiz.py:13-19 | the inner loop's two lists are the answers and the correct answers the lines give |
| QuestionFile.ParseSections | console_quiz.py:8-24 | there is one record per section, and record i is built from section i |
| QuestionFile.AnswersFromOptionLines | console_quiz.py:13-19 | answer k is the text of the k-th line starting with '*'; the correct answers are a subsequence of the answers; answer k is in it exactly when its line contains "верно" or "выбрано" in any letter case |
| QuestionFile.CorrectAnswersAreAnswers | console_quiz.py:17-19 | there are at most as many correct answers as answers, and every correct answer is an answer |
| QuestionFile.NoOptionLinesNoAnswers | console_quiz.py:13-19 | a section has no answers exactly when none of its later lines starts with '*'; then it has no correct answers either |
| QuestionFile.QuestionTextIsFirstLine | console_quiz.py:9-10 | the question text is the stripped section up to its first line break, stripped again, or the whole stripped section if it has no line break |
| QuestionFile.EmptySectionKept | console_quiz.py:7-24 | an empty section is not skipped: it becomes a question with empty text and no answers |
| AnswerInput.PyIndex | console_quiz.py:35 | a list index is valid exactly when `-n <= i < n`; it reads position `i`, or `i + n` for a negative `i` |
| AnswerInput.ParseTokens | console_quiz.py:34 | the `int()` comprehension gives one value per token when it succeeds; ParseTokensSpec states which values and when it fails |
| AnswerInput.ParseTokensSpec | console_quiz.py:34 | the `int()` comprehension succeeds exactly when every token is an integer, and then gives each token's value in order; otherwise it reports a token `int()` rejects |
| AnswerInput.SelectAnswers | console_quiz.py:35 | the look-up comprehension gives one answer per index when it succeeds; SelectAnswersSpec states which answers and when it fails |
| AnswerInput.SelectAnswersSpec | console_quiz.py:35 | the look-up comprehension succeeds exactly when every index is valid, and then reads the answer at each index in order; otherwise it reports an invalid index |
| AnswerInput.ToIndices | console_quiz.py:34 | there is one index per number typed |
| AnswerInput.SelectByTokens | console_quiz.py:34-36 | a successful reply other than exit is a selection |
| AnswerInput.ParseReply | console_quiz.py:31-33 | `ask_question` returns `None` exactly when the stripped line, lower-cased, is "exit" |
| AnswerInput.SelectionPerToken | console_quiz.py:34-36 | a selection has one answer per token, in token order. Each token's value `n` is an integer with `1 - len(answers) <= n <= len(answers)`, and it selects `answers[n - 1]` (from the end for `n <= 0`) |
| AnswerInput.FailureIffBadToken | console_quiz.py:34-35 | a reply raises exactly when some token is not an integer or stands for no answer |
| AnswerInput.NonIntegerReportedFirst | console_quiz.py:34-35 | a token that is not an integer makes the reply raise `ValueError`, even when another token is out of range |
| AnswerInput.OutOfRangeReported | console_quiz.py:35 | when every token is an integer and the reply raises, the error is the `IndexError` of an index whose token stands for no answer |
| AnswerInput.Tokens | console_quiz.py:34 | `user_input.split()` on the stripped line; ReplyReadsTokens states that every reply but exit is read from these tokens |
| AnswerInput.ReplyReadsTokens | console_quiz.py:31-34 | any line but exit is read as the tokens of the stripped line |
| AnswerInput.BlankLineSelectsNothing | console_quiz.py:31-36 | an empty or all-blank line is a valid reply that selects no answer |
| AnswerInput.ExitInAnyCase | console_quiz.py:31-33 | exit is recognised in any letter case, and whitespace around it is ignored |
| AnswerInput.ZeroSelectsLast | console_quiz.py:34-35 | the reply "0" raises nothing and selects the last answer |
| AnswerInput.NumberWords | console_quiz.py:34 | one typed word per number |
| AnswerInput.TypedNumbersTokens | console_quiz.py:31-34 | numbers typed with single spaces are read back as one token per number, and are never "exit" |
| AnswerInput.NumberWordsParse | console_quiz.py:34 | `int()` reads every typed number back |
| AnswerInput.NumbersSelect | console_quiz.py:35 | in-range 1-based numbers select the answers they number |
| AnswerInput.TypedNumbersSelect | console_quiz.py:31-36 | typing the numbers (from 1) of some answers selects exactly those answers, in the order typed, repeats included |
| QuizSession.AskQuestion | console_quiz.py:27-36 | `ask_question(question)` for the line typed: it reads only the question's answers, and ParseReply and its lemmas state the result |
| QuizSession.IsCorrect | console_quiz.py:49 | `set(user_answers) == set(question['correct_answers'])`; IsCorrectMembers states that this means the same members, whatever the order and repeats |
| QuizSession.Turn | console_quiz.py:46-51 | one pass of the loop body; VerdictsPerQuestion and HowItStopped state that a selection adds its verdict and goes on, and exit or a failure stops the loop |
| QuizSession.PlayWith | console_quiz.py:44-53 | there is at most one verdict per question and one per line typed; the loop completes exactly when every question got a verdict |
| QuizSession.Play | console_quiz.py:44-53 | main's loop with `ask_question`; RunQuiz is proved to compute it, and PlayWith's contract and lemmas state its verdicts and how it stops |
| QuizSession.Score | console_quiz.py:41-51 | the score is at most the number of verdicts |
| QuizSession.ScoreAppend | console_quiz.py:49-51 | a correct verdict adds one to the score, an incorrect one nothing |
| QuizSession.RunQuiz | console_quiz.py:41-55 | the loop's verdicts and how it stopped are `Play(questions, responses)`; the score counts the correct verdicts |
| QuizSession.Quiz | console_quiz.py:38-57 | `main` plays the questions of the file; the score printed is the correct-verdict count, out of the number of questions loaded, and never exceeds it |
| QuizSession.IsCorrectMembers | console_quiz.py:49 | a reply is correct exactly when it names every correct answer and nothing else; order and repeats do not matter |
| QuizSession.NoCorrectAnswers | console_quiz.py:49 | at a question without correct answers, only the empty selection is correct |
| QuizSession.NothingSelected | console_quiz.py:49 | selecting nothing is correct exactly at a question without correct answers |
| QuizSession.BlankLineVerdict | console_quiz.py:46-51 | a blank reply gives a verdict (correct exactly when the question has no correct answers), and the loop goes on |
| QuizSession.VerdictsPerQuestion | console_quiz.py:44-53 | verdict k judges, against question k's correct answers, the selection that line k makes at question k |
| QuizSession.HowItStopped | console_quiz.py:44-48 | after n verdicts, the loop ran out of lines exactly when n < len(questions) and n lines were typed. When it stopped at exit or at an exception, reply n is exit or the failing reply |
| QuizSession.LaterResponsesUnread | console_quiz.py:44-48 | lines left over when the loop stops are never read |
| QuizSession.LaterQuestionsUnasked | console_quiz.py:47-48 | after exit or an exception, no later question is asked |
| QuizSession.ScoreAllCorrect | console_quiz.py:49-51 | the score equals the number of verdicts exactly when every verdict is correct |
| QuizSession.FullScore | console_quiz.py:41-57 | the score equals the number of questions exactly when the loop completed and every reply was correct |

## Left out

- Reading the file (console_quiz.py:3-6): `open`, the UTF-8 decoding and the error for a missing or unreadable file are left out. `LoadQuestions` and `Quiz` take as a string what `file.read()` returns. The file is opened in text mode, so `\r\n` and `\r` have already become `\n` in that string. A file with Windows line ends, given to `ParseContent` unconverted, would become a single section.
- The path constant `file_path` (console_quiz.py:39) is not modelled, because the file's content is a parameter.
- The unused `import json` (console_quiz.py:1) and the `__main__` guard (console_quiz.py:59-60) are left out.
- Console output is not modelled:
  - the question and the numbered answers (console_quiz.py:28-30);
  - the prompt and the question header (console_quiz.py:31, 45);
  - the verdict messages and the list of correct answers (console_quiz.py:50, 53-54);
  - the closing lines (console_quiz.py:56-57).

  `Quiz` returns the score and the total that line 57 prints, unless the session crashed: then line 57 is never reached.
- Console input (console_quiz.py:31): the user's lines are the sequence `responses`. `EOFError` at its end is `Crashed(EndOfInput)`. `KeyboardInterrupt` is not modelled.
- Exceptions are values. A traceback ends the Python program; here the session stops, and its outcome is `Crashed` with the error.
- PyStr.IsSpace: only ASCII whitespace counts. This is tab, line feed, vertical tab, form feed, carriage return, U+001C-U+001F and the space. Python's `strip()` and `split()` also remove Unicode spaces such as U+00A0 and U+3000, and the model keeps them.
- PyStr.Lower: only ASCII and the Cyrillic capitals U+0400-U+042F are lower-cased. Python's `lower()` handles every script, and a few letters (such as U+0130) become two characters.
- PyStr.ParseInt: only an optional sign followed by ASCII digits is accepted. Python's `int()` also accepts underscores between digits ("1_0") and non-ASCII decimal digits. The model rejects those tokens as not integers. Python's `int()` also raises `ValueError` on a string of more than 4300 digits (the default limit of CPython 3.11, and of security releases back to 3.7.14). The model accepts such a token, so for it `OutOfRangeReported` gives `IndexOutOfRange` where Python raises `ValueError`. Likewise `ParseFormatInt` holds for numbers of any length, while Python's `int(str(n))` raises beyond that limit.
- What the code does (the model follows it):
  - A correct answer is marked by "верно" or "выбрано" on a line starting with '*'. There is no `[*]` marker.
  - The keyword test looks for a substring, so the answer "неверно" ("incorrect") is marked correct (`NegatedKeywordMarksCorrect`).
  - Keywords are not removed from the stored answer text.
  - Numbering starts from 1, and 0 and negative numbers pick answers from the end (`ZeroSelectsLast`).
  - Empty sections are kept, not skipped (`EmptySectionKept`).
  - A bad reply is not asked again: it ends the program (`FailureIffBadToken`, `HowItStopped`).
  - A question without correct answers is scored correct for an empty reply (`NothingSelected`, `BlankLineVerdict`).
