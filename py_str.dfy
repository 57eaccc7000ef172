/**
 * The Python string built-ins the quiz relies on: str.strip(), str.split(sep),
 * str.split(), str.startswith, the `in` substring test, str.lower() and int().
 * Strings are sequences of Unicode scalar values, approximating Python's str
 * (which can also hold lone surrogates).
 */
module PyStr {
  import opened Wrappers

  // ---------------------------------------------------------------- whitespace

  /** Python's str.isspace() on the ASCII range: \t \n \v \f \r, \x1c-\x1f and the space. */
  predicate IsSpace(c: char) {
    c == ' ' || ('\t' <= c <= '\r') || ('\U{1C}' <= c <= '\U{1F}')
  }

  predicate AllSpace(s: string) {
    forall i :: 0 <= i < |s| ==> IsSpace(s[i])
  }

  predicate NoSpace(s: string) {
    forall i :: 0 <= i < |s| ==> !IsSpace(s[i])
  }

  /** Python's str.lstrip(): drop leading whitespace. */
  function TrimLeft(s: string): (r: string)
    ensures |r| <= |s|
    ensures r == [] || !IsSpace(r[0])
  {
    if s != [] && IsSpace(s[0]) then TrimLeft(s[1..]) else s
  }

  /** lstrip() keeps a suffix of `s` and removes only whitespace. */
  lemma {:induction false} TrimLeftSuffix(s: string)
    ensures forall k :: 0 <= k < |TrimLeft(s)| ==> TrimLeft(s)[k] == s[|s| - |TrimLeft(s)| + k]
    ensures forall k :: 0 <= k < |s| - |TrimLeft(s)| ==> IsSpace(s[k])
  {
    if s != [] && IsSpace(s[0]) {
      var t := s[1..];
      TrimLeftSuffix(t);
      var r := TrimLeft(t);
      assert TrimLeft(s) == r;
      forall k | 0 <= k < |r| ensures r[k] == s[|s| - |r| + k] {
        assert r[k] == t[|t| - |r| + k];
      }
      forall k | 0 <= k < |s| - |r| ensures IsSpace(s[k]) {
        if k > 0 {
          assert s[k] == t[k - 1];
        }
      }
    }
  }

  /** Python's str.rstrip(): drop trailing whitespace. */
  function TrimRight(s: string): (r: string)
    ensures |r| <= |s|
    ensures r == [] || !IsSpace(r[|r| - 1])
  {
    if s != [] && IsSpace(s[|s| - 1]) then TrimRight(s[..|s| - 1]) else s
  }

  /** rstrip() keeps a prefix of `s` and removes only whitespace. */
  lemma {:induction false} TrimRightPrefix(s: string)
    ensures forall k :: 0 <= k < |TrimRight(s)| ==> TrimRight(s)[k] == s[k]
    ensures forall k :: |TrimRight(s)| <= k < |s| ==> IsSpace(s[k])
  {
    if s != [] && IsSpace(s[|s| - 1]) {
      var t := s[..|s| - 1];
      TrimRightPrefix(t);
      var r := TrimRight(t);
      assert TrimRight(s) == r;
      forall k | 0 <= k < |r| ensures r[k] == s[k] {
        assert r[k] == t[k];
      }
      forall k | |r| <= k < |s| ensures IsSpace(s[k]) {
        if k < |t| {
          assert s[k] == t[k];
        }
      }
    }
  }

  /** Python's str.strip(): the result neither starts nor ends with whitespace. */
  function Strip(s: string): (r: string)
    ensures |r| <= |s|
  {
    TrimRight(TrimLeft(s))
  }

  /** The result of strip() neither starts nor ends with whitespace. */
  lemma StripEnds(s: string)
    ensures var r := Strip(s); r == [] || (!IsSpace(r[0]) && !IsSpace(r[|r| - 1]))
  {
    TrimRightPrefix(TrimLeft(s));
  }

  /** What strip() removes is whitespace at the two ends, and nothing else. */
  lemma StripIsInfix(s: string)
    ensures exists i :: 0 <= i <= |s| - |Strip(s)| && Strip(s) == s[i..i + |Strip(s)|]
                        && AllSpace(s[..i]) && AllSpace(s[i + |Strip(s)|..])
  {
    var i := |s| - |TrimLeft(s)|;
    StripAt(s, i);
  }

  lemma StripAt(s: string, i: nat)
    requires i == |s| - |TrimLeft(s)|
    ensures 0 <= i <= |s| - |Strip(s)| && Strip(s) == s[i..i + |Strip(s)|]
    ensures AllSpace(s[..i]) && AllSpace(s[i + |Strip(s)|..])
  {
    var t := TrimLeft(s);
    var r := TrimRight(t);
    TrimLeftSuffix(s);
    TrimRightPrefix(t);
    forall k | 0 <= k < |r| ensures r[k] == s[i + k] {
      assert r[k] == t[k];
    }
    forall j | i + |r| <= j < |s| ensures IsSpace(s[j]) {
      assert s[j] == t[j - i];
    }
    assert r == s[i..i + |r|];
  }

  /** strip() leaves nothing exactly when the string is all whitespace. */
  lemma StripEmpty(s: string)
    ensures Strip(s) == [] <==> AllSpace(s)
  {
    var t := TrimLeft(s);
    TrimLeftSuffix(s);
    TrimRightPrefix(t);
    if t != [] {
      assert s[|s| - |t|] == t[0];
    }
  }

  lemma StripIdempotent(s: string)
    ensures Strip(Strip(s)) == Strip(s)
  {
    var r := Strip(s);
    StripEnds(s);
    assert TrimLeft(r) == r;
    assert TrimRight(r) == r;
  }

  // ---------------------------------------------------------------- substrings

  /** `sep` occurs in `s` starting at position `i`. */
  predicate OccursAt(s: string, sep: string, i: nat) {
    i + |sep| <= |s| && forall k :: 0 <= k < |sep| ==> s[i + k] == sep[k]
  }

  /** The leftmost occurrence of `sep` in `s` at or after `from` (Python's str.find). */
  function FindFrom(s: string, sep: string, from: nat): (r: Option<nat>)
    decreases |s| - from
    ensures r.Some? ==> from <= r.value && r.value + |sep| <= |s|
  {
    if from + |sep| > |s| then None
    else if OccursAt(s, sep, from) then Some(from)
    else FindFrom(s, sep, from + 1)
  }

  /** FindFrom finds an occurrence, and none lies between `from` and it; None means there is none. */
  lemma {:induction false} FindFromSpec(s: string, sep: string, from: nat)
    decreases |s| - from
    ensures var r := FindFrom(s, sep, from);
            (r.Some? ==> OccursAt(s, sep, r.value)) &&
            (r.Some? ==> forall j :: from <= j < r.value ==> !OccursAt(s, sep, j)) &&
            (r.None? ==> forall j :: from <= j ==> !OccursAt(s, sep, j))
  {
    if from + |sep| <= |s| && !OccursAt(s, sep, from) {
      FindFromSpec(s, sep, from + 1);
    }
  }

  function Find(s: string, sep: string): Option<nat> {
    FindFrom(s, sep, 0)
  }

  /** Python's `sep in s`. */
  function Contains(s: string, sep: string): (b: bool)
  {
    Find(s, sep).Some?
  }

  /** `sep in s` holds exactly when `sep` occurs somewhere in `s`. */
  lemma ContainsOccurs(s: string, sep: string)
    ensures Contains(s, sep) <==> exists j :: OccursAt(s, sep, j)
  {
    FindFromSpec(s, sep, 0);
    if Find(s, sep).Some? {
      assert OccursAt(s, sep, Find(s, sep).value);
    }
  }

  /** A position meeting Find's contract is the one Find returns. */
  lemma FindIsLeftmost(s: string, sep: string, i: nat)
    requires OccursAt(s, sep, i)
    requires forall j :: 0 <= j < i ==> !OccursAt(s, sep, j)
    ensures Find(s, sep) == Some(i)
  {
    FindFromSpec(s, sep, 0);
  }

  /** Python's str.startswith. */
  predicate StartsWith(s: string, prefix: string) {
    |prefix| <= |s| && s[..|prefix|] == prefix
  }

  /** Python's slice s[n:], which is empty when n is past the end. */
  function DropPrefix(s: string, n: nat): (r: string)
    ensures |r| == if n <= |s| then |s| - n else 0
    ensures forall k :: 0 <= k < |r| ==> r[k] == s[n + k]
  {
    if n <= |s| then s[n..] else []
  }

  // ---------------------------------------------------------------- split

  /** Python's sep.join(parts). */
  function Join(parts: seq<string>, sep: string): string {
    if |parts| == 0 then []
    else if |parts| == 1 then parts[0]
    else parts[0] + sep + Join(parts[1..], sep)
  }

  /** Python's s.split(sep) for a non-empty separator: cut at each occurrence found from the left. */
  function Split(s: string, sep: string): (parts: seq<string>)
    requires sep != []
    decreases |s|
    ensures |parts| >= 1
  {
    match Find(s, sep)
    case None => [s]
    case Some(i) => [s[..i]] + Split(s[i + |sep|..], sep)
  }

  /**
   * Joining the pieces gives `s` back. With SplitLastPiece and SplitLeftmost
   * below: each piece but the last ends where the leftmost occurrence of `sep`
   * begins, and the last piece holds no occurrence at all; these three facts
   * determine the pieces.
   */
  lemma {:induction false} SplitJoin(s: string, sep: string)
    requires sep != []
    decreases |s|
    ensures Join(Split(s, sep), sep) == s
  {
    match Find(s, sep)
    case None =>
    case Some(i) =>
      var tail := s[i + |sep|..];
      SplitJoin(tail, sep);
      SplitUnfold(s, sep, i);
      var rest := Split(tail, sep);
      var parts := [s[..i]] + rest;
      assert parts[1..] == rest;
      assert Join(parts, sep) == s[..i] + sep + Join(rest, sep);
      FoundSeparates(s, sep, i);
  }

  /** Where `sep` is found, `s` is the text before it, `sep`, and the text after it. */
  lemma FoundSeparates(s: string, sep: string, i: nat)
    requires Find(s, sep) == Some(i)
    ensures s[..i] + sep + s[i + |sep|..] == s
  {
    FindFromSpec(s, sep, 0);
    assert s[i..i + |sep|] == sep;
    assert s == s[..i] + s[i..i + |sep|] + s[i + |sep|..];
  }

  lemma SplitUnfold(s: string, sep: string, i: nat)
    requires sep != [] && Find(s, sep) == Some(i)
    ensures Split(s, sep) == [s[..i]] + Split(s[i + |sep|..], sep)
  {
  }

  lemma {:induction false} SplitLastPiece(s: string, sep: string)
    requires sep != []
    decreases |s|
    ensures var parts := Split(s, sep); !Contains(parts[|parts| - 1], sep)
  {
    var f := Find(s, sep);
    if f.Some? {
      var i := f.value;
      var tail := s[i + |sep|..];
      SplitLastPiece(tail, sep);
      var rest := Split(tail, sep);
      SplitUnfold(s, sep, i);
      assert Split(s, sep)[|rest|] == rest[|rest| - 1];
    }
  }

  lemma {:induction false} SplitLeftmost(s: string, sep: string)
    requires sep != []
    decreases |s|
    ensures var parts := Split(s, sep);
            forall k :: 0 <= k < |parts| - 1 ==> Find(parts[k] + sep, sep) == Some(|parts[k]|)
  {
    match Find(s, sep)
    case None =>
    case Some(i) =>
      var tail := s[i + |sep|..];
      SplitLeftmost(tail, sep);
      SplitUnfold(s, sep, i);
      var rest := Split(tail, sep);
      var parts := [s[..i]] + rest;
      LeftmostInPrefix(s, sep, i);
      forall k | 0 <= k < |parts| - 1
        ensures Find(parts[k] + sep, sep) == Some(|parts[k]|)
      {
        if k > 0 {
          assert parts[k] == rest[k - 1];
        }
      }
  }

  lemma LeftmostInPrefix(s: string, sep: string, i: nat)
    requires Find(s, sep) == Some(i)
    ensures Find(s[..i] + sep, sep) == Some(i)
  {
    FindFromSpec(s, sep, 0);
    var p := s[..i] + sep;
    assert p == s[..i + |sep|];
    forall j | 0 <= j < i ensures !OccursAt(p, sep, j) {
      OccursInPrefix(s, p, sep, j);
    }
    FindIsLeftmost(p, sep, i);
  }

  /** An occurrence inside a prefix of `s` is an occurrence in `s`. */
  lemma OccursInPrefix(s: string, p: string, sep: string, j: nat)
    requires |p| <= |s| && p == s[..|p|]
    ensures OccursAt(p, sep, j) ==> OccursAt(s, sep, j)
  {
    if j + |sep| <= |p| {
      assert forall x :: j <= x < j + |sep| ==> p[x] == s[x];
    }
  }

  // ---------------------------------------------------------------- split()

  /** The longest prefix of `s` free of whitespace. */
  function Word(s: string): (w: string)
    ensures |w| <= |s|
    ensures s != [] && !IsSpace(s[0]) ==> |w| >= 1
  {
    if s == [] || IsSpace(s[0]) then [] else [s[0]] + Word(s[1..])
  }

  /** The word is a whitespace-free prefix that ends at whitespace or at the end of `s`. */
  lemma {:induction false} WordIsMaximal(s: string)
    ensures Word(s) == s[..|Word(s)|] && NoSpace(Word(s))
    ensures |Word(s)| == |s| || IsSpace(s[|Word(s)|])
  {
    if s != [] && !IsSpace(s[0]) {
      WordIsMaximal(s[1..]);
      var w := Word(s[1..]);
      assert Word(s) == [s[0]] + w;
      assert s[..|w| + 1] == [s[0]] + s[1..][..|w|];
      forall k | 0 <= k < |w| + 1 ensures !IsSpace(Word(s)[k]) {
        if k > 0 {
          assert Word(s)[k] == w[k - 1];
        }
      }
    }
  }

  /**
   * Python's s.split() with no argument: the maximal runs of non-whitespace
   * characters, in order, with no empty pieces.
   */
  function SplitWhitespace(s: string): (words: seq<string>)
    decreases |s|
  {
    var t := TrimLeft(s);
    if t == [] then []
    else
      var w := Word(t);
      [w] + SplitWhitespace(t[|w|..])
  }

  /** Every piece split() returns is a non-empty run of non-whitespace. */
  lemma {:induction false} SplitWhitespaceWords(s: string)
    decreases |s|
    ensures IsWordList(SplitWhitespace(s))
  {
    var t := TrimLeft(s);
    if t != [] {
      var w := Word(t);
      var rest := SplitWhitespace(t[|w|..]);
      SplitWhitespaceWords(t[|w|..]);
      WordIsMaximal(t);
      var words := [w] + rest;
      assert SplitWhitespace(s) == words;
      forall k | 0 <= k < |words| ensures words[k] != [] && NoSpace(words[k]) {
        if k > 0 {
          assert words[k] == rest[k - 1];
        }
      }
    }
  }

  /** A string of whitespace only has no words, and every other string has at least one. */
  lemma SplitWhitespaceEmpty(s: string)
    ensures SplitWhitespace(s) == [] <==> AllSpace(s)
  {
    var t := TrimLeft(s);
    TrimLeftSuffix(s);
    if t != [] {
      assert s[|s| - |t|] == t[0];
    }
  }

  /** Words of a string without whitespace; used by the round trip below. */
  predicate IsWordList(words: seq<string>) {
    forall k :: 0 <= k < |words| ==> words[k] != [] && NoSpace(words[k])
  }

  /** Splitting words joined by single spaces gives the words back. */
  lemma {:induction false} SplitWhitespaceJoin(words: seq<string>)
    requires IsWordList(words)
    ensures SplitWhitespace(Join(words, " ")) == words
  {
    if |words| == 1 {
      SplitWordThen(words[0], []);
      assert words[0] + [] == words[0];
    } else if |words| > 1 {
      var w, tail := words[0], words[1..];
      var rest := Join(tail, " ");
      assert IsWordList(tail) by {
        forall k | 0 <= k < |tail| ensures tail[k] != [] && NoSpace(tail[k]) {
          assert tail[k] == words[k + 1];
        }
      }
      assert Join(words, " ") == w + (" " + rest);
      SplitWordThen(w, " " + rest);
      SplitSkipsSpace(' ', rest);
      assert [' '] + rest == " " + rest;
      SplitWhitespaceJoin(tail);
      assert words == [w] + tail;
    }
  }

  /** gaps[0] + words[0] + gaps[1] + ... + words[n - 1] + gaps[n], for n words. */
  function Interleave(gaps: seq<string>, words: seq<string>): string
    requires |gaps| == |words| + 1
    decreases |words|
  {
    if words == [] then gaps[0] else gaps[0] + words[0] + Interleave(gaps[1..], words[1..])
  }

  /** The gaps around `words` are whitespace, and those between two words are not empty. */
  predicate GapsFit(gaps: seq<string>, words: seq<string>) {
    && |gaps| == |words| + 1
    && (forall k :: 0 <= k < |gaps| ==> AllSpace(gaps[k]))
    && (forall k :: 0 < k < |words| ==> gaps[k] != [])
  }

  /** The whitespace runs of `s` around the pieces split() returns: the leading run first. */
  function Gaps(s: string): (gaps: seq<string>)
    decreases |s|
    ensures |gaps| >= 1
  {
    var t := TrimLeft(s);
    if t == [] then [s]
    else [s[..|s| - |t|]] + Gaps(t[|Word(t)|..])
  }

  /**
   * split() cuts `s` into its pieces and the whitespace runs between them:
   * `s` is the gaps and the pieces interleaved, every gap is whitespace,
   * and every gap between two pieces is non-empty. With SplitWhitespaceWords
   * and SplitInterleave, this determines the pieces.
   */
  lemma {:induction false} SplitWhitespaceGaps(s: string)
    decreases |s|
    ensures GapsFit(Gaps(s), SplitWhitespace(s))
    ensures s == Interleave(Gaps(s), SplitWhitespace(s))
  {
    var t := TrimLeft(s);
    if t == [] {
      LeadThenRest(s);
      assert Interleave([s], []) == s;
    } else {
      SplitWhitespaceGaps(AfterWord(t));
      GapsStep(s);
    }
  }

  /** The step of SplitWhitespaceGaps: the leading run and the first word, in front of the rest. */
  lemma GapsStep(s: string)
    requires TrimLeft(s) != []
    requires GapsFit(Gaps(AfterWord(TrimLeft(s))), SplitWhitespace(AfterWord(TrimLeft(s))))
    requires AfterWord(TrimLeft(s)) == Interleave(Gaps(AfterWord(TrimLeft(s))), SplitWhitespace(AfterWord(TrimLeft(s))))
    ensures GapsFit(Gaps(s), SplitWhitespace(s))
    ensures s == Interleave(Gaps(s), SplitWhitespace(s))
  {
    var t := TrimLeft(s);
    var lead, w, rest := s[..|s| - |t|], Word(t), AfterWord(t);
    var g0, ws0 := Gaps(rest), SplitWhitespace(rest);
    assert AllSpace(lead) && s == lead + w + rest by {
      LeadThenRest(s);
      WordThenRest(t);
    }
    assert ws0 != [] ==> g0[0] != [] by {
      if ws0 != [] {
        WordThenRest(t);
        assert rest != [];
        LeadingRun(rest);
      }
    }
    GapsCons(s, lead, w, rest, g0, ws0);
    GapsUnfold(s);
  }

  /** What follows the first word of `t`. */
  function AfterWord(t: string): (rest: string)
    ensures |rest| <= |t|
  {
    t[|Word(t)|..]
  }

  /** One step of SplitWhitespaceGaps: a leading run and a word in front of an interleaving. */
  lemma GapsCons(s: string, lead: string, w: string, rest: string, gaps: seq<string>, words: seq<string>)
    requires AllSpace(lead) && s == lead + w + rest
    requires GapsFit(gaps, words) && rest == Interleave(gaps, words)
    requires words != [] ==> gaps[0] != []
    ensures GapsFit([lead] + gaps, [w] + words)
    ensures s == Interleave([lead] + gaps, [w] + words)
  {
    GapsFitCons(lead, gaps, w, words);
    InterleaveCons(lead, gaps, w, words);
  }

  lemma GapsUnfold(s: string)
    requires TrimLeft(s) != []
    ensures Gaps(s) == [s[..|s| - |TrimLeft(s)|]] + Gaps(AfterWord(TrimLeft(s)))
    ensures SplitWhitespace(s) == [Word(TrimLeft(s))] + SplitWhitespace(AfterWord(TrimLeft(s)))
  {
  }

  /** A string is its first word, then whitespace or nothing. */
  lemma {:induction false} WordThenRest(t: string)
    ensures t == Word(t) + AfterWord(t)
    ensures AfterWord(t) == [] || IsSpace(AfterWord(t)[0])
  {
    if t != [] && !IsSpace(t[0]) {
      var u := t[1..];
      WordThenRest(u);
      assert Word(t) == [t[0]] + Word(u);
      assert AfterWord(t) == AfterWord(u);
      assert t == [t[0]] + u;
    } else {
      assert AfterWord(t) == t;
    }
  }

  /** `s` is its leading whitespace followed by what lstrip() keeps. */
  lemma LeadThenRest(s: string)
    ensures AllSpace(s[..|s| - |TrimLeft(s)|])
    ensures s == s[..|s| - |TrimLeft(s)|] + TrimLeft(s)
  {
    TrimLeftSuffix(s);
    var t := TrimLeft(s);
    assert s[|s| - |t|..] == t;
  }

  lemma GapsFitCons(lead: string, gaps: seq<string>, w: string, words: seq<string>)
    requires AllSpace(lead) && GapsFit(gaps, words) && (words != [] ==> gaps[0] != [])
    ensures GapsFit([lead] + gaps, [w] + words)
  {
    var g, ws := [lead] + gaps, [w] + words;
    forall k | 0 < k < |ws| ensures g[k] != [] {
      assert g[k] == gaps[k - 1];
    }
    forall k | 0 <= k < |g| ensures AllSpace(g[k]) {
      if k > 0 {
        assert g[k] == gaps[k - 1];
      }
    }
  }

  lemma InterleaveCons(lead: string, gaps: seq<string>, w: string, words: seq<string>)
    requires |gaps| == |words| + 1
    ensures Interleave([lead] + gaps, [w] + words) == lead + w + Interleave(gaps, words)
  {
    assert ([lead] + gaps)[1..] == gaps && ([w] + words)[1..] == words;
  }

  /** What follows a word, when it has a piece after it, starts with a non-empty run of whitespace. */
  lemma LeadingRun(rest: string)
    requires rest != [] && IsSpace(rest[0])
    ensures Gaps(rest)[0] != []
  {
    TrimLeftSuffix(rest);
  }

  /**
   * Conversely, any words with whitespace gaps around them, non-empty between
   * two words, are what split() returns for the interleaved string.
   */
  lemma {:induction false} SplitInterleave(gaps: seq<string>, words: seq<string>)
    requires IsWordList(words) && GapsFit(gaps, words)
    decreases |words|
    ensures SplitWhitespace(Interleave(gaps, words)) == words
  {
    if words == [] {
      SplitWhitespaceEmpty(gaps[0]);
    } else {
      var w, g, ws := words[0], gaps[1..], words[1..];
      assert IsWordList(ws) by {
        forall k | 0 <= k < |ws| ensures ws[k] != [] && NoSpace(ws[k]) {
          assert ws[k] == words[k + 1];
        }
      }
      assert GapsFit(g, ws) by {
        forall k | 0 <= k < |g| ensures AllSpace(g[k]) {
          assert g[k] == gaps[k + 1];
        }
        forall k | 0 < k < |ws| ensures g[k] != [] {
          assert g[k] == gaps[k + 1];
        }
      }
      var rest := Interleave(g, ws);
      SplitInterleave(g, ws);
      InterleaveStart(g, ws);
      assert gaps[0] + w + rest == gaps[0] + (w + rest);
      SkipSpaces(gaps[0], w + rest);
      SplitWordThen(w, rest);
    }
  }

  /** The interleaved string starts with whitespace or is empty, when its first gap is non-empty or it has no words. */
  lemma InterleaveStart(gaps: seq<string>, words: seq<string>)
    requires GapsFit(gaps, words) && (gaps[0] != [] || words == [])
    ensures Interleave(gaps, words) == [] || IsSpace(Interleave(gaps, words)[0])
  {
    if words != [] {
      assert Interleave(gaps, words)[0] == gaps[0][0];
    } else if gaps[0] != [] {
      assert IsSpace(gaps[0][0]);
    }
  }

  /** split() skips leading whitespace. */
  lemma {:induction false} SkipSpaces(g: string, rest: string)
    requires AllSpace(g)
    ensures SplitWhitespace(g + rest) == SplitWhitespace(rest)
  {
    if g != [] {
      assert AllSpace(g[1..]) by {
        forall k | 0 <= k < |g| - 1 ensures IsSpace(g[1..][k]) {
          assert g[1..][k] == g[k + 1];
        }
      }
      SkipSpaces(g[1..], rest);
      assert g + rest == [g[0]] + (g[1..] + rest);
      SplitSkipsSpace(g[0], g[1..] + rest);
    } else {
      assert g + rest == rest;
    }
  }

  lemma SplitWordThen(w: string, tail: string)
    requires w != [] && NoSpace(w)
    requires tail == [] || IsSpace(tail[0])
    ensures SplitWhitespace(w + tail) == [w] + SplitWhitespace(tail)
  {
    var s := w + tail;
    assert TrimLeft(s) == s;
    WordOfWord(w, tail);
    assert s[|w|..] == tail;
  }

  lemma SplitSkipsSpace(c: char, rest: string)
    requires IsSpace(c)
    ensures SplitWhitespace([c] + rest) == SplitWhitespace(rest)
  {
    assert ([c] + rest)[1..] == rest;
    assert TrimLeft([c] + rest) == TrimLeft(rest);
  }

  lemma {:induction false} WordOfWord(w: string, tail: string)
    requires NoSpace(w)
    requires tail == [] || IsSpace(tail[0])
    ensures Word(w + tail) == w
  {
    if w != [] {
      var s := w + tail;
      assert s[0] == w[0];
      assert s[1..] == w[1..] + tail;
      WordOfWord(w[1..], tail);
      assert w == [w[0]] + w[1..];
    } else {
      assert w + tail == tail;
    }
  }

  // ---------------------------------------------------------------- lower()

  /**
   * Python's str.lower() on one character, for the ASCII letters and the
   * Cyrillic capitals U+0400-U+042F (А-Я, Ё and the other Cyrillic capitals
   * of that block); every other character is left as it is.
   */
  function LowerChar(c: char): (d: char)
  {
    if 'A' <= c <= 'Z' then (c as int + 32) as char
    else if '\U{410}' <= c <= '\U{42F}' then (c as int + 32) as char
    else if '\U{400}' <= c <= '\U{40F}' then (c as int + 80) as char
    else c
  }

  /** Python's str.lower(), one character at a time. */
  function Lower(s: string): (r: string)
    ensures |r| == |s|
  {
    seq(|s|, i requires 0 <= i < |s| => LowerChar(s[i]))
  }

  /** The only characters that `lower()` turns into a given ASCII lower-case letter. */
  lemma LowerCharToAsciiLetter(c: char, l: char)
    requires 'a' <= l <= 'z'
    ensures LowerChar(c) == l <==> c == l || c as int == l as int - 32
  {
  }

  /** `s.lower() == "exit"` holds exactly for the sixteen spellings of "exit" in either case. */
  lemma LowerIsExit(s: string)
    ensures Lower(s) == "exit" <==>
              |s| == 4 && (s[0] == 'e' || s[0] == 'E') && (s[1] == 'x' || s[1] == 'X')
                       && (s[2] == 'i' || s[2] == 'I') && (s[3] == 't' || s[3] == 'T')
  {
    if |s| == 4 {
      LowerCharToAsciiLetter(s[0], 'e');
      LowerCharToAsciiLetter(s[1], 'x');
      LowerCharToAsciiLetter(s[2], 'i');
      LowerCharToAsciiLetter(s[3], 't');
      if Lower(s) == "exit" {
        assert Lower(s)[0] == 'e' && Lower(s)[1] == 'x' && Lower(s)[2] == 'i' && Lower(s)[3] == 't';
      }
    }
  }

  // ---------------------------------------------------------------- int()

  predicate IsDigit(c: char) {
    '0' <= c <= '9'
  }

  predicate AllDigits(s: string) {
    forall i :: 0 <= i < |s| ==> IsDigit(s[i])
  }

  /** The decimal value of a string of ASCII digits (leading zeros allowed, as in Python). */
  function DigitsValue(d: string): nat
    requires AllDigits(d)
  {
    if d == [] then 0
    else 10 * DigitsValue(d[..|d| - 1]) + (d[|d| - 1] as int - '0' as int)
  }

  /** The integer literals int() accepts here: an optional sign, then one or more digits. */
  predicate IsIntLiteral(tok: string) {
    if tok != [] && (tok[0] == '+' || tok[0] == '-') then tok[1..] != [] && AllDigits(tok[1..])
    else tok != [] && AllDigits(tok)
  }

  /** Python's int(tok) on a token without surrounding whitespace; None where Python raises ValueError. */
  function ParseInt(tok: string): (r: Option<int>)
    ensures r.Some? <==> IsIntLiteral(tok)
  {
    if tok != [] && (tok[0] == '+' || tok[0] == '-') then
      var d := tok[1..];
      if d != [] && AllDigits(d) then
        var v: int := if tok[0] == '-' then -(DigitsValue(d) as int) else DigitsValue(d);
        Some(v)
      else None
    else if tok != [] && AllDigits(tok) then Some(DigitsValue(tok))
    else None
  }

  /** Python's str(n) for a natural number. */
  function FormatNat(n: nat): (s: string)
    ensures s != [] && AllDigits(s)
  {
    if n < 10 then [('0' as int + n) as char]
    else FormatNat(n / 10) + [('0' as int + n % 10) as char]
  }

  /** Python's str(n). */
  function FormatInt(n: int): string {
    if n < 0 then "-" + FormatNat(-n) else FormatNat(n)
  }

  lemma {:induction false} FormatNatValue(n: nat)
    ensures DigitsValue(FormatNat(n)) == n
  {
    if n >= 10 {
      FormatNatValue(n / 10);
      var s := FormatNat(n);
      assert s[..|s| - 1] == FormatNat(n / 10);
    }
  }

  /** int(str(n)) == n. */
  lemma ParseFormatInt(n: int)
    ensures ParseInt(FormatInt(n)) == Some(n)
  {
    if n < 0 {
      var m: nat := -n;
      FormatNatValue(m);
      var f := FormatNat(m);
      assert FormatInt(n) == "-" + f;
      assert ("-" + f)[1..] == f;
      assert ("-" + f)[0] == '-';
    } else {
      FormatNatValue(n);
    }
  }
}
