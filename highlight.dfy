/** `highlightCode` of the code block: the text is cut into lines, each line is
    cut by the pattern `(@\w+|public|class|...|=>|let|var)` the way
    `String.prototype.split` with a capturing pattern cuts it, and every piece
    is classified for colouring. */
module Highlight {
  import opened CourseModel

  /** The pattern's literal alternatives after `@\w+`, in the order it lists them. */
  const PatternWords: seq<string> :=
    ["public", "class", "void", "static", "return", "new", "private", "final",
     "const", "function", "import", "from", "=>", "let", "var"]

  /** The words the classifier colours as keywords (the pattern's words without `=>`). */
  const Keywords: seq<string> :=
    ["public", "class", "void", "static", "return", "new", "private", "final",
     "const", "function", "import", "from", "let", "var"]

  datatype Kind = Annotation | Keyword | Arrow | Plain
  datatype Token = Token(kind: Kind, text: string)
  /** One rendered line: its 1-based number and its pieces. */
  datatype Row = Row(number: nat, tokens: seq<Token>)

  // ----- lines -----

  /** `text.split('\n')`. */
  function SplitLines(s: string): (lines: seq<string>)
    ensures |lines| >= 1
  {
    if s == [] then [""]
    else
      var rest := SplitLines(s[1..]);
      if s[0] == '\n' then [""] + rest else [[s[0]] + rest[0]] + rest[1..]
  }

  /** The lines joined back with '\n' between them. */
  function JoinLines(lines: seq<string>): string
    requires |lines| >= 1
  {
    if |lines| == 1 then lines[0] else lines[0] + "\n" + JoinLines(lines[1..])
  }

  function NewlineCount(s: string): nat {
    if s == [] then 0 else (if s[0] == '\n' then 1 else 0) + NewlineCount(s[1..])
  }

  /** Splitting yields one more line than there are line breaks, none of the
      lines holds a line break, and joining them gives the text back. */
  lemma {:induction false} SplitLinesSpec(s: string)
    ensures |SplitLines(s)| == NewlineCount(s) + 1
    ensures forall i :: 0 <= i < |SplitLines(s)| ==> '\n' !in SplitLines(s)[i]
    ensures JoinLines(SplitLines(s)) == s
  {
    if s != [] {
      SplitLinesSpec(s[1..]);
      var rest := SplitLines(s[1..]);
      if s[0] != '\n' {
        var lines := SplitLines(s);
        assert lines[1..] == rest[1..];
        if |rest| == 1 {
          assert JoinLines(lines) == [s[0]] + rest[0];
        } else {
          assert JoinLines(rest) == rest[0] + "\n" + JoinLines(rest[1..]);
          assert JoinLines(lines) == [s[0]] + rest[0] + "\n" + JoinLines(rest[1..]);
        }
        assert s == [s[0]] + s[1..];
      } else {
        assert SplitLines(s)[1..] == rest;
        assert s == "\n" + s[1..];
      }
    }
  }

  /** Joining lines free of line breaks and splitting again gives the lines back. */
  lemma {:induction false} JoinThenSplit(lines: seq<string>)
    requires |lines| >= 1
    requires forall i :: 0 <= i < |lines| ==> '\n' !in lines[i]
    ensures SplitLines(JoinLines(lines)) == lines
  {
    if |lines| == 1 {
      SplitLineWithoutBreak(lines[0], []);
    } else {
      JoinThenSplit(lines[1..]);
      SplitLineWithoutBreak(lines[0], lines[1..]);
    }
  }

  /** A line free of breaks, followed by a break and more text, is split off
      as the first line (or is all of the text when nothing follows). */
  lemma {:induction false} SplitLineWithoutBreak(line: string, more: seq<string>)
    requires '\n' !in line
    requires forall i :: 0 <= i < |more| ==> '\n' !in more[i]
    requires |more| >= 1 ==> SplitLines(JoinLines(more)) == more
    ensures |more| == 0 ==> SplitLines(line) == [line]
    ensures |more| >= 1 ==> SplitLines(line + "\n" + JoinLines(more)) == [line] + more
  {
    if line == [] {
      if |more| >= 1 {
        assert ("" + "\n" + JoinLines(more))[1..] == JoinLines(more);
      }
    } else {
      SplitLineWithoutBreak(line[1..], more);
      if |more| >= 1 {
        var s := line + "\n" + JoinLines(more);
        assert s[1..] == line[1..] + "\n" + JoinLines(more);
        var rest := SplitLines(s[1..]);
        assert rest == [line[1..]] + more;
        assert rest[0] == line[1..] && rest[1..] == more;
        assert s[0] == line[0] && line[0] != '\n';
        assert [s[0]] + rest[0] == line;
      } else {
        assert line == [line[0]] + line[1..];
      }
    }
  }

  // ----- the pattern -----

  /** `\w`: ASCII letters, digits and '_'. */
  predicate IsWordChar(c: char) {
    ('a' <= c <= 'z') || ('A' <= c <= 'Z') || ('0' <= c <= '9') || c == '_'
  }

  /** The length of the run of word characters starting at i (greedy `\w+`). */
  function WordRun(line: string, i: nat): (n: nat)
    requires i <= |line|
    ensures i + n <= |line|
    decreases |line| - i
  {
    if i < |line| && IsWordChar(line[i]) then 1 + WordRun(line, i + 1) else 0
  }

  /** The run is as long as possible: all word characters, then a non-word
      character or the end of the line. */
  lemma {:induction false} WordRunSpec(line: string, i: nat)
    requires i <= |line|
    ensures forall k :: i <= k < i + WordRun(line, i) ==> IsWordChar(line[k])
    ensures i + WordRun(line, i) < |line| ==> !IsWordChar(line[i + WordRun(line, i)])
    decreases |line| - i
  {
    if i < |line| && IsWordChar(line[i]) {
      WordRunSpec(line, i + 1);
    }
  }

  /** The word w occurs in the line at position q. */
  predicate StartsAt(line: string, w: string, q: nat) {
    q + |w| <= |line| && line[q..q + |w|] == w
  }

  /** The length of the first of the words that occurs at q. */
  function FirstWordAt(line: string, q: nat, words: seq<string>): (m: Option<nat>)
    requires forall k :: 0 <= k < |words| ==> |words[k]| > 0
    ensures m.Some? ==> 0 < m.value && q + m.value <= |line|
  {
    if words == [] then None
    else if StartsAt(line, words[0], q) then Some(|words[0]|)
    else FirstWordAt(line, q, words[1..])
  }

  /** The first word found is one that occurs at q, and none is found only when
      none occurs. */
  lemma {:induction false} FirstWordAtSpec(line: string, q: nat, words: seq<string>)
    requires forall k :: 0 <= k < |words| ==> |words[k]| > 0
    ensures FirstWordAt(line, q, words).None? <==> forall k :: 0 <= k < |words| ==> !StartsAt(line, words[k], q)
    ensures FirstWordAt(line, q, words).Some? ==>
      exists k :: 0 <= k < |words| && StartsAt(line, words[k], q) && FirstWordAt(line, q, words).value == |words[k]|
  {
    if words != [] && !StartsAt(line, words[0], q) {
      FirstWordAtSpec(line, q, words[1..]);
      assert forall k :: 1 <= k < |words| ==> words[k] == words[1..][k - 1];
    }
  }

  /** Text the `@\w+` alternative matches: '@' and at least one word character. */
  predicate IsAnnotationText(s: string) {
    |s| >= 2 && s[0] == '@' && forall k :: 1 <= k < |s| ==> IsWordChar(s[k])
  }

  /** Text one of the pattern's alternatives matches. */
  predicate IsMatchText(s: string) {
    IsAnnotationText(s) || s in PatternWords
  }

  /** The length of the pattern's match that starts at q, if any: `@\w+` first
      (as long as possible), then the words in their listed order. */
  function MatchAt(line: string, q: nat): (m: Option<nat>)
    requires q < |line|
    ensures m.Some? ==> 0 < m.value && q + m.value <= |line|
  {
    if line[q] == '@' && WordRun(line, q + 1) > 0 then Some(1 + WordRun(line, q + 1))
    else FirstWordAt(line, q, PatternWords)
  }

  lemma PatternWordsNonEmpty()
    ensures forall k :: 0 <= k < |PatternWords| ==> |PatternWords[k]| > 0
  {
  }

  /** What the pattern matches is `@\w+` text or one of its words. */
  lemma MatchAtText(line: string, q: nat)
    requires q < |line| && MatchAt(line, q).Some?
    ensures IsMatchText(line[q..q + MatchAt(line, q).value])
  {
    if line[q] == '@' && WordRun(line, q + 1) > 0 {
      AnnotationText(line, q);
    } else {
      PatternWordsNonEmpty();
      FirstWordAtText(line, q, PatternWords);
    }
  }

  /** '@' followed by its run of word characters is `@\w+` text. */
  lemma AnnotationText(line: string, q: nat)
    requires q < |line| && line[q] == '@' && WordRun(line, q + 1) > 0
    ensures IsAnnotationText(line[q..q + 1 + WordRun(line, q + 1)])
  {
    WordRunSpec(line, q + 1);
  }

  /** The text at q that the first found word covers is that word. */
  lemma {:induction false} FirstWordAtText(line: string, q: nat, words: seq<string>)
    requires forall k :: 0 <= k < |words| ==> |words[k]| > 0
    requires FirstWordAt(line, q, words).Some?
    ensures line[q..q + FirstWordAt(line, q, words).value] in words
  {
    if !StartsAt(line, words[0], q) {
      FirstWordAtText(line, q, words[1..]);
    }
  }

  /** An '@' followed by a word character always matches `@\w+`, and the match
      runs to the end of that run of word characters. */
  lemma AnnotationForcesMatch(line: string, q: nat)
    requires q + 1 < |line| && line[q] == '@' && IsWordChar(line[q + 1])
    ensures MatchAt(line, q).Some?
    ensures var n := MatchAt(line, q).value;
      && IsAnnotationText(line[q..q + n])
      && (q + n == |line| || !IsWordChar(line[q + n]))
  {
    assert WordRun(line, q + 1) > 0;
    AnnotationText(line, q);
    WordRunSpec(line, q + 1);
  }

  /** Wherever one of the pattern's words occurs, the pattern matches. */
  lemma WordForcesMatch(line: string, q: nat, w: string)
    requires q < |line| && w in PatternWords && StartsAt(line, w, q)
    ensures MatchAt(line, q).Some?
  {
    var k :| 0 <= k < |PatternWords| && PatternWords[k] == w;
    assert StartsAt(line, PatternWords[k], q);
    FirstWordAtSpec(line, q, PatternWords);
  }

  /** The pattern's match at each position of the line: what `MatchAt` finds there. */
  function MatchTable(line: string): (t: seq<Option<nat>>)
    ensures Bounded(line, t)
  {
    seq(|line|, k requires 0 <= k < |line| => MatchAt(line, k))
  }

  /** A table of matches for the line: one entry per position, each match
      non-empty and ending inside the line. */
  predicate Bounded(line: string, t: seq<Option<nat>>) {
    && |t| == |line|
    && forall k :: 0 <= k < |t| && t[k].Some? ==> 0 < t[k].value && k + t[k].value <= |line|
  }

  /** What the pattern's table guarantees: every match spells text one of the
      alternatives matches, where there is no match none of the words starts,
      and every '@' followed by a word character starts a match that takes the
      whole run of word characters. */
  predicate PatternTable(line: string, t: seq<Option<nat>>) {
    TableSound(line, t) && AnnotationsMatched(line, t)
  }

  /** The first two guarantees: matches spell match text, and no word starts
      where nothing matches. */
  predicate TableSound(line: string, t: seq<Option<nat>>) {
    && Bounded(line, t)
    && (forall k :: 0 <= k < |t| && t[k].Some? ==> IsMatchText(line[k..k + t[k].value]))
    && (forall k, j :: 0 <= k < |t| && t[k].None? && 0 <= j < |PatternWords| ==> !StartsAt(line, PatternWords[j], k))
  }

  /** Every '@' followed by a word character starts a maximal `@\w+` match. */
  predicate AnnotationsMatched(line: string, t: seq<Option<nat>>)
    requires Bounded(line, t)
  {
    forall k :: 0 <= k < |t| && k + 1 < |line| && line[k] == '@' && IsWordChar(line[k + 1]) ==>
      && t[k].Some?
      && IsAnnotationText(line[k..k + t[k].value])
      && (k + t[k].value == |line| || !IsWordChar(line[k + t[k].value]))
  }

  lemma MatchTableIsPatternTable(line: string)
    ensures PatternTable(line, MatchTable(line))
  {
    MatchTableText(line);
    MatchTableNoWord(line);
    MatchTableAnnotations(line);
  }

  lemma MatchTableAnnotations(line: string)
    ensures AnnotationsMatched(line, MatchTable(line))
  {
    forall k | 0 <= k < |line| && k + 1 < |line| && line[k] == '@' && IsWordChar(line[k + 1])
      ensures MatchTable(line)[k].Some? && IsAnnotationText(line[k..k + MatchTable(line)[k].value])
      ensures k + MatchTable(line)[k].value == |line| || !IsWordChar(line[k + MatchTable(line)[k].value])
    {
      AnnotationForcesMatch(line, k);
    }
  }

  lemma MatchTableText(line: string)
    ensures forall k :: 0 <= k < |line| && MatchTable(line)[k].Some? ==>
      IsMatchText(line[k..k + MatchTable(line)[k].value])
  {
    forall k | 0 <= k < |line| && MatchTable(line)[k].Some?
      ensures IsMatchText(line[k..k + MatchTable(line)[k].value])
    {
      MatchAtText(line, k);
    }
  }

  lemma MatchTableNoWord(line: string)
    ensures forall k, j :: 0 <= k < |line| && MatchTable(line)[k].None? && 0 <= j < |PatternWords| ==>
      !StartsAt(line, PatternWords[j], k)
  {
    forall k | 0 <= k < |line| && MatchTable(line)[k].None?
      ensures forall j :: 0 <= j < |PatternWords| ==> !StartsAt(line, PatternWords[j], k)
    {
      NoMatchNoWord(line, k);
    }
  }

  /** Where the pattern does not match, none of its words starts. */
  lemma NoMatchNoWord(line: string, q: nat)
    requires q < |line| && MatchAt(line, q).None?
    ensures forall j :: 0 <= j < |PatternWords| ==> !StartsAt(line, PatternWords[j], q)
  {
    PatternWordsNonEmpty();
    FirstWordAtSpec(line, q, PatternWords);
  }

  /** No match starts anywhere in [a, b). */
  predicate NoMatchBetween(t: seq<Option<nat>>, a: nat, b: nat)
    requires b <= |t|
  {
    forall k :: a <= k < b ==> t[k].None?
  }

  /** `line.split(pattern)` from position p, having already looked for a match at
      p..q-1 (t holds the match at each position): the text before the leftmost
      match, the match itself (the captured group), then the same for the rest of
      the line; the text after the last match ends the list. */
  function SplitFrom(line: string, t: seq<Option<nat>>, p: nat, q: nat): seq<string>
    requires Bounded(line, t) && p <= q <= |line|
    decreases |line| - q
  {
    if q == |line| then [line[p..]]
    else
      match t[q]
      case None => SplitFrom(line, t, p, q + 1)
      case Some(n) => [line[p..q], line[q..q + n]] + SplitFrom(line, t, q + n, q + n)
  }

  function SplitLine(line: string): seq<string> {
    SplitFrom(line, MatchTable(line), 0, 0)
  }

  /** What a leftmost-match split of the line from position p looks like: a
      piece with no match starting inside it, then either the end of the line,
      or the match found right after that piece followed by a split of the rest. */
  predicate WellSplit(line: string, t: seq<Option<nat>>, p: nat, parts: seq<string>)
    requires |t| == |line| && p <= |line|
    decreases |parts|
  {
    && |parts| >= 1
    && var q := p + |parts[0]|;
    && q <= |line| && line[p..q] == parts[0] && NoMatchBetween(t, p, q)
    && if |parts| == 1 then q == |line|
       else
         && |parts| >= 3 && q < |line|
         && t[q] == Some(|parts[1]|)
         && q + |parts[1]| <= |line|
         && line[q..q + |parts[1]|] == parts[1]
         && WellSplit(line, t, q + |parts[1]|, parts[2..])
  }

  /** The split function produces a leftmost-match split. */
  lemma {:induction false} SplitFromIsWellSplit(line: string, t: seq<Option<nat>>, p: nat, q: nat)
    requires Bounded(line, t) && p <= q <= |line|
    requires NoMatchBetween(t, p, q)
    ensures WellSplit(line, t, p, SplitFrom(line, t, p, q))
    decreases |line| - q
  {
    if q < |line| {
      match t[q]
      case None =>
        SplitFromIsWellSplit(line, t, p, q + 1);
      case Some(n) =>
        SplitFromIsWellSplit(line, t, q + n, q + n);
        var parts := SplitFrom(line, t, p, q);
        assert parts[2..] == SplitFrom(line, t, q + n, q + n);
    }
  }

  /** A leftmost-match split is unique: any two agree. */
  lemma {:induction false} WellSplitUnique(line: string, t: seq<Option<nat>>, p: nat, a: seq<string>, b: seq<string>)
    requires |t| == |line| && p <= |line|
    requires WellSplit(line, t, p, a) && WellSplit(line, t, p, b)
    ensures a == b
    decreases |a|
  {
    var r := WellSplitStep(line, t, p, a, b);
    if |a| > 1 {
      WellSplitUnique(line, t, r, a[2..], b[2..]);
      assert a == a[..2] + a[2..] && b == b[..2] + b[2..];
    }
  }

  /** Two leftmost-match splits agree on their first piece and, if there is more,
      on the match after it, and continue as splits of the same rest. */
  lemma WellSplitStep(line: string, t: seq<Option<nat>>, p: nat, a: seq<string>, b: seq<string>) returns (r: nat)
    requires |t| == |line| && p <= |line|
    requires WellSplit(line, t, p, a) && WellSplit(line, t, p, b)
    ensures |a| == 1 <==> |b| == 1
    ensures |a| == 1 ==> a == b
    ensures |a| > 1 ==> a[..2] == b[..2] && r <= |line| && WellSplit(line, t, r, a[2..]) && WellSplit(line, t, r, b[2..])
  {
    FirstPieceShortest(line, t, p, a, b);
    FirstPieceShortest(line, t, p, b, a);
    var q := p + |a[0]|;
    assert a[0] == line[p..q] == b[0];
    r := q;
    if |a| > 1 {
      r := q + |a[1]|;
      assert a[1] == line[q..r] == b[1];
    }
  }

  /** The first piece of a leftmost-match split ends at the first match at or
      after p, so no other split has a shorter first piece. */
  lemma FirstPieceShortest(line: string, t: seq<Option<nat>>, p: nat, a: seq<string>, b: seq<string>)
    requires |t| == |line| && p <= |line|
    requires WellSplit(line, t, p, a) && WellSplit(line, t, p, b)
    ensures |a[0]| <= |b[0]|
  {
    if |b[0]| < |a[0]| {
      assert false;
    }
  }

  /** The pieces of a well-formed split concatenate to the rest of the line, and
      there is an odd number of them. */
  lemma {:induction false} WellSplitPieces(line: string, t: seq<Option<nat>>, p: nat, parts: seq<string>)
    requires |t| == |line| && p <= |line|
    requires WellSplit(line, t, p, parts)
    ensures Concat(parts) == line[p..]
    ensures |parts| % 2 == 1
    decreases |parts|
  {
    if |parts| > 1 {
      var q := p + |parts[0]|;
      var r := q + |parts[1]|;
      WellSplitPieces(line, t, r, parts[2..]);
      assert Concat(parts) == parts[0] + (parts[1] + Concat(parts[2..])) by {
        assert parts[1..][1..] == parts[2..];
      }
      assert line[p..] == line[p..q] + line[q..r] + line[r..];
    }
  }

  /** The pieces at odd positions of a well-formed split are pattern matches. */
  lemma {:induction false} WellSplitMatches(line: string, t: seq<Option<nat>>, p: nat, parts: seq<string>)
    requires TableSound(line, t) && p <= |line|
    requires WellSplit(line, t, p, parts)
    ensures forall i :: 0 <= i < |parts| && i % 2 == 1 ==> IsMatchText(parts[i])
    decreases |parts|
  {
    if |parts| > 1 {
      var q := p + |parts[0]|;
      WellSplitMatches(line, t, q + |parts[1]|, parts[2..]);
      assert IsMatchText(parts[1]);
      forall i | 0 <= i < |parts| && i % 2 == 1 ensures IsMatchText(parts[i]) {
        if i > 1 {
          assert parts[i] == parts[2..][i - 2];
        }
      }
    }
  }

  function Concat(parts: seq<string>): string {
    if parts == [] then "" else parts[0] + Concat(parts[1..])
  }

  /** The line's pieces: a leftmost-match split of the whole line. */
  lemma SplitLineSpec(line: string)
    ensures WellSplit(line, MatchTable(line), 0, SplitLine(line))
    ensures Concat(SplitLine(line)) == line
    ensures |SplitLine(line)| % 2 == 1
    ensures forall i :: 0 <= i < |SplitLine(line)| && i % 2 == 1 ==> IsMatchText(SplitLine(line)[i])
    ensures forall i :: 0 <= i < |SplitLine(line)| && i % 2 == 0 ==>
      Classify(SplitLine(line)[i]) == Plain || Classify(SplitLine(line)[i]) == Annotation
  {
    var t := MatchTable(line);
    SplitFromIsWellSplit(line, t, 0, 0);
    MatchTableIsPatternTable(line);
    WellSplitPieces(line, t, 0, SplitLine(line));
    WellSplitMatches(line, t, 0, SplitLine(line));
    forall i | 0 <= i < |SplitLine(line)| && i % 2 == 0
      ensures Classify(SplitLine(line)[i]) == Plain || Classify(SplitLine(line)[i]) == Annotation
    {
      GapPieceKind(line, t, 0, SplitLine(line), i);
    }
  }

  // ----- classification -----

  /** The colouring rule: a piece starting with '@' is an annotation, a listed
      keyword is a keyword, `=>` is an arrow, anything else is plain text. */
  function Classify(part: string): Kind {
    if |part| > 0 && part[0] == '@' then Annotation
    else if part in Keywords then Keyword
    else if part == "=>" then Arrow
    else Plain
  }

  /** A piece the pattern matched is never plain: `@\w+` text is an annotation,
      a keyword a keyword, `=>` an arrow. */
  lemma MatchedPieceKind(s: string)
    requires IsMatchText(s)
    ensures Classify(s) != Plain
    ensures IsAnnotationText(s) ==> Classify(s) == Annotation
    ensures s in Keywords ==> Classify(s) == Keyword
    ensures s == "=>" ==> Classify(s) == Arrow
  {
  }

  /** A piece between matches is never a keyword or an arrow: had it been one,
      the pattern would have matched at its start. */
  lemma {:induction false} GapPieceKind(line: string, t: seq<Option<nat>>, p: nat, parts: seq<string>, i: nat)
    requires TableSound(line, t) && p <= |line|
    requires WellSplit(line, t, p, parts)
    requires i < |parts| && i % 2 == 0
    ensures Classify(parts[i]) == Plain || Classify(parts[i]) == Annotation
    decreases |parts|
  {
    if i == 0 {
      GapHoldsNoWord(line, t, p, parts[0]);
    } else {
      var q := p + |parts[0]| + |parts[1]|;
      GapPieceKind(line, t, q, parts[2..], i - 2);
      assert parts[i] == parts[2..][i - 2];
    }
  }

  /** Text with no match starting inside it is none of the pattern's words. */
  lemma GapHoldsNoWord(line: string, t: seq<Option<nat>>, p: nat, w: string)
    requires TableSound(line, t) && p + |w| <= |line|
    requires line[p..p + |w|] == w && NoMatchBetween(t, p, p + |w|)
    ensures w !in PatternWords
  {
    if |w| > 0 {
      assert t[p].None?;
      assert StartsAt(line, w, p);
    } else {
      PatternWordsNonEmpty();
    }
  }

  /** No '@' in the text is followed by a word character. */
  predicate NoAnnotationInside(w: string) {
    forall j :: 0 <= j < |w| - 1 ==> !(w[j] == '@' && IsWordChar(w[j + 1]))
  }

  /** A piece between matches holds no '@' followed by a word character: there
      the `@\w+` alternative would have matched. */
  lemma {:induction false} GapPieceNoAnnotation(line: string, t: seq<Option<nat>>, p: nat, parts: seq<string>, i: nat)
    requires Bounded(line, t) && AnnotationsMatched(line, t) && p <= |line|
    requires WellSplit(line, t, p, parts)
    requires i < |parts| && i % 2 == 0
    ensures NoAnnotationInside(parts[i])
    decreases |parts|
  {
    if i == 0 {
      GapHoldsNoAnnotation(line, t, p, parts[0]);
    } else {
      var q := p + |parts[0]| + |parts[1]|;
      GapPieceNoAnnotation(line, t, q, parts[2..], i - 2);
      assert parts[i] == parts[2..][i - 2];
    }
  }

  lemma GapHoldsNoAnnotation(line: string, t: seq<Option<nat>>, p: nat, w: string)
    requires Bounded(line, t) && AnnotationsMatched(line, t) && p + |w| <= |line|
    requires line[p..p + |w|] == w && NoMatchBetween(t, p, p + |w|)
    ensures NoAnnotationInside(w)
  {
    forall j | 0 <= j < |w| - 1
      ensures !(w[j] == '@' && IsWordChar(w[j + 1]))
    {
      assert w[j] == line[p + j] && w[j + 1] == line[p + j + 1];
      assert t[p + j].None?;
    }
  }

  /** Between the matches of a line there is never an '@' followed by a word
      character: every such annotation is cut out as a match of its own. */
  lemma SplitLineGaps(line: string)
    ensures forall i :: 0 <= i < |SplitLine(line)| && i % 2 == 0 ==> NoAnnotationInside(SplitLine(line)[i])
  {
    var t := MatchTable(line);
    SplitFromIsWellSplit(line, t, 0, 0);
    MatchTableIsPatternTable(line);
    forall i | 0 <= i < |SplitLine(line)| && i % 2 == 0
      ensures NoAnnotationInside(SplitLine(line)[i])
    {
      GapPieceNoAnnotation(line, t, 0, SplitLine(line), i);
    }
  }

  /** The pieces of one line with their kinds. */
  function Tokens(line: string): (ts: seq<Token>)
    ensures |ts| == |SplitLine(line)|
    ensures forall i :: 0 <= i < |ts| ==> ts[i].text == SplitLine(line)[i]
    ensures forall i :: 0 <= i < |ts| ==> ts[i].kind == Classify(ts[i].text)
  {
    var parts := SplitLine(line);
    seq(|parts|, i requires 0 <= i < |parts| => Token(Classify(parts[i]), parts[i]))
  }

  /** The colours of one line: every matched piece is coloured (annotation,
      keyword or arrow), and the text between matches is plain unless it starts
      with '@'. */
  lemma TokenKinds(line: string)
    ensures forall i :: 0 <= i < |Tokens(line)| && i % 2 == 1 ==> Tokens(line)[i].kind != Plain
    ensures forall i :: 0 <= i < |Tokens(line)| && i % 2 == 0 ==>
      Tokens(line)[i].kind == Plain || Tokens(line)[i].kind == Annotation
  {
    var ts := Tokens(line);
    SplitLineSpec(line);
    forall i | 0 <= i < |ts| && i % 2 == 1 ensures ts[i].kind != Plain {
      MatchedPieceKind(ts[i].text);
    }
  }

  /** `highlightCode`: nothing for empty text, otherwise one row per line,
      numbered from 1. */
  function HighlightCode(text: string): (r: Option<seq<Row>>)
    ensures r.None? <==> text == ""
    ensures r.Some? ==> |r.value| == |SplitLines(text)|
  {
    if text == "" then None
    else
      var lines := SplitLines(text);
      Some(seq(|lines|, i requires 0 <= i < |lines| => Row(i + 1, Tokens(lines[i]))))
  }

  /** The text of a row: its pieces put back together. */
  function RowText(r: Row): string {
    Concat(seq(|r.tokens|, i requires 0 <= i < |r.tokens| => r.tokens[i].text))
  }

  /** Every matched piece of the row is coloured, and the text between matches
      is plain unless it starts with '@'. */
  predicate RowColoured(r: Row) {
    && (forall j :: 0 <= j < |r.tokens| && j % 2 == 1 ==> r.tokens[j].kind != Plain)
    && (forall j :: 0 <= j < |r.tokens| && j % 2 == 0 ==>
          r.tokens[j].kind == Plain || r.tokens[j].kind == Annotation)
  }

  /** A row rendered from a line spells that line and is coloured as above. */
  lemma RowSpec(r: Row, line: string)
    requires r.tokens == Tokens(line)
    ensures RowText(r) == line
    ensures RowColoured(r)
  {
    SplitLineSpec(line);
    TokenKinds(line);
    var texts := seq(|r.tokens|, j requires 0 <= j < |r.tokens| => r.tokens[j].text);
    assert texts == SplitLine(line);
  }

  /** Empty text renders nothing; otherwise there is a row per line, numbered
      1, 2, ..., each row's pieces spell its line, and the rows joined with line
      breaks spell the whole text. */
  lemma HighlightCodeSpec(text: string)
    ensures text == "" <==> HighlightCode(text).None?
    ensures text != "" ==> var rows := HighlightCode(text).value;
      && |rows| == NewlineCount(text) + 1
      && (forall i :: 0 <= i < |rows| ==> rows[i].number == i + 1)
      && (forall i :: 0 <= i < |rows| ==> RowText(rows[i]) == SplitLines(text)[i])
      && (forall i :: 0 <= i < |rows| ==> rows[i].tokens == Tokens(SplitLines(text)[i]))
      && (forall i :: 0 <= i < |rows| ==> RowColoured(rows[i]))
      && JoinLines(SplitLines(text)) == text
  {
    SplitLinesSpec(text);
    if text != "" {
      var rows := HighlightCode(text).value;
      var lines := SplitLines(text);
      forall i | 0 <= i < |rows| ensures RowText(rows[i]) == lines[i] && RowColoured(rows[i]) {
        RowSpec(rows[i], lines[i]);
      }
    }
  }

  /** Every word of the pattern begins with one of these characters. */
  lemma WordInitials()
    ensures forall k :: 0 <= k < |PatternWords| ==> |PatternWords[k]| > 0 && PatternWords[k][0] in "pcvsrnfil="
  {
  }

  /** No match starts at a character that begins no alternative. */
  lemma NoMatchWithoutInitial(line: string, q: nat)
    requires q < |line| && line[q] !in "@pcvsrnfil="
    ensures MatchAt(line, q).None?
  {
    WordInitials();
    FirstWordAtSpec(line, q, PatternWords);
  }

  /** Any leftmost-match split of the whole line is the one `SplitFrom` computes. */
  lemma SplitIsTheWellSplit(line: string, t: seq<Option<nat>>, parts: seq<string>)
    requires Bounded(line, t) && WellSplit(line, t, 0, parts)
    ensures SplitFrom(line, t, 0, 0) == parts
  {
    SplitFromIsWellSplit(line, t, 0, 0);
    WellSplitUnique(line, t, 0, SplitFrom(line, t, 0, 0), parts);
  }

  /** The pattern has no word boundaries: a keyword at the front of an
      identifier is cut out and coloured ("classy" becomes "", "class", "y"). */
  lemma KeywordInsideIdentifier(line: string)
    requires line == "classy"
    ensures SplitLine(line) == ["", "class", "y"]
    ensures Classify("class") == Keyword && Classify("y") == Plain
  {
    ClassyMatches(line);
    var t := MatchTable(line);
    assert t[0] == Some(5) && t[5].None?;
    ClassyWellSplit(line, t);
    SplitIsTheWellSplit(line, t, ["", "class", "y"]);
  }

  /** In "classy" the pattern matches "class" at 0 and nothing at 5. */
  lemma ClassyMatches(line: string)
    requires line == "classy"
    ensures MatchAt(line, 0) == Some(5) && MatchAt(line, 5).None?
  {
    assert PatternWords[0] == "public" && PatternWords[1..][0] == "class";
    assert !StartsAt(line, "public", 0) by {
      assert line[0..6][0] == 'c';
    }
    assert StartsAt(line, "class", 0) by {
      assert line[0..5] == "class";
    }
    assert FirstWordAt(line, 0, PatternWords[1..]) == Some(5);
    NoMatchWithoutInitial(line, 5);
  }

  lemma ClassyWellSplit(line: string, t: seq<Option<nat>>)
    requires line == "classy" && |t| == |line|
    requires t[0] == Some(5) && t[5].None?
    ensures WellSplit(line, t, 0, ["", "class", "y"])
  {
    assert WellSplit(line, t, 5, ["y"]);
  }

  /** A piece between matches that starts with '@' is coloured as an annotation
      even when no word character follows the '@'. */
  lemma BareAtIsAnnotation(line: string)
    requires line == "@ x"
    ensures SplitLine(line) == [line]
    ensures Classify(line) == Annotation
  {
    BareAtMatches(line);
    var t := MatchTable(line);
    assert t[0].None? && t[1].None? && t[2].None?;
    BareAtWellSplit(line, t);
    SplitIsTheWellSplit(line, t, [line]);
  }

  /** An indented annotation is cut out and coloured: "  @Ab" becomes "  ",
      "@Ab", "". */
  lemma IndentedAnnotation(line: string)
    requires line == "  @Ab"
    ensures SplitLine(line) == ["  ", "@Ab", ""]
    ensures Classify("  ") == Plain && Classify("@Ab") == Annotation
  {
    NoMatchWithoutInitial(line, 0);
    NoMatchWithoutInitial(line, 1);
    AnnotationForcesMatch(line, 2);
    var t := MatchTable(line);
    assert t[0].None? && t[1].None? && t[2] == Some(3);
    assert WellSplit(line, t, 0, ["  ", "@Ab", ""]) by {
      assert WellSplit(line, t, 5, [""]);
    }
    SplitIsTheWellSplit(line, t, ["  ", "@Ab", ""]);
  }

  /** In "@ x" the pattern matches nowhere: the '@' has no word character after it. */
  lemma BareAtMatches(line: string)
    requires line == "@ x"
    ensures MatchAt(line, 0).None? && MatchAt(line, 1).None? && MatchAt(line, 2).None?
  {
    assert WordRun(line, 1) == 0;
    assert MatchAt(line, 0).None? by {
      WordInitials();
      FirstWordAtSpec(line, 0, PatternWords);
    }
    NoMatchWithoutInitial(line, 1);
    NoMatchWithoutInitial(line, 2);
  }

  lemma BareAtWellSplit(line: string, t: seq<Option<nat>>)
    requires line == "@ x" && |t| == |line|
    requires t[0].None? && t[1].None? && t[2].None?
    ensures WellSplit(line, t, 0, [line])
  {
  }
}
