/**
 The two text checkers: one compares outputs without their whitespace, the other line by line. Characters are
 compared by code, as an ordinal comparison does.
 */
module TextCheckers {
  import opened Options
  import opened StatusCodes
  import opened Strings

  /** The characters that end a line. */
  predicate IsLineBreak(c: char) {
    c == '\n' || c == '\r' || c == '\U{000C}' || c == '\U{0085}' || c == '\U{2028}' || c == '\U{2029}'
  }

  /** The text with all whitespace deleted. */
  function Stripped(s: string): string {
    if s == [] then []
    else (if IsWhiteSpace(s[0]) then [] else [s[0]]) + Stripped(s[1..])
  }

  lemma {:induction false} StrippedConcat(s: string, t: string)
    ensures Stripped(s + t) == Stripped(s) + Stripped(t)
  {
    if s == [] {
      assert s + t == t;
    } else {
      assert (s + t)[1..] == s[1..] + t;
      StrippedConcat(s[1..], t);
    }
  }

  // ---------- Comparing without whitespace ----------

  /** The two-pointer loop accepts exactly the outputs that agree after deleting whitespace. */
  method LegacyCheck(juryOutput: string, userOutput: string) returns (r: CheckerResultStatus)
    ensures r == if Stripped(userOutput) == Stripped(juryOutput) then Accepted else WrongAnswer
  {
    hide Stripped, IsWhiteSpace;
    var i, j := 0, 0;
    ghost var agree := Stripped(userOutput) == Stripped(juryOutput);
    assert userOutput[0..] == userOutput && juryOutput[0..] == juryOutput;
    while true
      invariant 0 <= i <= |userOutput| && 0 <= j <= |juryOutput|
      invariant agree <==> Stripped(userOutput[i..]) == Stripped(juryOutput[j..])
      decreases |userOutput| - i
    {
      while i < |userOutput| && IsWhiteSpace(userOutput[i])
        invariant i <= |userOutput|
        invariant agree <==> Stripped(userOutput[i..]) == Stripped(juryOutput[j..])
      {
        SkipWhiteSpace(userOutput, i);
        i := i + 1;
      }
      while j < |juryOutput| && IsWhiteSpace(juryOutput[j])
        invariant j <= |juryOutput|
        invariant agree <==> Stripped(userOutput[i..]) == Stripped(juryOutput[j..])
      {
        SkipWhiteSpace(juryOutput, j);
        j := j + 1;
      }

      NextVisible(userOutput, i);
      NextVisible(juryOutput, j);
      if i == |userOutput| && j == |juryOutput| {
        return Accepted;
      }
      if i == |userOutput| || j == |juryOutput| {
        return WrongAnswer;
      }
      SameStart(userOutput[i], Stripped(userOutput[i + 1..]), juryOutput[j], Stripped(juryOutput[j + 1..]));
      if userOutput[i] != juryOutput[j] {
        return WrongAnswer;
      }
      i, j := i + 1, j + 1;
    }
  }

  /** The characters that do not count, and no others. */
  lemma DeletedCharacters(c: char)
    ensures Stripped([c]) == [] <==> c in {
        '\U{0009}', '\U{000A}', '\U{000B}', '\U{000C}', '\U{000D}', ' ', '\U{0085}', '\U{00A0}', '\U{1680}', '\U{2000}',
        '\U{2001}', '\U{2002}', '\U{2003}', '\U{2004}', '\U{2005}', '\U{2006}', '\U{2007}', '\U{2008}', '\U{2009}', '\U{200A}',
        '\U{2028}', '\U{2029}', '\U{202F}', '\U{205F}', '\U{3000}'}
    ensures Stripped([c]) == [] || Stripped([c]) == [c]
  {
    assert [c][1..] == [] && Stripped([]) == [];
  }

  lemma SkipWhiteSpace(s: string, i: nat)
    requires i < |s| && IsWhiteSpace(s[i])
    ensures Stripped(s[i..]) == Stripped(s[i + 1..])
  {
    assert s[i..][1..] == s[i + 1..];
  }

  lemma NextVisible(s: string, i: nat)
    requires i <= |s| && (i < |s| ==> !IsWhiteSpace(s[i]))
    ensures Stripped(s[i..]) == if i == |s| then [] else [s[i]] + Stripped(s[i + 1..])
  {
    if i < |s| {
      assert s[i..][1..] == s[i + 1..];
    }
  }

  lemma SameStart(c: char, s: string, d: char, t: string)
    ensures [c] + s == [d] + t <==> c == d && s == t
  {
    assert ([c] + s)[0] == c && ([c] + s)[1..] == s;
    assert ([d] + t)[0] == d && ([d] + t)[1..] == t;
  }

  // ---------- Comparing lines ----------

  /** All lines; a text always has a last line, possibly empty. */
  function Lines(s: string): (lines: seq<string>)
    ensures lines != []
    decreases |s|
  {
    var k := LineLength(s, IsLineBreak);
    if k == |s| then [s] else [s[..k]] + Lines(s[k + BreakLength(s, IsLineBreak)..])
  }

  /** The lines joined by line feeds. */
  function Unlines(lines: seq<string>): string
    requires lines != []
  {
    if |lines| == 1 then lines[0] else lines[0] + ['\n'] + Unlines(lines[1..])
  }

  /** What ends the first line of a text that goes on with `rest`. */
  ghost predicate EndsLine(ending: string, rest: string) {
    || ending in {"\r\n", "\n", "\U{000C}", "\U{0085}", "\U{2028}", "\U{2029}"}
    || (ending == "\r" && (rest == "" || rest[0] != '\n'))
  }

  ghost predicate IsOneLine(line: string) {
    forall k :: 0 <= k < |line| ==> line[k] !in {'\n', '\r', '\U{000C}', '\U{0085}', '\U{2028}', '\U{2029}'}
  }

  lemma OneLineIsUnbroken(line: string)
    ensures IsOneLine(line) <==> Unbroken(line, IsLineBreak)
  {
  }

  lemma EndingsAreBreaks(ending: string, rest: string)
    requires EndsLine(ending, rest)
    ensures IsEnding(ending, rest, IsLineBreak)
  {
  }

  /** A text without breaks is one line; any other text is its first line, a break, and the lines of the rest. */
  lemma LinesOneMore(line: string, ending: string, rest: string)
    requires IsOneLine(line)
    ensures Lines(line) == [line]
    ensures EndsLine(ending, rest) ==> Lines(line + ending + rest) == [line] + Lines(rest)
  {
    hide LineLength, BreakLength, Unbroken, IsLineBreak, EndsLine, IsEnding, IsOneLine;
    OneLineIsUnbroken(line);
    LineLengthAt(line, [], IsLineBreak);
    assert line + [] == line;
    if EndsLine(ending, rest) {
      EndingsAreBreaks(ending, rest);
      FirstLine(line, ending, rest, IsLineBreak);
    }
  }

  /** Splitting inverts joining: unbroken lines joined by line feeds come apart into the same lines. */
  lemma {:induction false} LinesOfUnlines(lines: seq<string>)
    requires lines != [] && forall i :: 0 <= i < |lines| ==> IsOneLine(lines[i])
    ensures Lines(Unlines(lines)) == lines
  {
    hide Lines, IsOneLine;
    LinesOneMore(lines[0], "\n", if |lines| == 1 then [] else Unlines(lines[1..]));
    if |lines| > 1 {
      LinesOfUnlines(lines[1..]);
      assert [lines[0]] + lines[1..] == lines;
    }
  }

  /** Walks over the lines of a text. */
  class LineEnumerator {
    var remaining: Option<string>
    var current: string

    constructor (s: string)
      ensures Rest() == Lines(s) && current == ""
    {
      remaining, current := Some(s), "";
    }

    /** The lines not yet visited. */
    function Rest(): seq<string>
      reads this
    {
      if remaining.None? then [] else Lines(remaining.value)
    }

    method MoveNext() returns (moved: bool)
      modifies this
      ensures moved <==> old(Rest()) != []
      ensures moved ==> current == old(Rest())[0] && Rest() == old(Rest())[1..]
      ensures !moved ==> current == "" && Rest() == []
    {
      if remaining.None? {
        current := "";
        return false;
      }
      var s := remaining.value;
      var k := LineLength(s, IsLineBreak);
      if k == |s| {
        current, remaining := s, None;
      } else {
        current, remaining := s[..k], Some(s[k + BreakLength(s, IsLineBreak)..]);
      }
      return true;
    }
  }

  /** The common length of two line lists that agree as far as they go; otherwise the first difference. */
  function Agreement(a: seq<string>, b: seq<string>): (n: nat)
    ensures n <= |a| && n <= |b| && a[..n] == b[..n]
    ensures n < |a| && n < |b| ==> a[n] != b[n]
  {
    if a == [] || b == [] || a[0] != b[0] then 0 else 1 + Agreement(a[1..], b[1..])
  }

  /** Accepted on equal lines or one extra empty jury line at the end; otherwise the kind of the first difference. */
  function StrictVerdict(jury: seq<string>, user: seq<string>): CheckerResultStatus {
    if jury == user || jury == user + [""] then Accepted
    else
      var n := Agreement(jury, user);
      if n < |jury| && n < |user| then WrongAnswer else PresentationError
  }

  lemma StrictVerdictMeaning(jury: seq<string>, user: seq<string>)
    ensures StrictVerdict(jury, user) == Accepted <==> jury == user || jury == user + [""]
    ensures StrictVerdict(jury, user) == WrongAnswer
       <==> exists n :: 0 <= n < |jury| && n < |user| && jury[..n] == user[..n] && jury[n] != user[n]
    ensures StrictVerdict(jury, user) in {Accepted, WrongAnswer, PresentationError}
  {
    var k := Agreement(jury, user);
    if k < |jury| && k < |user| {
      assert jury[..k] == user[..k] && jury[k] != user[k] && (user + [""])[k] == user[k];
    }
    forall n | 0 <= n < |jury| && n < |user| && jury[..n] == user[..n] && jury[n] != user[n] ensures k == n {
      AgreementAt(jury, user, n);
    }
  }

  method StrictCheck(juryOutput: string, userOutput: string) returns (r: CheckerResultStatus)
    ensures r == StrictVerdict(Lines(juryOutput), Lines(userOutput))
    ensures var jury, user := Lines(juryOutput), Lines(userOutput);
      && (r == Accepted <==> jury == user || jury == user + [""])
      && (r == WrongAnswer <==> exists n :: 0 <= n < |jury| && n < |user| && jury[..n] == user[..n] && jury[n] != user[n])
      && r in {Accepted, WrongAnswer, PresentationError}
    ensures r == Accepted ==> Stripped(juryOutput) == Stripped(userOutput)
  {
    StrictVerdictMeaning(Lines(juryOutput), Lines(userOutput));
    hide StrictVerdict, Lines, Stripped, LineEnumerator.Rest;
    ghost var jury, user := Lines(juryOutput), Lines(userOutput);
    if StrictVerdict(jury, user) == Accepted {
      StrictAcceptanceIsLegacyAcceptance(juryOutput, userOutput);
    }
    var juryLines := new LineEnumerator(juryOutput);
    var userLines := new LineEnumerator(userOutput);
    ghost var n := 0;
    while true
      invariant 0 <= n <= |jury| && n <= |user|
      invariant juryLines.Rest() == jury[n..] && userLines.Rest() == user[n..]
      invariant jury[..n] == user[..n]
      decreases |jury| - n
    {
      VerdictAfter(jury, user, n);
      var hasJuryLine := juryLines.MoveNext();
      var hasUserLine := userLines.MoveNext();
      if hasJuryLine != hasUserLine {
        if hasJuryLine && juryLines.current == "" {
          var hasAnother := juryLines.MoveNext();
          if !hasAnother {
            return Accepted;
          }
        }
        return PresentationError;
      }
      if !hasJuryLine && !hasUserLine {
        return Accepted;
      }
      if juryLines.current != userLines.current {
        return WrongAnswer;
      }
      n := n + 1;
    }
  }

  /** Once the first `n` lines agree, what comes next may decide the verdict. */
  lemma VerdictAfter(jury: seq<string>, user: seq<string>, n: nat)
    requires n <= |jury| && n <= |user| && jury[..n] == user[..n]
    ensures n < |jury| && n < |user| && jury[n] != user[n] ==> StrictVerdict(jury, user) == WrongAnswer
    ensures n == |jury| == |user| ==> StrictVerdict(jury, user) == Accepted
    ensures n == |jury| < |user| ==> StrictVerdict(jury, user) == PresentationError
    ensures n == |user| < |jury| ==>
              StrictVerdict(jury, user) == if jury[n] == "" && |jury| == n + 1 then Accepted else PresentationError
  {
    AgreementAt(jury, user, n);
    if n < |jury| && n < |user| {
      assert jury == user + [""] ==> jury[n] == user[n];
    } else if n == |jury| == |user| {
      assert jury == jury[..n] && user == user[..n];
    } else if n == |user| < |jury| {
      assert user[..n] == user;
      if jury[n] == "" && |jury| == n + 1 {
        assert jury == jury[..n] + [jury[n]];
      }
    }
  }

  lemma {:induction false} AgreementAt(a: seq<string>, b: seq<string>, n: nat)
    requires n <= |a| && n <= |b| && a[..n] == b[..n]
    ensures Agreement(a, b) >= n
    ensures n < |a| && n < |b| && a[n] != b[n] ==> Agreement(a, b) == n
  {
    if n > 0 {
      assert a[0] == a[..n][0] == b[..n][0] == b[0];
      assert a[1..][..n - 1] == a[..n][1..] && b[1..][..n - 1] == b[..n][1..];
      AgreementAt(a[1..], b[1..], n - 1);
    }
  }

  /** The lines, joined, with what ended them deleted. */
  function Joined(lines: seq<string>): string {
    if lines == [] then [] else lines[0] + Joined(lines[1..])
  }

  lemma {:induction false} BlankIsInvisible(s: string)
    requires IsBlank(s)
    ensures Stripped(s) == []
  {
    if s != [] {
      BlankIsInvisible(s[1..]);
    }
  }

  lemma BreaksAreWhiteSpace(c: char)
    requires IsLineBreak(c) || c == '\n'
    ensures IsWhiteSpace(c)
  {
  }

  lemma BreakIsInvisible(s: string)
    requires LineLength(s, IsLineBreak) < |s|
    ensures Stripped(s[LineLength(s, IsLineBreak)..LineLength(s, IsLineBreak) + BreakLength(s, IsLineBreak)]) == []
  {
    hide LineLength, BreakLength, IsLineBreak, IsWhiteSpace, Stripped;
    var k, n := LineLength(s, IsLineBreak), BreakLength(s, IsLineBreak);
    BreakCharacters(s, IsLineBreak);
    var ending := s[k..k + n];
    forall i | 0 <= i < n ensures IsWhiteSpace(ending[i]) {
      BreaksAreWhiteSpace(s[k + i]);
    }
    BlankIsInvisible(ending);
  }

  lemma VisibleAround(line: string, ending: string, rest: string)
    requires Stripped(ending) == []
    ensures Stripped(line + ending + rest) == Stripped(line + rest) == Stripped(line) + Stripped(rest)
  {
    StrippedConcat(line + ending, rest);
    StrippedConcat(line, ending);
    StrippedConcat(line, rest);
  }

  /** What ends a line is whitespace, so the visible characters of a text are those of its lines. */
  lemma {:induction false} VisibleInLines(s: string)
    ensures Stripped(s) == Stripped(Joined(Lines(s)))
    decreases |s|
  {
    hide Stripped, IsLineBreak;
    var k := LineLength(s, IsLineBreak);
    if k == |s| {
      assert Joined([s]) == s + Joined([]) == s;
    } else {
      var n := BreakLength(s, IsLineBreak);
      assert s == s[..k] + s[k..k + n] + s[k + n..];
      BreakIsInvisible(s);
      VisibleAround(s[..k], s[k..k + n], s[k + n..]);
      VisibleInLines(s[k + n..]);
      assert ([s[..k]] + Lines(s[k + n..]))[1..] == Lines(s[k + n..]);
      StrippedConcat(s[..k], Joined(Lines(s[k + n..])));
    }
  }

  lemma {:induction false} JoinedWithEmpty(lines: seq<string>)
    ensures Joined(lines + [""]) == Joined(lines)
  {
    if lines == [] {
      assert lines + [""] == [""];
    } else {
      assert (lines + [""])[1..] == lines[1..] + [""];
      JoinedWithEmpty(lines[1..]);
    }
  }

  /** Whatever the strict comparison accepts, the comparison without whitespace accepts as well. */
  lemma StrictAcceptanceIsLegacyAcceptance(juryOutput: string, userOutput: string)
    requires StrictVerdict(Lines(juryOutput), Lines(userOutput)) == Accepted
    ensures Stripped(juryOutput) == Stripped(userOutput)
  {
    hide Stripped, Lines, Joined;
    VisibleInLines(juryOutput);
    VisibleInLines(userOutput);
    JoinedWithEmpty(Lines(userOutput));
  }
}
