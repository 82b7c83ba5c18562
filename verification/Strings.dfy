/** Whitespace, splitting and joining, and where lines end. */
module Strings {

  predicate IsWhiteSpace(c: char) {
    || '\U{0009}' <= c <= '\U{000D}' || c == ' ' || c == '\U{0085}' || c == '\U{00A0}' || c == '\U{1680}'
    || '\U{2000}' <= c <= '\U{200A}' || c == '\U{2028}' || c == '\U{2029}' || c == '\U{202F}' || c == '\U{205F}'
    || c == '\U{3000}'
  }

  predicate IsBlank(s: string) {
    forall i :: 0 <= i < |s| ==> IsWhiteSpace(s[i])
  }

  /** Without the occurrences of `c` at the end. */
  function TrimEnd(s: string, c: char): string {
    if s != [] && s[|s| - 1] == c then TrimEnd(s[..|s| - 1], c) else s
  }

  lemma {:induction false} TrimEndOf(s: string, end: string, c: char)
    requires (s != [] ==> s[|s| - 1] != c) && forall i :: 0 <= i < |end| ==> end[i] == c
    ensures TrimEnd(s + end, c) == s
  {
    if end == [] {
      assert s + end == s;
    } else {
      assert (s + end)[..|s + end| - 1] == s + end[..|end| - 1];
      TrimEndOf(s, end[..|end| - 1], c);
    }
  }

  lemma {:induction false} TrimmedEnd(s: string, c: char) returns (end: string)
    ensures s == TrimEnd(s, c) + end && forall i :: 0 <= i < |end| ==> end[i] == c
    ensures TrimEnd(s, c) != [] ==> TrimEnd(s, c)[|TrimEnd(s, c)| - 1] != c
  {
    if s != [] && s[|s| - 1] == c {
      var front := s[..|s| - 1];
      end := TrimmedEnd(front, c);
      assert s == front + [c];
      end := end + [c];
    } else {
      end := [];
    }
  }

  lemma BlankConcat(s: string, t: string)
    ensures IsBlank(s + t) <==> IsBlank(s) && IsBlank(t)
  {
    hide IsWhiteSpace;
    assert forall i :: 0 <= i < |s| ==> (s + t)[i] == s[i];
    assert forall i :: 0 <= i < |t| ==> (s + t)[|s| + i] == t[i];
  }

  // ---------- Splitting at a separator ----------

  /** The parts between separators; always at least one. */
  function Split(s: string, separator: char): (parts: seq<string>)
    ensures parts != []
  {
    if s == [] then [[]] else Extended(Split(s[..|s| - 1], separator), s[|s| - 1], separator)
  }

  /** The parts after one more character. */
  function Extended(parts: seq<string>, c: char, separator: char): (r: seq<string>)
    requires parts != []
    ensures r != []
  {
    if c == separator then parts + [[]] else parts[..|parts| - 1] + [parts[|parts| - 1] + [c]]
  }

  function Join(parts: seq<string>, separator: char): string
    requires parts != []
  {
    if |parts| == 1 then parts[0] else Join(parts[..|parts| - 1], separator) + [separator] + parts[|parts| - 1]
  }

  lemma SplitOneMore(s: string, c: char, separator: char)
    ensures Split(s + [c], separator) == Extended(Split(s, separator), c, separator)
  {
    assert (s + [c])[..|s|] == s;
  }

  lemma SplitNothing(separator: char)
    ensures Split([], separator) == [[]]
  {
  }

  lemma ExtendedLength(parts: seq<string>, c: char, separator: char)
    requires parts != []
    ensures |Extended(parts, c, separator)| == |parts| + (if c == separator then 1 else 0)
    ensures c != separator && |parts| == 1 ==> Extended(parts, c, separator) == [parts[0] + [c]]
  {
  }

  lemma {:induction false} SplitUnbroken(s: string, separator: char)
    requires separator !in s
    ensures Split(s, separator) == [s]
  {
    hide *;
    if s == [] {
      SplitNothing(separator);
    } else {
      var front, last := s[..|s| - 1], s[|s| - 1];
      assert s == front + [last] && last in s;
      SplitUnbroken(front, separator);
      SplitOneMore(front, last, separator);
      ExtendedLength([front], last, separator);
    }
  }

  lemma {:induction false} SplitLength(s: string, separator: char)
    ensures |Split(s, separator)| == 1 <==> separator !in s
  {
    hide *;
    if s == [] {
      SplitNothing(separator);
    } else {
      var front, last := s[..|s| - 1], s[|s| - 1];
      assert s == front + [last];
      SplitLength(front, separator);
      SplitOneMore(front, last, separator);
      ExtendedLength(Split(front, separator), last, separator);
    }
  }

  lemma ExtendedBehind(before: seq<string>, parts: seq<string>, c: char, separator: char)
    requires parts != []
    ensures Extended(before + parts, c, separator) == before + Extended(parts, c, separator)
  {
    assert (before + parts)[..|before| + |parts| - 1] == before + parts[..|parts| - 1];
  }

  /** A separator separates what stands before it from what stands behind it. */
  lemma {:induction false} SplitAtSeparator(s: string, t: string, separator: char)
    ensures Split(s + [separator] + t, separator) == Split(s, separator) + Split(t, separator)
  {
    if t == [] {
      assert s + [separator] + t == s + [separator];
      SplitOneMore(s, separator, separator);
    } else {
      hide Split, Extended;
      var front, last := t[..|t| - 1], t[|t| - 1];
      assert s + [separator] + t == s + [separator] + front + [last] && t == front + [last];
      SplitAtSeparator(s, front, separator);
      SplitOneMore(s + [separator] + front, last, separator);
      SplitOneMore(front, last, separator);
      ExtendedBehind(Split(s, separator), Split(front, separator), last, separator);
    }
  }

  /** Splitting inverts joining for parts without the separator. */
  lemma {:induction false} SplitOfJoin(parts: seq<string>, separator: char)
    requires parts != [] && forall i :: 0 <= i < |parts| ==> separator !in parts[i]
    ensures Split(Join(parts, separator), separator) == parts
  {
    hide Split;
    var front, last := parts[..|parts| - 1], parts[|parts| - 1];
    SplitUnbroken(last, separator);
    if |parts| > 1 {
      SplitOfJoin(front, separator);
      SplitAtSeparator(Join(front, separator), last, separator);
      assert parts == front + [last];
    } else {
      assert parts == [last];
    }
  }

  // ---------- Lines ----------

  /** The length of the first line, without what ends it. */
  function LineLength(s: string, isBreak: char -> bool): (n: nat)
    ensures n <= |s|
    ensures forall k :: 0 <= k < n ==> !isBreak(s[k])
    ensures n < |s| ==> isBreak(s[n])
  {
    if s == [] || isBreak(s[0]) then 0 else 1 + LineLength(s[1..], isBreak)
  }

  /** How many characters end the first line; a carriage return and a line feed in a row end it together. */
  function BreakLength(s: string, isBreak: char -> bool): (n: nat)
    requires LineLength(s, isBreak) < |s|
    ensures 1 <= n <= 2 && LineLength(s, isBreak) + n <= |s|
  {
    var k := LineLength(s, isBreak);
    if s[k] == '\r' && k + 1 < |s| && s[k + 1] == '\n' then 2 else 1
  }

  lemma BreakCharacters(s: string, isBreak: char -> bool)
    requires LineLength(s, isBreak) < |s|
    ensures var k := LineLength(s, isBreak);
      forall i :: k <= i < k + BreakLength(s, isBreak) ==> isBreak(s[i]) || s[i] == '\n'
  {
  }

  /** `ending` ends a line that `rest` follows: a break alone, or carriage return and line feed together. */
  ghost predicate IsEnding(ending: string, rest: string, isBreak: char -> bool) {
    || (ending == ['\r', '\n'] && isBreak('\r'))
    || (|ending| == 1 && isBreak(ending[0]) && !(ending == ['\r'] && rest != [] && rest[0] == '\n'))
  }

  /** The first line of a text, and what is left behind its ending. */
  lemma FirstLine(line: string, ending: string, rest: string, isBreak: char -> bool)
    requires Unbroken(line, isBreak) && IsEnding(ending, rest, isBreak)
    ensures var s := line + ending + rest;
      && LineLength(s, isBreak) == |line| < |s| && BreakLength(s, isBreak) == |ending|
      && s[..|line|] == line && s[|line| + |ending|..] == rest
  {
    hide LineLength, Unbroken;
    var s, tail := line + ending + rest, ending + rest;
    assert s == line + tail && tail[0] == ending[0];
    LineLengthAt(line, tail, isBreak);
    assert s[|line|] == ending[0];
    assert |line| + 1 < |s| ==> s[|line| + 1] == tail[1];
  }

  ghost predicate Unbroken(line: string, isBreak: char -> bool) {
    forall k :: 0 <= k < |line| ==> !isBreak(line[k])
  }

  lemma {:induction false} LineLengthAt(line: string, rest: string, isBreak: char -> bool)
    requires Unbroken(line, isBreak) && (rest == [] || isBreak(rest[0]))
    ensures LineLength(line + rest, isBreak) == |line|
  {
    if line == [] {
      assert line + rest == rest;
    } else {
      assert (line + rest)[1..] == line[1..] + rest;
      LineLengthAt(line[1..], rest, isBreak);
    }
  }
}
