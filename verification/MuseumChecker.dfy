/**
 The checker of museum schedules. A schedule has one row per period and one column per group; an entry is the
 museum the group visits in that period, or zero. Rows are lines of integers; only blank lines may follow them.
 */
module MuseumChecker {
  import opened Options
  import opened StatusCodes
  import opened Arithmetic
  import opened Strings
  import opened Decimal

  function Nonzero(s: seq<int>): (r: seq<int>)
    ensures |r| <= |s|
    ensures forall v :: v in r <==> v in s && v > 0
  {
    if s == [] then [] else (if s[0] > 0 then [s[0]] else []) + Nonzero(s[1..])
  }

  function DistinctValues(s: seq<int>): set<int> {
    set v | v in s
  }

  ghost predicate NoRepeats(s: seq<int>) {
    forall i, j :: 0 <= i < j < |s| ==> s[i] != s[j]
  }

  predicate WellFormedRow(row: seq<int>, n: int, m: int) {
    |row| == n && forall k :: 0 <= k < |row| ==> 0 <= row[k] <= m
  }

  function Column(data: seq<seq<int>>, k: nat): (column: seq<int>)
    requires forall i :: 0 <= i < |data| ==> k < |data[i]|
    ensures |column| == |data| && forall i :: 0 <= i < |data| ==> column[i] == data[i][k]
  {
    seq(|data|, i requires 0 <= i < |data| => data[i][k])
  }

  // ---------- What a schedule is ----------

  /** Value `v` occurs in the row or column at exactly one place. */
  ghost predicate ExactlyOnce(s: seq<int>, v: int) {
    exists i :: 0 <= i < |s| && s[i] == v && forall j :: 0 <= j < |s| && s[j] == v ==> j == i
  }

  ghost predicate WellFormed(n: int, m: int, data: seq<seq<int>>) {
    && n >= 1
    && |data| == Max(n, m)
    && forall i :: 0 <= i < |data| ==> WellFormedRow(data[i], n, m)
  }

  /** No row repeats a museum, and every group visits every museum exactly once. */
  ghost predicate IsSchedule(n: int, m: int, data: seq<seq<int>>) {
    && WellFormed(n, m, data)
    && (forall i, j, k :: 0 <= i < |data| && 0 <= j < k < n && data[i][j] > 0 ==> data[i][j] != data[i][k])
    && (forall k, v :: 0 <= k < n && 1 <= v <= m ==> ExactlyOnce(Column(data, k), v))
  }

  // ---------- Reading integers ----------

  /** The integers between single spaces; None when some part is not an integer of 32 bits. */
  function ParseNumbers(s: string): Option<seq<int>> {
    ParseAll(Split(s, ' '))
  }

  function ParseAll(parts: seq<string>): (r: Option<seq<int>>)
    ensures r.Some? <==> forall i :: 0 <= i < |parts| ==> TryParse(parts[i]).Some?
    ensures r.Some? ==> |r.value| == |parts| && forall i :: 0 <= i < |parts| ==> TryParse(parts[i]) == Some(r.value[i])
  {
    if exists i :: 0 <= i < |parts| && TryParse(parts[i]).None? then None
    else Some(seq(|parts|, i requires 0 <= i < |parts| && TryParse(parts[i]).Some? => TryParse(parts[i]).value))
  }

  /** The numbers of a line; spaces at its end do not matter. */
  function ParseRow(line: string): Option<seq<int>> {
    ParseNumbers(TrimEnd(line, ' '))
  }

  /** The numbers of groups and of museums, when the jury's input starts with two integers and holds nothing but integers. */
  function ParseSize(juryInput: string): Option<(int, int)> {
    var numbers := ParseNumbers(juryInput);
    if numbers.None? || |numbers.value| < 2 then None else Some((numbers.value[0], numbers.value[1]))
  }

  predicate IsNewLine(c: char) {
    c == '\r' || c == '\n'
  }

  /** The lines that a reader returns: none after a final line end. */
  function ReadLines(s: string): seq<string>
    decreases |s|
  {
    if s == [] then []
    else
      var k := LineLength(s, IsNewLine);
      if k == |s| then [s] else [s[..k]] + ReadLines(s[k + BreakLength(s, IsNewLine)..])
  }

  class StringReader {
    var remaining: string

    constructor (s: string)
      ensures remaining == s
    {
      remaining := s;
    }

    method ReadLine() returns (line: Option<string>)
      modifies this
      ensures line.None? ==> ReadLines(old(remaining)) == [] && remaining == old(remaining)
      ensures line.Some? ==> ReadLines(old(remaining)) == [line.value] + ReadLines(remaining)
      ensures line.Some? ==> |remaining| < |old(remaining)|
    {
      if remaining == [] {
        return None;
      }
      var s := remaining;
      var k := LineLength(s, IsNewLine);
      if k == |s| {
        remaining := [];
        return Some(s);
      }
      remaining := s[k + BreakLength(s, IsNewLine)..];
      return Some(s[..k]);
    }

    method ReadToEnd() returns (s: string)
      modifies this
      ensures s == old(remaining) && remaining == []
    {
      s := remaining;
      remaining := [];
    }
  }

  // ---------- Reading the rows ----------

  /** The first lines give the rows, and only blank lines follow them. */
  ghost predicate Layout(lines: seq<string>, data: seq<seq<int>>) {
    && |data| <= |lines|
    && (forall i :: 0 <= i < |data| ==> !IsBlank(lines[i]) && ParseRow(lines[i]) == Some(data[i]))
    && (forall i :: |data| <= i < |lines| ==> IsBlank(lines[i]))
  }

  ghost predicate AllBlank(lines: seq<string>) {
    forall i :: 0 <= i < |lines| ==> IsBlank(lines[i])
  }

  /** The line holds `n` integers from 0 to `m`. */
  ghost predicate IsRow(line: string, n: int, m: int) {
    && !IsBlank(line) && ParseRow(line).Some? && |ParseRow(line).value| == n
    && forall k :: 0 <= k < |ParseRow(line).value| ==> 0 <= ParseRow(line).value[k] <= m
  }

  /**
   What is wrong with the line after `before` rows. Text after a blank line, a part that is no integer and a wrong
   number of integers are errors of presentation; an integer out of range is a wrong answer.
   */
  ghost predicate FaultAfter(lines: seq<string>, before: nat, n: int, m: int, verdict: CheckerResultStatus) {
    && before < |lines|
    && (forall i :: 0 <= i < before ==> IsRow(lines[i], n, m))
    && if IsBlank(lines[before]) then
         verdict == PresentationError && !AllBlank(lines[before..])
       else if ParseRow(lines[before]).None? || |ParseRow(lines[before]).value| != n then
         verdict == PresentationError
       else
         && verdict == WrongAnswer
         && exists k :: 0 <= k < n && (ParseRow(lines[before]).value[k] < 0 || ParseRow(lines[before]).value[k] > m)
  }

  /** The rows read, or the verdict on the first fault. */
  ghost predicate IsReading(lines: seq<string>, n: int, m: int, r: Result<seq<seq<int>>, CheckerResultStatus>) {
    match r
    case Success(data) => Layout(lines, data) && forall i :: 0 <= i < |data| ==> WellFormedRow(data[i], n, m)
    case Failure(verdict) => exists before: nat :: FaultAfter(lines, before, n, m, verdict)
  }

  /** Collects the rows as long as they are in order. */
  method ReadRows(n: int, m: int, userOutput: string) returns (r: Result<seq<seq<int>>, CheckerResultStatus>)
    ensures IsReading(ReadLines(userOutput), n, m, r)
  {
    hide ReadLines, ParseRow, IsBlank;
    ghost var lines := ReadLines(userOutput);
    var data: seq<seq<int>> := [];
    var reader := new StringReader(userOutput);
    while true
      invariant fresh(reader)
      invariant |data| <= |lines| && ReadLines(reader.remaining) == lines[|data|..]
      invariant forall i :: 0 <= i < |data| ==>
                  ParseRow(lines[i]) == Some(data[i]) && IsRow(lines[i], n, m)
      decreases |reader.remaining|
    {
      var line := reader.ReadLine();
      if line.None? {
        break;
      }
      NextLine(lines, |data|, line.value, ReadLines(reader.remaining));
      if IsBlank(line.value) {
        var rest := reader.ReadToEnd();
        BlankLines(rest);
        if !IsBlank(rest) {
          LaterText(lines, |data|);
          assert FaultAfter(lines, |data|, n, m, PresentationError);
          return Failure(PresentationError);
        }
        LaterText(lines, |data|);
        break;
      }
      var arr := ParseRow(line.value);
      if arr.None? || |arr.value| != n {
        assert FaultAfter(lines, |data|, n, m, PresentationError);
        return Failure(PresentationError);
      }
      if exists k :: 0 <= k < |arr.value| && (arr.value[k] < 0 || arr.value[k] > m) {
        assert FaultAfter(lines, |data|, n, m, WrongAnswer);
        return Failure(WrongAnswer);
      }
      data := data + [arr.value];
    }
    return Success(data);
  }

  lemma NextLine(lines: seq<string>, k: nat, line: string, rest: seq<string>)
    requires k <= |lines| && lines[k..] == [line] + rest
    ensures k < |lines| && lines[k] == line && lines[k + 1..] == rest
  {
    assert lines[k..][0] == line && lines[k..][1..] == lines[k + 1..];
  }

  lemma LaterText(lines: seq<string>, k: nat)
    requires k < |lines| && IsBlank(lines[k])
    ensures AllBlank(lines[k..]) <==> AllBlank(lines[k + 1..])
    ensures AllBlank(lines[k..]) <==> forall i :: k <= i < |lines| ==> IsBlank(lines[i])
  {
    hide IsBlank;
    assert forall i :: k <= i < |lines| ==> lines[k..][i - k] == lines[i];
    assert forall i :: k + 1 <= i < |lines| ==> lines[k + 1..][i - k - 1] == lines[i];
  }

  /** What ends a line is whitespace, so a text is blank exactly when all its lines are. */
  lemma {:induction false} BlankLines(s: string)
    ensures IsBlank(s) <==> AllBlank(ReadLines(s))
    decreases |s|
  {
    hide IsWhiteSpace;
    if s != [] {
      var k := LineLength(s, IsNewLine);
      if k == |s| {
        assert ReadLines(s) == [s] + [];
        FirstAndRest(s, []);
      } else {
        var rest := s[k + BreakLength(s, IsNewLine)..];
        BlankLines(rest);
        BlankParts(s);
        FirstAndRest(s[..k], ReadLines(rest));
      }
    }
  }

  lemma FirstAndRest(line: string, rest: seq<string>)
    ensures AllBlank([line] + rest) <==> IsBlank(line) && AllBlank(rest)
  {
    hide IsBlank;
    var lines := [line] + rest;
    assert lines[0] == line && forall i :: 0 <= i < |rest| ==> lines[i + 1] == rest[i];
  }

  lemma NewLineIsWhiteSpace(c: char)
    requires IsNewLine(c) || c == '\n'
    ensures IsWhiteSpace(c)
  {
  }

  lemma BlankParts(s: string)
    requires LineLength(s, IsNewLine) < |s|
    ensures var k, n := LineLength(s, IsNewLine), BreakLength(s, IsNewLine);
      IsBlank(s) <==> IsBlank(s[..k]) && IsBlank(s[k + n..])
  {
    hide IsBlank, LineLength, BreakLength, IsNewLine;
    var k, n := LineLength(s, IsNewLine), BreakLength(s, IsNewLine);
    var line, ending, rest := s[..k], s[k..k + n], s[k + n..];
    ThreeParts(s, k, k + n);
    EndingIsBlank(s);
    BlankConcat(line + ending, rest);
    BlankConcat(line, ending);
  }

  lemma ThreeParts(s: string, i: nat, j: nat)
    requires i <= j <= |s|
    ensures s == s[..i] + s[i..j] + s[j..]
  {
  }

  lemma EndingIsBlank(s: string)
    requires LineLength(s, IsNewLine) < |s|
    ensures var k, n := LineLength(s, IsNewLine), BreakLength(s, IsNewLine); IsBlank(s[k..k + n])
  {
    hide IsWhiteSpace, LineLength, BreakLength, IsNewLine;
    var k, n := LineLength(s, IsNewLine), BreakLength(s, IsNewLine);
    var ending := s[k..k + n];
    BreakCharacters(s, IsNewLine);
    forall i | 0 <= i < n ensures IsWhiteSpace(ending[i]) {
      NewLineIsWhiteSpace(s[k + i]);
    }
  }

  // ---------- The checker ----------

  /** The output is a schedule for the numbers of groups and museums that the jury's input gives. */
  ghost predicate Accepts(juryInput: string, userOutput: string) {
    var size := ParseSize(juryInput);
    size.Some? && exists data :: Layout(ReadLines(userOutput), data) && IsSchedule(size.value.0, size.value.1, data)
  }

  /** The jury's input is malformed, or the output has no row, or its first fault is one of presentation. */
  ghost predicate BadPresentation(juryInput: string, userOutput: string) {
    var size, lines := ParseSize(juryInput), ReadLines(userOutput);
    || size.None?
    || Layout(lines, [])
    || exists before: nat :: FaultAfter(lines, before, size.value.0, size.value.1, PresentationError)
  }

  method Check(juryInput: string, userOutput: string) returns (r: CheckerResultStatus)
    ensures r == Accepted <==> Accepts(juryInput, userOutput)
    ensures r == PresentationError <==> BadPresentation(juryInput, userOutput)
    ensures r in {Accepted, PresentationError, WrongAnswer}
  {
    hide IsSchedule, ReadLines, Layout, FaultAfter, ParseSize;
    var size := ParseSize(juryInput);
    if size.None? {
      return PresentationError;
    }
    var n, m := size.value.0, size.value.1;
    ghost var lines := ReadLines(userOutput);
    var rows := ReadRows(n, m, userOutput);
    if rows.Failure? {
      FaultDecides(lines, n, m, rows.error);
      return rows.error;
    }
    ReadingDecides(lines, n, m, rows.value);
    RowsHaveNumbers(lines, rows.value);
    r := CheckRows(n, m, rows.value);
  }

  lemma NotLonger(lines: seq<string>, data: seq<seq<int>>, other: seq<seq<int>>)
    requires Layout(lines, data) && Layout(lines, other)
    ensures |other| <= |data|
  {
    hide ParseRow, IsBlank;
    assert |data| < |lines| ==> IsBlank(lines[|data|]);
  }

  lemma RowsHaveNumbers(lines: seq<string>, data: seq<seq<int>>)
    requires Layout(lines, data)
    ensures forall i :: 0 <= i < |data| ==> |data[i]| >= 1
  {
    hide IsBlank, Split, TrimEnd;
  }

  /** One layout at most fits the lines, and a layout of well-formed rows has no fault. */
  lemma ReadingDecides(lines: seq<string>, n: int, m: int, data: seq<seq<int>>)
    requires Layout(lines, data) && forall i :: 0 <= i < |data| ==> WellFormedRow(data[i], n, m)
    ensures forall other :: Layout(lines, other) <==> other == data
    ensures forall before: nat, verdict :: !FaultAfter(lines, before, n, m, verdict)
  {
    hide ParseRow, IsBlank;
    forall other | Layout(lines, other) ensures other == data {
      NotLonger(lines, data, other);
      NotLonger(lines, other, data);
    }
    forall before: nat, verdict ensures !FaultAfter(lines, before, n, m, verdict) {
      if before < |data| {
        assert WellFormedRow(data[before], n, m);
      } else if before < |lines| {
        assert forall i :: 0 <= i < |lines[before..]| ==> lines[before..][i] == lines[before + i];
      }
    }
  }

  /** Lines with a fault are no schedule, and their first fault is the only one. */
  lemma FaultDecides(lines: seq<string>, n: int, m: int, verdict: CheckerResultStatus)
    requires exists before: nat :: FaultAfter(lines, before, n, m, verdict)
    ensures forall data :: Layout(lines, data) ==> !IsSchedule(n, m, data) && data != []
    ensures verdict == PresentationError || verdict == WrongAnswer
    ensures (exists before: nat :: FaultAfter(lines, before, n, m, PresentationError)) ==> verdict == PresentationError
  {
    hide ParseRow, IsBlank, IsSchedule;
    var before: nat :| FaultAfter(lines, before, n, m, verdict);
    forall data | Layout(lines, data) ensures !IsSchedule(n, m, data) && data != [] {
      if before < |data| {
        BadRow(n, m, data, before);
      } else {
        LaterText(lines, before);
      }
    }
    if other: nat :| FaultAfter(lines, other, n, m, PresentationError) {
      assert before <= other <= before;
    }
  }

  /** The checks on rows that are all in order by themselves. */
  method CheckRows(n: int, m: int, data: seq<seq<int>>) returns (r: CheckerResultStatus)
    requires forall i :: 0 <= i < |data| ==> |data[i]| >= 1 && WellFormedRow(data[i], n, m)
    ensures r == Accepted <==> IsSchedule(n, m, data)
    ensures r == PresentationError <==> data == []
    ensures r in {Accepted, PresentationError, WrongAnswer}
  {
    hide IsSchedule, Nonzero, NoRepeats, DistinctValues, ExactlyOnce, Column;
    if |data| == 0 {
      WrongSizeIsNoSchedule(n, m, data);
      return PresentationError;
    }
    assert WellFormedRow(data[0], n, m);
    if |data| != Max(n, m) {
      WrongSizeIsNoSchedule(n, m, data);
      return WrongAnswer;
    }

    for i := 0 to |data|
      invariant forall k :: 0 <= k < i ==> NoRepeats(Nonzero(data[k]))
    {
      var nonzero := Nonzero(data[i]);
      DistinctCount(nonzero);
      if |nonzero| != |DistinctValues(nonzero)| {
        RepeatedRow(n, m, data, i);
        return WrongAnswer;
      }
    }

    for i := 0 to n
      invariant forall k :: 0 <= k < i ==> CompleteGroup(data, k, m)
    {
      var nonzero := Nonzero(Column(data, i));
      var count := |nonzero|;
      GroupIsComplete(data, i, n, m);
      if count != |DistinctValues(nonzero)| || count != m {
        IncompleteGroup(n, m, data, i);
        return WrongAnswer;
      }
    }
    CompleteSchedule(n, m, data);
    return Accepted;
  }

  // Each way to leave the checker, against the definition of a schedule.

  /** The group visits every museum exactly once. */
  ghost predicate CompleteGroup(data: seq<seq<int>>, k: nat, m: int)
    requires forall i :: 0 <= i < |data| ==> k < |data[i]|
  {
    forall v :: 1 <= v <= m ==> ExactlyOnce(Column(data, k), v)
  }

  lemma GroupIsComplete(data: seq<seq<int>>, k: nat, n: int, m: int)
    requires k < n && m >= 0
    requires forall i :: 0 <= i < |data| ==> |data[i]| == n && WellFormedRow(data[i], n, m)
    ensures CompleteGroup(data, k, m)
       <==> |Nonzero(Column(data, k))| == |DistinctValues(Nonzero(Column(data, k)))| && |Nonzero(Column(data, k))| == m
  {
    CompleteColumn(Column(data, k), m);
  }

  lemma BadRow(n: int, m: int, data: seq<seq<int>>, i: nat)
    requires i < |data| && !WellFormedRow(data[i], n, m)
    ensures !IsSchedule(n, m, data)
  {
  }

  lemma WrongSizeIsNoSchedule(n: int, m: int, data: seq<seq<int>>)
    requires |data| == 0 || |data| != Max(n, m)
    ensures !IsSchedule(n, m, data)
  {
  }

  lemma RepeatedRow(n: int, m: int, data: seq<seq<int>>, i: nat)
    requires i < |data| && !NoRepeats(Nonzero(data[i]))
    ensures !IsSchedule(n, m, data)
  {
    hide Nonzero, NoRepeats;
    NonzeroKeepsRepeats(data[i]);
    if WellFormed(n, m, data) {
      assert WellFormedRow(data[i], n, m);
    }
  }

  lemma IncompleteGroup(n: int, m: int, data: seq<seq<int>>, k: nat)
    requires k < n && WellFormed(n, m, data) && !CompleteGroup(data, k, m)
    ensures !IsSchedule(n, m, data)
  {
  }

  lemma CompleteSchedule(n: int, m: int, data: seq<seq<int>>)
    requires WellFormed(n, m, data)
    requires forall i :: 0 <= i < |data| ==> NoRepeats(Nonzero(data[i]))
    requires forall k :: 0 <= k < n ==> CompleteGroup(data, k, m)
    ensures IsSchedule(n, m, data)
  {
    hide Nonzero, NoRepeats, ExactlyOnce, Column;
    forall i, j, k | 0 <= i < |data| && 0 <= j < k < n && data[i][j] > 0 ensures data[i][j] != data[i][k] {
      assert WellFormedRow(data[i], n, m);
      NonzeroKeepsRepeats(data[i]);
    }
    forall k, v | 0 <= k < n && 1 <= v <= m ensures ExactlyOnce(Column(data, k), v) {
      assert CompleteGroup(data, k, m);
    }
  }

  // ---------- Counting ----------

  /** There are as many distinct values as values exactly when none repeats. */
  lemma {:induction false} DistinctCount(s: seq<int>)
    ensures |DistinctValues(s)| <= |s|
    ensures |DistinctValues(s)| == |s| <==> NoRepeats(s)
  {
    if s == [] {
      assert DistinctValues(s) == {};
    } else {
      var last, front := s[|s| - 1], s[..|s| - 1];
      DistinctCount(front);
      assert DistinctValues(s) == DistinctValues(front) + {last};
      RepeatsAtTheEnd(front, last);
      assert s == front + [last];
    }
  }

  lemma RepeatsAtTheEnd(s: seq<int>, last: int)
    ensures NoRepeats(s + [last]) <==> NoRepeats(s) && last !in s
  {
    var t := s + [last];
    assert forall i :: 0 <= i < |s| ==> t[i] == s[i];
    assert t[|s|] == last;
    if NoRepeats(t) {
      assert forall i :: 0 <= i < |s| ==> t[i] != t[|s|];
    }
  }

  function UpTo(m: nat): (values: set<int>)
    ensures forall v :: v in values <==> 1 <= v <= m
    ensures |values| == m
  {
    if m == 0 then {} else UpTo(m - 1) + {m}
  }

  lemma {:induction false} SubsetOfEqualSize(a: set<int>, b: set<int>)
    requires a <= b && |a| == |b|
    ensures a == b
  {
    if a != {} {
      assert (forall x :: x !in a) ==> a == {};
      var x :| x in a;
      SubsetOfEqualSize(a - {x}, b - {x});
    }
  }

  /** Pigeonhole: as many distinct values as the range has are all the values of the range. */
  lemma Pigeonhole(s: seq<int>, m: nat)
    requires NoRepeats(s) && |s| == m
    requires forall v :: v in s ==> 1 <= v <= m
    ensures forall v :: 1 <= v <= m ==> v in s
  {
    DistinctCount(s);
    SubsetOfEqualSize(DistinctValues(s), UpTo(m));
    forall v | 1 <= v <= m ensures v in s {
      assert v in UpTo(m);
    }
  }

  /** A value occurs as often among the nonzero entries as among all entries. */
  lemma {:induction false} NonzeroKeepsRepeats(s: seq<int>)
    ensures NoRepeats(Nonzero(s)) <==> forall i, j :: 0 <= i < j < |s| && s[i] > 0 ==> s[i] != s[j]
  {
    if s != [] {
      NonzeroKeepsRepeats(s[1..]);
      var r, rest := Nonzero(s), Nonzero(s[1..]);
      if s[0] > 0 {
        assert r == [s[0]] + rest;
        assert NoRepeats(r) <==> NoRepeats(rest) && s[0] !in rest by {
          if NoRepeats(r) {
            forall i, j | 0 <= i < j < |rest| ensures rest[i] != rest[j] {
              assert r[i + 1] != r[j + 1];
            }
            forall j | 0 <= j < |rest| ensures rest[j] != s[0] {
              assert r[0] != r[j + 1];
            }
          }
        }
      } else {
        assert r == rest;
      }
      assert forall j :: 0 < j < |s| ==> s[j] == s[1..][j - 1];
      if forall i, j :: 0 <= i < j < |s| && s[i] > 0 ==> s[i] != s[j] {
        forall i, j | 0 <= i < j < |s[1..]| && s[1..][i] > 0 ensures s[1..][i] != s[1..][j] {
          assert s[i + 1] != s[j + 1];
        }
      }
    }
  }

  lemma CountedColumn(s: seq<int>, m: nat)
    requires forall i :: 0 <= i < |s| ==> 0 <= s[i] <= m
    requires NoRepeats(Nonzero(s)) && |Nonzero(s)| == m
    ensures forall v :: 1 <= v <= m ==> ExactlyOnce(s, v)
  {
    var nonzero := Nonzero(s);
    NonzeroKeepsRepeats(s);
    hide NoRepeats;
    Pigeonhole(nonzero, m);
    forall v | 1 <= v <= m ensures ExactlyOnce(s, v) {
      assert v in nonzero && v in s;
      var i :| 0 <= i < |s| && s[i] == v;
    }
  }

  lemma ColumnCounts(s: seq<int>, m: nat)
    requires forall i :: 0 <= i < |s| ==> 0 <= s[i] <= m
    requires forall v :: 1 <= v <= m ==> ExactlyOnce(s, v)
    ensures NoRepeats(Nonzero(s)) && DistinctValues(Nonzero(s)) == UpTo(m)
  {
    var nonzero := Nonzero(s);
    NonzeroKeepsRepeats(s);
    hide NoRepeats, Nonzero, UpTo;
    forall i, j | 0 <= i < j < |s| && s[i] > 0 ensures s[i] != s[j] {
      assert ExactlyOnce(s, s[i]);
    }
    forall v ensures v in DistinctValues(nonzero) <==> v in UpTo(m) {
      if v in UpTo(m) {
        assert ExactlyOnce(s, v);
      }
    }
  }

  /** The counts that the checker compares say that a column contains each museum exactly once. */
  lemma CompleteColumn(s: seq<int>, m: int)
    requires m >= 0 && forall i :: 0 <= i < |s| ==> 0 <= s[i] <= m
    ensures |Nonzero(s)| == |DistinctValues(Nonzero(s))| && |Nonzero(s)| == m
       <==> forall v :: 1 <= v <= m ==> ExactlyOnce(s, v)
  {
    hide Nonzero, NoRepeats, ExactlyOnce, DistinctValues;
    DistinctCount(Nonzero(s));
    if NoRepeats(Nonzero(s)) && |Nonzero(s)| == m {
      CountedColumn(s, m);
    }
    if forall v :: 1 <= v <= m ==> ExactlyOnce(s, v) {
      ColumnCounts(s, m);
    }
  }

  // ---------- Printed schedules ----------

  function PrintAll(row: seq<int>): (parts: seq<string>)
    ensures |parts| == |row| && forall i :: 0 <= i < |row| ==> parts[i] == Print(row[i])
  {
    seq(|row|, i requires 0 <= i < |row| => Print(row[i]))
  }

  function PrintRow(row: seq<int>): string
    requires row != []
  {
    Join(PrintAll(row), ' ')
  }

  /** The rows, each ended by a line feed. */
  function PrintRows(data: seq<seq<int>>): string
    requires forall i :: 0 <= i < |data| ==> data[i] != []
  {
    if data == [] then [] else PrintRow(data[0]) + ['\n'] + PrintRows(data[1..])
  }

  predicate IsNumeral(c: char) {
    IsDigit(c) || c == '-'
  }

  lemma NumeralsAreVisible(c: char)
    requires IsNumeral(c)
    ensures !IsWhiteSpace(c) && c != ' ' && !IsNewLine(c) && !IsNewLine(' ')
  {
  }

  lemma {:induction false} JoinCharacters(parts: seq<string>)
    requires parts != []
    requires forall i :: 0 <= i < |parts| ==> parts[i] != [] && forall k :: 0 <= k < |parts[i]| ==> IsNumeral(parts[i][k])
    ensures var s := Join(parts, ' ');
      s != [] && IsNumeral(s[|s| - 1]) && forall k :: 0 <= k < |s| ==> IsNumeral(s[k]) || s[k] == ' '
  {
    hide IsNumeral;
    if |parts| > 1 {
      JoinCharacters(parts[..|parts| - 1]);
    }
  }

  /** A printed row is one visible line, and parses back to its numbers. */
  lemma RowParsesBack(row: seq<int>)
    requires row != [] && forall i :: 0 <= i < |row| ==> IsInt32(row[i])
    ensures ParseRow(PrintRow(row)) == Some(row) && ParseNumbers(PrintRow(row)) == Some(row)
    ensures !IsBlank(PrintRow(row)) && Unbroken(PrintRow(row), IsNewLine)
  {
    hide Print, TryParse, IsDigit, IsWhiteSpace, IsNewLine, Split, Join;
    var parts, s := PrintAll(row), PrintRow(row);
    forall i | 0 <= i < |parts|
      ensures parts[i] != [] && TryParse(parts[i]) == Some(row[i]) && ' ' !in parts[i]
      ensures forall k :: 0 <= k < |parts[i]| ==> IsNumeral(parts[i][k])
    {
      PrintedCharacters(row[i]);
      ParseOfPrint(row[i]);
      forall k | 0 <= k < |parts[i]| ensures parts[i][k] != ' ' {
        NumeralsAreVisible(parts[i][k]);
      }
    }
    JoinCharacters(parts);
    SplitOfJoin(parts, ' ');
    NumeralsAreVisible(s[|s| - 1]);
    assert TrimEnd(s, ' ') == s;
    forall k | 0 <= k < |s| ensures !IsNewLine(s[k]) {
      if s[k] != ' ' {
        NumeralsAreVisible(s[k]);
      }
    }
    assert ParseAll(parts).value == row;
  }

  /** What ends the first line that a reader returns from a text that goes on with `rest`. */
  ghost predicate EndsLine(ending: string, rest: string) {
    ending in {"\r\n", "\n"} || (ending == "\r" && (rest == "" || rest[0] != '\n'))
  }

  /** Nothing is read from an empty text; a text without breaks is one line; otherwise a break ends the first line. */
  lemma ReadOneMore(line: string, ending: string, rest: string)
    requires '\r' !in line && '\n' !in line
    ensures ReadLines(line) == if line == [] then [] else [line]
    ensures EndsLine(ending, rest) ==> ReadLines(line + ending + rest) == [line] + ReadLines(rest)
  {
    hide LineLength, BreakLength;
    assert Unbroken(line, IsNewLine);
    LineLengthAt(line, [], IsNewLine);
    assert line + [] == line;
    if EndsLine(ending, rest) {
      assert IsEnding(ending, rest, IsNewLine);
      FirstLine(line, ending, rest, IsNewLine);
    }
  }

  lemma LayoutOneMore(line: string, row: seq<int>, rest: seq<string>, data: seq<seq<int>>)
    requires Layout(rest, data) && !IsBlank(line) && ParseRow(line) == Some(row)
    ensures Layout([line] + rest, [row] + data)
  {
    hide IsBlank, ParseRow;
    var lines := [line] + rest;
    assert forall i :: 0 < i < |lines| ==> lines[i] == rest[i - 1];
  }

  lemma {:induction false} RowsReadBack(data: seq<seq<int>>)
    requires forall i :: 0 <= i < |data| ==> data[i] != [] && forall k :: 0 <= k < |data[i]| ==> IsInt32(data[i][k])
    ensures Layout(ReadLines(PrintRows(data)), data)
  {
    hide IsBlank, ParseRow, PrintRow, IsInt32, LineLength, BreakLength;
    if data != [] {
      hide ReadLines, Layout;
      RowParsesBack(data[0]);
      RowsReadBack(data[1..]);
      assert IsNewLine('\n') && IsNewLine('\r');
      ReadOneMore(PrintRow(data[0]), "\n", PrintRows(data[1..]));
      LayoutOneMore(PrintRow(data[0]), data[0], ReadLines(PrintRows(data[1..])), data[1..]);
      assert [data[0]] + data[1..] == data;
    }
  }

  /** Spaces at the end of a line do not matter, but the other ones separate numbers. */
  lemma SpacesAtTheEnd(line: string, spaces: string)
    requires (line != [] ==> line[|line| - 1] != ' ') && forall i :: 0 <= i < |spaces| ==> spaces[i] == ' '
    ensures ParseRow(line + spaces) == ParseNumbers(line)
  {
    TrimEndOf(line, spaces, ' ');
  }

  /** Every schedule, printed row by row, is accepted; further numbers in the jury's input do not matter. */
  lemma PrintedSchedulesAreAccepted(n: int, m: int, more: seq<int>, data: seq<seq<int>>)
    requires IsSchedule(n, m, data) && IsInt32(n) && IsInt32(m) && forall i :: 0 <= i < |more| ==> IsInt32(more[i])
    ensures Accepts(PrintRow([n, m] + more), PrintRows(data))
  {
    hide PrintRow, PrintRows, ParseNumbers, Layout, ReadLines;
    RowParsesBack([n, m] + more);
    NumbersInRange(n, m, data);
    RowsReadBack(data);
  }

  lemma NumbersInRange(n: int, m: int, data: seq<seq<int>>)
    requires IsSchedule(n, m, data) && IsInt32(m)
    ensures forall i :: 0 <= i < |data| ==> data[i] != [] && forall k :: 0 <= k < |data[i]| ==> IsInt32(data[i][k])
  {
    assert forall i :: 0 <= i < |data| ==> WellFormedRow(data[i], n, m);
  }

  // ---------- What every schedule satisfies ----------

  /** With at least as many museums as groups, nobody ever pauses. */
  lemma NoPauses(n: int, m: int, data: seq<seq<int>>, i: nat, k: nat)
    requires IsSchedule(n, m, data) && m >= n && i < |data| && k < n
    ensures data[i][k] > 0
  {
    var column := Column(data, k);
    CompleteColumn(column, m);
    AllNonzero(column, i);
  }

  lemma {:induction false} AllNonzero(s: seq<int>, i: nat)
    requires |Nonzero(s)| == |s| && i < |s|
    ensures s[i] > 0
  {
    if i > 0 {
      AllNonzero(s[1..], i - 1);
    }
  }

  /**
   With at least as many groups as museums, every museum is visited exactly once in every period. Each of the
   n groups visits it in one period, no two in the same, and there are only n periods.
   */
  lemma FullPeriods(n: int, m: int, data: seq<seq<int>>, i: nat, v: int)
    requires IsSchedule(n, m, data) && n >= m && i < |data| && 1 <= v <= m
    ensures ExactlyOnce(data[i], v)
  {
    hide IsSchedule, Nonzero, Column;
    var periods := Periods(n, m, data, v, n);
    RowSizes(n, m, data);
    OneOfEach(periods, n, i + 1);
    var k :| 0 <= k < n && periods[k] == i + 1;
    OnceInRow(data[i], k, v);
  }

  lemma RowSizes(n: int, m: int, data: seq<seq<int>>)
    requires IsSchedule(n, m, data)
    ensures n >= 1 && |data| == Max(n, m)
    ensures forall i :: 0 <= i < |data| ==> |data[i]| == n && NoRepeats(Nonzero(data[i]))
  {
    hide Nonzero, NoRepeats, ExactlyOnce, Column;
    forall i | 0 <= i < |data| ensures |data[i]| == n && NoRepeats(Nonzero(data[i])) {
      assert WellFormedRow(data[i], n, m);
      NonzeroKeepsRepeats(data[i]);
    }
  }

  lemma OnceInRow(row: seq<int>, k: nat, v: int)
    requires NoRepeats(Nonzero(row)) && k < |row| && row[k] == v && v > 0
    ensures ExactlyOnce(row, v)
  {
    hide Nonzero, NoRepeats;
    NonzeroKeepsRepeats(row);
    assert row[k] > 0;
  }

  lemma OneOfEach(s: seq<int>, m: nat, v: int)
    requires NoRepeats(s) && |s| == m && 1 <= v <= m
    requires forall i :: 0 <= i < |s| ==> 1 <= s[i] <= m
    ensures v in s
  {
    Pigeonhole(s, m);
  }

  /** The periods, counted from one, in which the first `k` groups visit museum `v`. */
  lemma {:induction false} Periods(n: int, m: int, data: seq<seq<int>>, v: int, k: nat) returns (periods: seq<int>)
    requires IsSchedule(n, m, data) && 1 <= v <= m && k <= n
    ensures |periods| == k && NoRepeats(periods)
    ensures forall j :: 0 <= j < k ==> 1 <= periods[j] <= |data| && data[periods[j] - 1][j] == v
  {
    if k == 0 {
      return [];
    }
    var earlier := Periods(n, m, data, v, k - 1);
    assert ExactlyOnce(Column(data, k - 1), v);
    var i :| 0 <= i < |data| && Column(data, k - 1)[i] == v;
    assert WellFormedRow(data[i], n, m);
    periods := earlier + [i + 1];
  }
}
