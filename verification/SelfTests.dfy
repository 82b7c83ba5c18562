/**
 The self-tests of a runner. Its compilers are loaded first, which fills the version rows. The table of expected
 results is built by one pass over compilers and tests; a second pass runs the tests and finds each row again by
 nothing but a running index.
 */
module SelfTests {
  import opened Options
  import opened Arithmetic
  import opened StatusCodes
  import opened Linq
  import opened CompilerLoading

  datatype Test = Test(name: string, language: string, compilatorNames: seq<string>, expected: CheckerResultStatus)

  datatype Row = Row(name: string, compiler: Compiler, expected: CheckerResultStatus, result: Option<CheckerResultStatus>)

  /** How running one test on one compiler ends. */
  datatype RunEnd = Finished(status: CheckerResultStatus) | Faulted | Cancelled

  datatype SelfTestingStatus = Unknown | InProcess | Failed | Success

  /** The end of running test number `j` of compiler number `i`. */
  type Runs = (nat, nat) -> RunEnd

  function Applies(compiler: Compiler): Test -> bool {
    (t: Test) => t.language == compiler.language && (t.compilatorNames == [] || compiler.name in t.compilatorNames)
  }

  function TestsFor(tests: seq<Test>, compiler: Compiler): seq<Test> {
    Where(tests, Applies(compiler))
  }

  function PendingRow(compiler: Compiler, test: Test): Row {
    Row(test.name, compiler, test.expected, None)
  }

  function NoTestsRow(compiler: Compiler): Row {
    Row("SelfTests", compiler, Accepted, Some(InternalError))
  }

  function VersionRow(compiler: Compiler): Row {
    Row("Version", compiler, Accepted, Some(if compiler.broken then InternalError else Accepted))
  }

  function PendingVersionRow(configuration: Configuration): Row {
    Row("Version", Undescribed(configuration, false), Accepted, None)
  }

  // ---------- The table before and after ----------

  function RowsFor(tests: seq<Test>, compiler: Compiler): (rows: seq<Row>)
    ensures |rows| == if TestsFor(tests, compiler) == [] then 1 else |TestsFor(tests, compiler)|
  {
    var own := TestsFor(tests, compiler);
    if own == [] then [NoTestsRow(compiler)]
    else seq(|own|, j requires 0 <= j < |own| => PendingRow(compiler, own[j]))
  }

  /** The table that the first pass builds. */
  function CreatedRows(tests: seq<Test>, compilers: seq<Compiler>): seq<Row> {
    if compilers == [] then [] else RowsFor(tests, compilers[0]) + CreatedRows(tests, compilers[1..])
  }

  function Recorded(end: RunEnd): CheckerResultStatus {
    if end.Finished? then end.status else InternalError
  }

  /** The rows of compiler number `i` once its tests have run; a broken compiler's rows stay as they were built. */
  function FilledRows(tests: seq<Test>, compiler: Compiler, i: nat, runs: Runs): (rows: seq<Row>)
    ensures |rows| == |RowsFor(tests, compiler)|
  {
    var own, rows := TestsFor(tests, compiler), RowsFor(tests, compiler);
    if own == [] || compiler.broken then rows
    else seq(|own|, j requires 0 <= j < |own| => rows[j].(result := Some(Recorded(runs(i, j)))))
  }

  /** The table of the first `n` compilers once their tests have run. */
  function DoneRows(tests: seq<Test>, compilers: seq<Compiler>, n: nat, runs: Runs): seq<Row>
    requires n <= |compilers|
  {
    if n == 0 then [] else DoneRows(tests, compilers, n - 1, runs) + FilledRows(tests, compilers[n - 1], n - 1, runs)
  }

  function Passed(row: Row): bool {
    row.result == Some(row.expected)
  }

  /** The compiler has tests, and each of them ends as expected; an internal error stands for a run that throws. */
  ghost predicate EndsAsExpected(tests: seq<Test>, compiler: Compiler, i: nat, runs: Runs) {
    var own := TestsFor(tests, compiler);
    own != [] && forall j :: 0 <= j < |own| ==>
      if runs(i, j).Finished? then own[j].expected == runs(i, j).status else own[j].expected == InternalError
  }

  /** A compiler's tests are those of its language that name no compiler or name this one. */
  lemma TestsOfCompiler(tests: seq<Test>, compiler: Compiler)
    ensures forall t :: multiset(TestsFor(tests, compiler))[t]
              == if t.language == compiler.language && (t.compilatorNames == [] || compiler.name in t.compilatorNames)
                 then multiset(tests)[t] else 0
  {
    forall t ensures multiset(TestsFor(tests, compiler))[t] == if Applies(compiler)(t) then multiset(tests)[t] else 0 {
      WhereMultiset(tests, Applies(compiler), t);
    }
  }

  /** The meaning of success. */
  ghost predicate Succeeds(tests: seq<Test>, compilers: seq<Compiler>, runs: Runs) {
    && |compilers| > 0
    && forall i :: 0 <= i < |compilers| ==> !compilers[i].broken && EndsAsExpected(tests, compilers[i], i, runs)
  }

  /** No test of the compiler that is due to run is cancelled. */
  ghost predicate Uncancelled(tests: seq<Test>, compiler: Compiler, i: nat, runs: Runs) {
    compiler.broken || forall j :: 0 <= j < |TestsFor(tests, compiler)| ==> !runs(i, j).Cancelled?
  }

  class SelfTestService {
    const tests: seq<Test>
    const configurations: seq<Configuration>
    const versionResults: array<Row>
    var compilers: Option<seq<Compiler>>
    var results: array<Row>
    var status: SelfTestingStatus

    ghost predicate Valid()
      reads this, versionResults
    {
      && versionResults.Length == |configurations|
      && (compilers.Some? ==> VersionsOf(compilers.value, versionResults[..]))
    }

    /** Keeps the configurations whose environment the runner has; all their version rows are pending. */
    constructor (tests: seq<Test>, all: seq<Configuration>, supported: Configuration -> bool)
      ensures Valid() && this.tests == tests && configurations == Where(all, supported)
      ensures compilers == None && status == Unknown
      ensures fresh(versionResults) && fresh(results)
      ensures forall i :: 0 <= i < |configurations| ==>
                versionResults[i] == Row("Version", Compiler(configurations[i].name, configurations[i].name, None,
                                                             configurations[i].language, false), Accepted, None)
      ensures results[..] == CreatedRows(tests, CompilersOf(versionResults[..]))
    {
      var kept := Where(all, supported);
      this.tests := tests;
      this.configurations := kept;
      this.versionResults := new Row[|kept|](i requires 0 <= i < |kept| => PendingVersionRow(kept[i]));
      this.compilers := None;
      this.status := Unknown;
      var rows := CreatedRows(tests, UndescribedAll(kept));
      this.results := new Row[|rows|](i requires 0 <= i < |rows| => rows[i]);
      new;
      assert CompilersOf(versionResults[..]) == UndescribedAll(configurations);
    }

    /**
     Loads the compilers unless they are loaded. `stop` tells at which configuration a cancellation is noticed. An
     interrupted loading leaves the compilers unloaded and the rows of the remaining configurations as they were.
     */
    method LoadCompilators(answers: Answers, stop: nat -> bool, parse: Parser, byName: (Compiler, Compiler) -> bool)
      returns (ghost calls: seq<Key>, ghost source: seq<nat>)
      requires Valid()
      modifies this, versionResults
      ensures Valid() && status == old(status)
      ensures compilers.None? ==> results == old(results)
      ensures compilers.Some? ==> results == old(results) || fresh(results)
      ensures old(compilers).Some? ==> unchanged(this) && unchanged(versionResults) && calls == [] && source == []
      ensures old(compilers).None? ==>
                && IsLoading(configurations, answers, calls, source)
                && (forall i :: 0 <= i < |source| ==>
                      && !stop(i)
                      && IsVersionRow(versionResults[i])
                      && IsDescribed(configurations[i], answers(source[i]), parse, versionResults[i].compiler))
                && (forall i :: |source| <= i < |configurations| ==> versionResults[i] == old(versionResults[i]))
      ensures old(compilers).None? && compilers.None? ==>
                |source| < |configurations| && (stop(|source|) || answers(|calls|).Interrupted?)
      ensures old(compilers).None? && compilers.Some? ==>
                && |source| == |configurations|
                && (IsOrder(byName) ==> Sorted(compilers.value, byName))
                && multiset(compilers.value) == multiset(CompilersOf(versionResults[..]))
                && compilers.value == OrderBy(DescribedAll(configurations, answers, source, parse), byName)
                && results[..] == CreatedRows(tests, compilers.value)
    {
      hide IsLoading, Described, CreatedRows, VersionsOf, IsDescribed, OrderBy, Sorted, IsOrder, CompilersOf, VersionRow, IsVersionRow;
      calls, source := [], [];
      if compilers.Some? {
        return;
      }
      var loaded;
      loaded, calls, source := FillVersions(answers, stop, parse);
      forall i | 0 <= i < |source|
        ensures IsVersionRow(versionResults[i])
        ensures IsDescribed(configurations[i], answers(source[i]), parse, versionResults[i].compiler)
      {
        VersionRowMeaning(Described(configurations[i], answers(source[i]), parse));
        DescribedMeaning(configurations[i], answers(source[i]), parse);
      }
      if loaded.None? {
        return;
      }
      var sorted := OrderBy(loaded.value, byName);
      SortedVersions(loaded.value, sorted, versionResults[..]);
      if IsOrder(byName) {
        OrderBySorted(loaded.value, byName);
      }
      results := CreateTestResults(sorted);
      compilers := Some(sorted);
    }

    /** Asks for one version after the other and writes its row; None when interrupted. */
    method FillVersions(answers: Answers, stop: nat -> bool, parse: Parser)
      returns (loaded: Option<seq<Compiler>>, ghost calls: seq<Key>, ghost source: seq<nat>)
      requires versionResults.Length == |configurations|
      modifies versionResults
      ensures IsLoading(configurations, answers, calls, source) && |source| <= |configurations|
      ensures forall i :: 0 <= i < |source| ==>
                versionResults[i] == VersionRow(Described(configurations[i], answers(source[i]), parse)) && !stop(i)
      ensures forall i :: |source| <= i < |configurations| ==> versionResults[i] == old(versionResults[i])
      ensures loaded.None? ==> |source| < |configurations| && (stop(|source|) || answers(|calls|).Interrupted?)
      ensures loaded.Some? ==>
                |source| == |configurations| && loaded.value == DescribedAll(configurations, answers, source, parse)
    {
      hide IsLoading, Described, KeyOf, Remembers, VersionRow;
      calls, source := [], [];
      var described: seq<Compiler> := [];
      var memo: map<Key, VersionResult> := map[];
      var made := 0;
      NothingLoaded(configurations, answers);
      for i := 0 to |configurations|
        invariant |described| == |source| == i && made == |calls|
        invariant IsLoading(configurations, answers, calls, source) && Remembers(memo, answers, calls)
        invariant forall k :: 0 <= k < i ==> described[k] == Described(configurations[k], answers(source[k]), parse) && !stop(k)
        invariant forall k :: 0 <= k < i ==> versionResults[k] == VersionRow(described[k])
        invariant forall k :: i <= k < |configurations| ==> versionResults[k] == old(versionResults[k])
      {
        if stop(i) {
          return None, calls, source;
        }
        var answer;
        ghost var more, longer;
        answer, memo, made, more, longer := Ask(KeyOf(configurations[i]), answers, memo, made, calls, source);
        if answer.Interrupted? {
          return None, calls, source;
        }
        assert forall k :: 0 <= k < i ==> longer[k] == source[k];
        calls, source := more, longer;
        var compiler := Described(configurations[i], answer, parse);
        described := described + [compiler];
        versionResults[i] := VersionRow(compiler);
      }
      assert described == DescribedAll(configurations, answers, source, parse);
      return Some(described), calls, source;
    }

    /**
     Loads the compilers if necessary and runs all tests; None when loading or a test is cancelled. Every result is
     written to the row that was built for the same compiler and test, broken compilers and compilers without tests
     keep their rows, and the verdict is success exactly when it should be.
     */
    method RunSelfTests(answers: Answers, stop: nat -> bool, parse: Parser, byName: (Compiler, Compiler) -> bool, runs: Runs)
      returns (success: Option<bool>)
      requires Valid()
      modifies this, versionResults
      ensures Valid()
      ensures old(compilers).Some? ==> compilers == old(compilers) && unchanged(versionResults)
      ensures old(compilers).None? && compilers.Some? ==>
                exists calls, source :: IsLoading(configurations, answers, calls, source) && |source| == |configurations|
                  && compilers.value == OrderBy(DescribedAll(configurations, answers, source, parse), byName)
      ensures compilers.None? ==> success == None && status == old(status)
      ensures compilers.Some? ==>
                (success.Some? <==>
                  forall i :: 0 <= i < |compilers.value| ==> Uncancelled(tests, compilers.value[i], i, runs))
      ensures compilers.Some? && success.None? ==> status == InProcess
      ensures success.Some? ==> results[..] == DoneRows(tests, compilers.value, |compilers.value|, runs)
      ensures success.Some? ==> (success.value <==> Succeeds(tests, compilers.value, runs))
      ensures success.Some? ==> IsFilled(tests, compilers.value, results[..], runs)
      ensures success.Some? ==> status == if success.value then SelfTestingStatus.Success else Failed
    {
      hide CreatedRows, DoneRows, Succeeds, IsFilled, IsLoading, VersionsOf, Uncancelled, Passed, OrderBy, DescribedAll, AllPassed;
      ghost var calls, source := LoadCompilators(answers, stop, parse, byName);
      if compilers.None? {
        return None;
      }
      var loaded := compilers.value;
      results := CreateTestResults(loaded);
      status := InProcess;
      var completed := RunAllTests(loaded, runs);
      if !completed {
        return None;
      }
      SuccessMeaning(tests, loaded, versionResults[..], results[..], runs);
      DoneRowsAreFilled(tests, loaded, runs);
      var passed := |loaded| > 0 && AllAsExpected(versionResults) && AllAsExpected(results);
      status := if passed then SelfTestingStatus.Success else Failed;
      return Some(passed);
    }

    /** The answer to the next version command, remembered or asked for; `made` calls were made so far. */
    method Ask(key: Key, answers: Answers, memo: map<Key, VersionResult>, made: nat, ghost calls: seq<Key>, ghost source: seq<nat>)
      returns (answer: Answer, remembered: map<Key, VersionResult>, now: nat, ghost more: seq<Key>, ghost longer: seq<nat>)
      requires IsLoading(configurations, answers, calls, source) && Remembers(memo, answers, calls)
      requires |source| < |configurations| && key == KeyOf(configurations[|source|]) && made == |calls|
      ensures answer.Interrupted? ==> answers(|calls|).Interrupted?
      ensures !answer.Interrupted? ==>
                && IsLoading(configurations, answers, more, longer) && Remembers(remembered, answers, more)
                && now == |more| && |longer| == |source| + 1 && longer[..|source|] == source
                && answer == answers(longer[|source|])
    {
      hide IsLoading, Remembers, KeyOf;
      remembered, now, more, longer := memo, made, calls, source;
      if key in memo {
        answer := Answered(memo[key]);
        ghost var call := ServedFromMemory(configurations, answers, calls, source, memo);
        longer := source + [call];
      } else {
        answer := answers(made);
        if answer.Interrupted? {
          return;
        }
        ServedByNewCall(configurations, answers, calls, source, memo);
        RemembersOneMore(memo, answers, calls, key);
        more, longer, now := calls + [key], source + [made], made + 1;
        if answer.Answered? {
          remembered := memo[key := answer.result];
        }
      }
    }

    method CreateTestResults(loaded: seq<Compiler>) returns (table: array<Row>)
      ensures fresh(table) && table[..] == CreatedRows(tests, loaded)
    {
      var rows := CreatedRows(tests, loaded);
      table := new Row[|rows|](i requires 0 <= i < |rows| => rows[i]);
      assert table[..] == rows;
    }

    /** Fills the table, compiler by compiler; false when a test is cancelled. */
    method RunAllTests(loaded: seq<Compiler>, runs: Runs) returns (completed: bool)
      requires results[..] == CreatedRows(tests, loaded)
      modifies results
      ensures completed <==> forall i :: 0 <= i < |loaded| ==> Uncancelled(tests, loaded[i], i, runs)
      ensures completed ==> results[..] == DoneRows(tests, loaded, |loaded|, runs)
    {
      hide CreatedRows, DoneRows, FilledRows, RowsFor, TestsFor, Uncancelled;
      var index := 0;
      NothingDone(tests, loaded, runs);
      for i := 0 to |loaded|
        invariant index == |DoneRows(tests, loaded, i, runs)|
        invariant results[..] == DoneRows(tests, loaded, i, runs) + CreatedRows(tests, loaded[i..])
        invariant forall k :: 0 <= k < i ==> Uncancelled(tests, loaded[k], k, runs)
      {
        ghost var done := DoneRows(tests, loaded, i, runs);
        ghost var later := CreatedRows(tests, loaded[i + 1..]);
        NextCompiler(tests, loaded, i, runs);
        Regroup(done, RowsFor(tests, loaded[i]), later);
        if TestsFor(tests, loaded[i]) == [] {
          index := index + 1;
        } else {
          index, completed := RunTestsOf(loaded[i], i, index, runs, done, later);
          if !completed {
            return;
          }
        }
        assert done + FilledRows(tests, loaded[i], i, runs) + later
            == DoneRows(tests, loaded, i + 1, runs) + CreatedRows(tests, loaded[i + 1..]);
      }
      AllDone(tests, loaded, runs);
      completed := true;
    }

    /** The tests of one compiler, whose rows start at `start`; returns the index behind them. */
    method RunTestsOf(compiler: Compiler, i: nat, start: nat, runs: Runs, ghost done: seq<Row>, ghost later: seq<Row>)
      returns (index: nat, completed: bool)
      requires start == |done|
      requires results[..] == done + RowsFor(tests, compiler) + later
      modifies results
      ensures completed <==> Uncancelled(tests, compiler, i, runs)
      ensures completed ==> index == start + |TestsFor(tests, compiler)|
      ensures completed ==> TestsFor(tests, compiler) != [] ==>
                results[..] == done + FilledRows(tests, compiler, i, runs) + later
    {
      hide FilledRows, RowsFor, TestsFor, PartlyFilled, PendingRow;
      var own := TestsFor(tests, compiler);
      index := start;
      PartlyFilledEnds(tests, compiler, i, runs);
      for j := 0 to |own|
        invariant index == start + j
        invariant results[..] == done + PartlyFilled(tests, compiler, i, runs, j) + later
        invariant !compiler.broken ==> forall k :: 0 <= k < j ==> !runs(i, k).Cancelled?
      {
        var resultIndex := index;
        index := index + 1;
        RowInPlace(tests, compiler, i, runs, j, done, later);
        if compiler.broken {
          BrokenRowStays(tests, compiler, i, runs, j);
          continue;
        }
        ghost var rows := results[..];
        var pending := results[resultIndex];
        PendingRowOf(compiler, own[j]);
        assert pending == rows[resultIndex] == PendingRow(compiler, own[j]);
        var end := runs(i, j);
        if end.Cancelled? {
          return index, false;
        }
        RowWritten(tests, compiler, i, runs, j, done, later);
        results[resultIndex] := pending.(result := Some(if end.Finished? then end.status else InternalError));
        assert results[..] == rows[resultIndex := results[resultIndex]];
      }
      return index, true;
    }
  }

  predicate AllAsExpected(table: array<Row>)
    reads table
  {
    forall k :: 0 <= k < table.Length ==> Passed(table[..][k])
  }

  /** The version rows are those of these compilers. */
  ghost predicate VersionsOf(compilers: seq<Compiler>, versions: seq<Row>) {
    && (forall c :: c in compilers ==> VersionRow(c) in versions)
    && (forall r :: r in versions ==> exists c :: c in compilers && r == VersionRow(c))
  }

  /** A version row passes exactly when its compiler is not broken. */
  ghost predicate IsVersionRow(row: Row) {
    row.name == "Version" && row.expected == Accepted && row.result == Some(if row.compiler.broken then InternalError else Accepted)
  }

  lemma VersionRowMeaning(compiler: Compiler)
    ensures IsVersionRow(VersionRow(compiler)) && VersionRow(compiler).compiler == compiler
  {
  }

  function CompilersOf(rows: seq<Row>): seq<Compiler> {
    seq(|rows|, i requires 0 <= i < |rows| => rows[i].compiler)
  }

  function UndescribedAll(configurations: seq<Configuration>): seq<Compiler> {
    seq(|configurations|, i requires 0 <= i < |configurations| => Undescribed(configurations[i], false))
  }

  lemma NothingLoaded(configurations: seq<Configuration>, answers: Answers)
    ensures IsLoading(configurations, answers, [], []) && Remembers(map[], answers, [])
  {
  }

  lemma SortedVersions(loaded: seq<Compiler>, sorted: seq<Compiler>, versions: seq<Row>)
    requires multiset(sorted) == multiset(loaded)
    requires |versions| == |loaded| && forall i :: 0 <= i < |loaded| ==> versions[i] == VersionRow(loaded[i])
    ensures VersionsOf(sorted, versions)
    ensures CompilersOf(versions) == loaded
  {
    SameElements(sorted, loaded);
    forall c | c in sorted ensures VersionRow(c) in versions {
      var i :| 0 <= i < |loaded| && loaded[i] == c;
      assert versions[i] == VersionRow(c);
    }
    forall r | r in versions ensures exists c :: c in sorted && r == VersionRow(c) {
      var i :| 0 <= i < |versions| && versions[i] == r;
      assert loaded[i] in sorted;
    }
  }

  // ---------- The running index ----------

  /** The rows of one compiler while its tests run: the first `j` are written. */
  function PartlyFilled(tests: seq<Test>, compiler: Compiler, i: nat, runs: Runs, j: nat): (rows: seq<Row>)
    requires j <= |TestsFor(tests, compiler)|
    ensures |rows| == |RowsFor(tests, compiler)|
  {
    FilledRows(tests, compiler, i, runs)[..j] + RowsFor(tests, compiler)[j..]
  }

  lemma Regroup(a: seq<Row>, b: seq<Row>, c: seq<Row>)
    ensures a + (b + c) == a + b + c
  {
  }

  lemma NothingDone(tests: seq<Test>, compilers: seq<Compiler>, runs: Runs)
    ensures DoneRows(tests, compilers, 0, runs) == []
    ensures compilers[0..] == compilers
  {
  }

  lemma AllDone(tests: seq<Test>, compilers: seq<Compiler>, runs: Runs)
    ensures CreatedRows(tests, compilers[|compilers|..]) == []
  {
  }

  lemma NextCompiler(tests: seq<Test>, compilers: seq<Compiler>, i: nat, runs: Runs)
    requires i < |compilers|
    ensures CreatedRows(tests, compilers[i..]) == RowsFor(tests, compilers[i]) + CreatedRows(tests, compilers[i + 1..])
    ensures DoneRows(tests, compilers, i + 1, runs)
         == DoneRows(tests, compilers, i, runs) + FilledRows(tests, compilers[i], i, runs)
    ensures TestsFor(tests, compilers[i]) == [] ==>
              |RowsFor(tests, compilers[i])| == 1 && FilledRows(tests, compilers[i], i, runs) == RowsFor(tests, compilers[i])
    ensures TestsFor(tests, compilers[i]) != [] ==>
              |FilledRows(tests, compilers[i], i, runs)| == |TestsFor(tests, compilers[i])|
    ensures TestsFor(tests, compilers[i]) == [] ==> Uncancelled(tests, compilers[i], i, runs)
  {
    assert compilers[i..][1..] == compilers[i + 1..];
  }

  lemma PartlyFilledEnds(tests: seq<Test>, compiler: Compiler, i: nat, runs: Runs)
    ensures PartlyFilled(tests, compiler, i, runs, 0) == RowsFor(tests, compiler)
    ensures TestsFor(tests, compiler) != [] ==>
              PartlyFilled(tests, compiler, i, runs, |TestsFor(tests, compiler)|) == FilledRows(tests, compiler, i, runs)
  {
  }

  lemma BrokenRowStays(tests: seq<Test>, compiler: Compiler, i: nat, runs: Runs, j: nat)
    requires j < |TestsFor(tests, compiler)| && compiler.broken
    ensures PartlyFilled(tests, compiler, i, runs, j + 1) == PartlyFilled(tests, compiler, i, runs, j)
  {
  }

  /** The row at the running index is the one built for this compiler and this test. */
  lemma RowInPlace(tests: seq<Test>, compiler: Compiler, i: nat, runs: Runs, j: nat, done: seq<Row>, later: seq<Row>)
    requires j < |TestsFor(tests, compiler)|
    ensures j < |PartlyFilled(tests, compiler, i, runs, j)|
    ensures var test := TestsFor(tests, compiler)[j];
      (done + PartlyFilled(tests, compiler, i, runs, j) + later)[|done| + j] == Row(test.name, compiler, test.expected, None)
  {
  }

  lemma ReplacedInside(a: seq<Row>, b: seq<Row>, c: seq<Row>, j: nat, row: Row)
    requires j < |b|
    ensures (a + b + c)[|a| + j := row] == a + b[j := row] + c
  {
  }

  lemma SpliceGrows(filled: seq<Row>, rows: seq<Row>, j: nat)
    requires |filled| == |rows| && j < |rows|
    ensures filled[..j + 1] + rows[j + 1..] == (filled[..j] + rows[j..])[j := filled[j]]
  {
  }

  lemma FilledRow(tests: seq<Test>, compiler: Compiler, i: nat, runs: Runs, j: nat)
    requires j < |TestsFor(tests, compiler)| && !compiler.broken
    ensures j < |FilledRows(tests, compiler, i, runs)|
    ensures FilledRows(tests, compiler, i, runs)[j]
         == PendingRow(compiler, TestsFor(tests, compiler)[j]).(result := Some(Recorded(runs(i, j))))
  {
  }

  lemma PartlyFilledGrows(tests: seq<Test>, compiler: Compiler, i: nat, runs: Runs, j: nat)
    requires j < |TestsFor(tests, compiler)| && !compiler.broken
    ensures j < |PartlyFilled(tests, compiler, i, runs, j)|
    ensures PartlyFilled(tests, compiler, i, runs, j + 1)
         == PartlyFilled(tests, compiler, i, runs, j)
              [j := PendingRow(compiler, TestsFor(tests, compiler)[j]).(result := Some(Recorded(runs(i, j))))]
  {
    hide TestsFor, Recorded, PendingRow, FilledRows, RowsFor;
    FilledRow(tests, compiler, i, runs, j);
    SpliceGrows(FilledRows(tests, compiler, i, runs), RowsFor(tests, compiler), j);
  }

  lemma PendingRowOf(compiler: Compiler, test: Test)
    ensures PendingRow(compiler, test) == Row(test.name, compiler, test.expected, None)
  {
  }

  /** Writing that row advances the filled part by one. */
  lemma RowWritten(tests: seq<Test>, compiler: Compiler, i: nat, runs: Runs, j: nat, done: seq<Row>, later: seq<Row>)
    requires j < |TestsFor(tests, compiler)| && !compiler.broken
    ensures j < |PartlyFilled(tests, compiler, i, runs, j)|
    ensures var row := PendingRow(compiler, TestsFor(tests, compiler)[j]).(result := Some(Recorded(runs(i, j))));
      (done + PartlyFilled(tests, compiler, i, runs, j) + later)[|done| + j := row]
        == done + PartlyFilled(tests, compiler, i, runs, j + 1) + later
  {
    hide PartlyFilled, PendingRow, TestsFor, Recorded;
    PartlyFilledGrows(tests, compiler, i, runs, j);
    ReplacedInside(done, PartlyFilled(tests, compiler, i, runs, j), later, j,
                   PendingRow(compiler, TestsFor(tests, compiler)[j]).(result := Some(Recorded(runs(i, j)))));
  }

  // ---------- The whole table ----------

  /** Where the rows of compiler number `i` start: every earlier compiler has a row per test, or one without tests. */
  function Start(tests: seq<Test>, compilers: seq<Compiler>, i: nat): nat
    requires i <= |compilers|
  {
    if i == 0 then 0
    else Start(tests, compilers, i - 1) + Max(1, |TestsFor(tests, compilers[i - 1])|)
  }

  /** The result recorded for test number `j` of a compiler: none when it is broken. */
  ghost predicate IsResultOf(compiler: Compiler, end: RunEnd, result: Option<CheckerResultStatus>) {
    result == if compiler.broken then None else if end.Finished? then Some(end.status) else Some(InternalError)
  }

  /** The rows from `start` on are those of compiler number `i`, in the order of its tests. */
  ghost predicate FilledAt(tests: seq<Test>, compilers: seq<Compiler>, rows: seq<Row>, runs: Runs, i: nat, start: nat)
    requires i < |compilers|
  {
    var compiler, own := compilers[i], TestsFor(tests, compilers[i]);
    && start + Max(1, |own|) <= |rows|
    && (own == [] ==> rows[start] == Row("SelfTests", compiler, Accepted, Some(InternalError)))
    && forall j :: 0 <= j < |own| ==> IsRowOf(rows[start + j], own[j], compiler, runs(i, j))
  }

  ghost predicate IsRowOf(row: Row, test: Test, compiler: Compiler, end: RunEnd) {
    row.name == test.name && row.compiler == compiler && row.expected == test.expected && IsResultOf(compiler, end, row.result)
  }

  ghost predicate IsFilled(tests: seq<Test>, compilers: seq<Compiler>, rows: seq<Row>, runs: Runs) {
    && |rows| == Start(tests, compilers, |compilers|)
    && forall i: nat :: i < |compilers| ==> FilledAt(tests, compilers, rows, runs, i, Start(tests, compilers, i))
  }

  lemma FilledBefore(tests: seq<Test>, compilers: seq<Compiler>, before: seq<Row>, after: seq<Row>, runs: Runs, i: nat, start: nat)
    requires i < |compilers| && FilledAt(tests, compilers, before, runs, i, start)
    ensures FilledAt(tests, compilers, before + after, runs, i, start)
  {
    hide TestsFor, IsRowOf;
    var rows, own := before + after, TestsFor(tests, compilers[i]);
    forall j | 0 <= j < |own| ensures IsRowOf(rows[start + j], own[j], compilers[i], runs(i, j)) {
      assert rows[start + j] == before[start + j];
    }
  }

  lemma FilledBehind(tests: seq<Test>, compilers: seq<Compiler>, before: seq<Row>, runs: Runs, i: nat)
    requires i < |compilers|
    ensures var rows := FilledRows(tests, compilers[i], i, runs);
      |rows| == Max(1, |TestsFor(tests, compilers[i])|) && FilledAt(tests, compilers, before + rows, runs, i, |before|)
  {
    hide TestsFor;
    var rows, own := FilledRows(tests, compilers[i], i, runs), TestsFor(tests, compilers[i]);
    assert (before + rows)[|before|] == rows[0];
    forall j | 0 <= j < |own| ensures IsRowOf((before + rows)[|before| + j], own[j], compilers[i], runs(i, j)) {
      assert (before + rows)[|before| + j] == rows[j];
    }
  }

  lemma {:induction false} DoneRowsFilled(tests: seq<Test>, compilers: seq<Compiler>, n: nat, runs: Runs, i: nat)
    requires n <= |compilers|
    ensures |DoneRows(tests, compilers, n, runs)| == Start(tests, compilers, n)
    ensures i < n ==> FilledAt(tests, compilers, DoneRows(tests, compilers, n, runs), runs, i, Start(tests, compilers, i))
  {
    hide TestsFor, FilledRows, FilledAt;
    if n > 0 {
      DoneRowsFilled(tests, compilers, n - 1, runs, i);
      FilledBehind(tests, compilers, DoneRows(tests, compilers, n - 1, runs), runs, n - 1);
      if i < n - 1 {
        FilledBefore(tests, compilers, DoneRows(tests, compilers, n - 1, runs), FilledRows(tests, compilers[n - 1], n - 1, runs),
                     runs, i, Start(tests, compilers, i));
      }
    }
  }

  /** The table in the end: each row stands where its compiler and test put it, and holds the result of that run. */
  lemma DoneRowsAreFilled(tests: seq<Test>, compilers: seq<Compiler>, runs: Runs)
    ensures IsFilled(tests, compilers, DoneRows(tests, compilers, |compilers|, runs), runs)
  {
    hide TestsFor, FilledRows, FilledAt, DoneRows, Start;
    DoneRowsFilled(tests, compilers, |compilers|, runs, 0);
    forall i: nat | i < |compilers|
      ensures FilledAt(tests, compilers, DoneRows(tests, compilers, |compilers|, runs), runs, i, Start(tests, compilers, i))
    {
      DoneRowsFilled(tests, compilers, |compilers|, runs, i);
    }
  }

  // ---------- Success ----------

  ghost predicate AllPassed(rows: seq<Row>) {
    forall r :: r in rows ==> Passed(r)
  }

  lemma BothPass(before: seq<Row>, last: seq<Row>)
    ensures AllPassed(before + last) <==> AllPassed(before) && AllPassed(last)
  {
    hide Passed;
    assert forall r :: r in before + last <==> r in before || r in last;
  }

  ghost predicate EachPasses(tests: seq<Test>, compilers: seq<Compiler>, n: nat, runs: Runs)
    requires n <= |compilers|
  {
    forall i :: 0 <= i < n ==> AllPassed(FilledRows(tests, compilers[i], i, runs))
  }

  lemma NobodyFails(tests: seq<Test>, compilers: seq<Compiler>, runs: Runs)
    ensures AllPassed(DoneRows(tests, compilers, 0, runs)) && EachPasses(tests, compilers, 0, runs)
  {
  }

  lemma OneMorePasses(tests: seq<Test>, compilers: seq<Compiler>, n: nat, runs: Runs)
    requires n < |compilers|
    ensures EachPasses(tests, compilers, n + 1, runs)
       <==> EachPasses(tests, compilers, n, runs) && AllPassed(FilledRows(tests, compilers[n], n, runs))
    ensures DoneRows(tests, compilers, n + 1, runs)
         == DoneRows(tests, compilers, n, runs) + FilledRows(tests, compilers[n], n, runs)
  {
    hide FilledRows, AllPassed;
  }

  lemma {:induction false} DoneRowsPass(tests: seq<Test>, compilers: seq<Compiler>, n: nat, runs: Runs)
    requires n <= |compilers|
    ensures AllPassed(DoneRows(tests, compilers, n, runs)) <==> EachPasses(tests, compilers, n, runs)
  {
    hide *;
    if n == 0 {
      NobodyFails(tests, compilers, runs);
    } else {
      DoneRowsPass(tests, compilers, n - 1, runs);
      OneMorePasses(tests, compilers, n - 1, runs);
      BothPass(DoneRows(tests, compilers, n - 1, runs), FilledRows(tests, compilers[n - 1], n - 1, runs));
    }
  }

  /** The rows of a working compiler all pass exactly when it has tests and every test ends as expected. */
  lemma FilledRowsPass(tests: seq<Test>, compiler: Compiler, i: nat, runs: Runs)
    requires !compiler.broken
    ensures AllPassed(FilledRows(tests, compiler, i, runs)) <==> EndsAsExpected(tests, compiler, i, runs)
  {
    var own, rows := TestsFor(tests, compiler), FilledRows(tests, compiler, i, runs);
    if own == [] {
      assert rows[0] in rows;
    } else {
      assert forall j :: 0 <= j < |own| ==> (Passed(rows[j]) <==> Recorded(runs(i, j)) == own[j].expected);
      assert forall j :: 0 <= j < |own| ==> rows[j] in rows;
    }
  }

  lemma SuccessMeaning(tests: seq<Test>, compilers: seq<Compiler>, versions: seq<Row>, rows: seq<Row>, runs: Runs)
    requires VersionsOf(compilers, versions)
    requires rows == DoneRows(tests, compilers, |compilers|, runs)
    ensures Succeeds(tests, compilers, runs) <==> |compilers| > 0 && AllPassed(versions) && AllPassed(rows)
    ensures AllPassed(rows) <==> forall k :: 0 <= k < |rows| ==> Passed(rows[k])
    ensures AllPassed(versions) <==> forall k :: 0 <= k < |versions| ==> Passed(versions[k])
  {
    hide EndsAsExpected, DoneRows, FilledRows;
    assert AllPassed(versions) <==> forall c :: c in compilers ==> !c.broken;
    DoneRowsPass(tests, compilers, |compilers|, runs);
    forall i | 0 <= i < |compilers| && !compilers[i].broken
      ensures AllPassed(FilledRows(tests, compilers[i], i, runs)) <==> EndsAsExpected(tests, compilers[i], i, runs)
    {
      FilledRowsPass(tests, compilers[i], i, runs);
    }
    assert forall k :: 0 <= k < |rows| ==> rows[k] in rows;
  }
}
