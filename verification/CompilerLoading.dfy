/**
 Finding out the compilers of a runner. Every configuration has a version command in an environment; a command is
 run once per environment and its result shared, except that a command whose run throws is tried again for the
 next configuration. The runner's answers are numbered in the order of the calls.
 */
module CompilerLoading {
  import opened Options

  datatype Configuration = Configuration(name: string, language: string, environment: string, command: string)

  /** A compiler as found on the runner; `broken` when its version could not be determined. */
  datatype Compiler = Compiler(name: string, displayName: string, description: Option<string>, language: string, broken: bool)

  /** `completed` means a completed run with exit code zero. */
  datatype VersionResult = VersionResult(completed: bool, output: string)

  datatype Answer = Answered(result: VersionResult) | Threw | Interrupted

  /** What the runner answers to each call. */
  type Answers = nat -> Answer

  datatype VersionInfo = VersionInfo(displayName: string, description: string)

  /** None when the output does not tell the version. */
  type Parser = (Configuration, string) -> Option<VersionInfo>

  type Key = (string, string)

  function KeyOf(configuration: Configuration): Key {
    (configuration.environment, configuration.command)
  }

  function Undescribed(configuration: Configuration, broken: bool): Compiler {
    Compiler(configuration.name, configuration.name, None, configuration.language, broken)
  }

  /** The compiler that an answer to the version command describes. */
  function Described(configuration: Configuration, answer: Answer, parse: Parser): Compiler {
    var info := if answer.Answered? && answer.result.completed then parse(configuration, answer.result.output) else None;
    if info.None? then Undescribed(configuration, true)
    else Compiler(configuration.name, info.value.displayName, Some(info.value.description), configuration.language, false)
  }

  /**
   The compiler is named and described as its version tells when the command completed with a recognised version;
   otherwise it is broken and bears the name of its configuration.
   */
  ghost predicate IsDescribed(configuration: Configuration, answer: Answer, parse: Parser, compiler: Compiler) {
    && compiler.name == configuration.name && compiler.language == configuration.language
    && if answer.Answered? && answer.result.completed && parse(configuration, answer.result.output).Some? then
         var info := parse(configuration, answer.result.output).value;
         !compiler.broken && compiler.displayName == info.displayName && compiler.description == Some(info.description)
       else
         compiler.broken && compiler.displayName == configuration.name && compiler.description == None
  }

  lemma DescribedMeaning(configuration: Configuration, answer: Answer, parse: Parser)
    ensures IsDescribed(configuration, answer, parse, Described(configuration, answer, parse))
  {
  }

  function DescribedAll(configurations: seq<Configuration>, answers: Answers, source: seq<nat>, parse: Parser): (r: seq<Compiler>)
    requires |source| == |configurations|
    ensures |r| == |configurations|
    ensures forall i :: 0 <= i < |r| ==> r[i] == Described(configurations[i], answers(source[i]), parse)
  {
    seq(|configurations|, i requires 0 <= i < |configurations| => Described(configurations[i], answers(source[i]), parse))
  }

  // ---------- Which call serves which configuration ----------

  ghost predicate Serves(source: seq<nat>, call: nat, n: nat) {
    exists i :: 0 <= i < |source| && i < n && source[i] == call
  }

  /** Every call serves a configuration, and calls are made in the order in which they are first needed. */
  ghost predicate InOrder(source: seq<nat>, calls: nat) {
    && (forall c: nat :: c < calls ==> Serves(source, c, |source|))
    && (forall i: nat, c: nat :: i < |source| && c < source[i] ==> Serves(source, c, i))
  }

  /**
   The calls made for the first configurations, and for each of these the call it was served by: a call of its own
   command. A command is called again only after throwing, a call that threw serves one configuration alone, and
   calls are made in the order of the configurations, none in vain.
   */
  ghost predicate IsLoading(configurations: seq<Configuration>, answers: Answers, calls: seq<Key>, source: seq<nat>) {
    && |source| <= |configurations|
    && (forall i :: 0 <= i < |source| ==> source[i] < |calls| && calls[source[i]] == (configurations[i].environment, configurations[i].command))
    && (forall c, d :: 0 <= c < d < |calls| && calls[c] == calls[d] ==> answers(c).Threw?)
    && (forall c :: 0 <= c < |calls| ==> !answers(c).Interrupted?)
    && (forall i, j :: 0 <= i < j < |source| && source[i] == source[j] ==> answers(source[i]).Answered?)
    && InOrder(source, |calls|)
  }

  /** The remembered results are those of the calls that were answered. */
  ghost predicate Remembers(memo: map<Key, VersionResult>, answers: Answers, calls: seq<Key>) {
    && (forall c :: 0 <= c < |calls| && answers(c).Answered? ==> calls[c] in memo && memo[calls[c]] == answers(c).result)
    && (forall key :: key in memo ==> exists c :: 0 <= c < |calls| && calls[c] == key && answers(c).Answered?)
  }

  lemma ServesStays(source: seq<nat>, call: nat, more: nat, n: nat)
    requires Serves(source, call, n)
    ensures Serves(source + [more], call, n)
  {
    var i :| 0 <= i < |source| && i < n && source[i] == call;
    assert (source + [more])[i] == call;
  }

  lemma OneMoreInOrder(source: seq<nat>, calls: nat, call: nat)
    requires InOrder(source, calls) && call <= calls
    ensures InOrder(source + [call], if call < calls then calls else calls + 1)
  {
    var n, longer := |source|, source + [call];
    assert longer[n] == call;
    assert Serves(longer, call, |longer|);
    forall c: nat | c < calls ensures Serves(longer, c, n) && Serves(longer, c, |longer|) {
      ServesStays(source, c, call, n);
    }
    forall i: nat, c: nat | i < n && c < longer[i] ensures Serves(longer, c, i) {
      assert longer[i] == source[i];
      ServesStays(source, c, call, i);
    }
  }

  /** A remembered result serves the next configuration without a call. */
  lemma ServedFromMemory(configurations: seq<Configuration>, answers: Answers, calls: seq<Key>, source: seq<nat>,
                         memo: map<Key, VersionResult>) returns (call: nat)
    requires IsLoading(configurations, answers, calls, source) && |source| < |configurations|
    requires Remembers(memo, answers, calls) && KeyOf(configurations[|source|]) in memo
    ensures answers(call) == Answered(memo[KeyOf(configurations[|source|])])
    ensures IsLoading(configurations, answers, calls, source + [call])
  {
    hide InOrder;
    call :| 0 <= call < |calls| && calls[call] == KeyOf(configurations[|source|]) && answers(call).Answered?;
    OneMoreInOrder(source, |calls|, call);
  }

  /** A new call serves the next configuration. */
  lemma ServedByNewCall(configurations: seq<Configuration>, answers: Answers, calls: seq<Key>, source: seq<nat>,
                        memo: map<Key, VersionResult>)
    requires IsLoading(configurations, answers, calls, source) && |source| < |configurations|
    requires Remembers(memo, answers, calls) && KeyOf(configurations[|source|]) !in memo
    requires !answers(|calls|).Interrupted?
    ensures IsLoading(configurations, answers, calls + [KeyOf(configurations[|source|])], source + [|calls|])
  {
    hide InOrder;
    OneMoreInOrder(source, |calls|, |calls|);
  }

  lemma RemembersOneMore(memo: map<Key, VersionResult>, answers: Answers, calls: seq<Key>, key: Key)
    requires Remembers(memo, answers, calls) && key !in memo
    ensures answers(|calls|).Answered? ==> Remembers(memo[key := answers(|calls|).result], answers, calls + [key])
    ensures !answers(|calls|).Answered? ==> Remembers(memo, answers, calls + [key])
  {
    var longer := calls + [key];
    assert longer[|calls|] == key;
    forall k | k in memo ensures exists c :: 0 <= c < |longer| && longer[c] == k && answers(c).Answered? {
      var c :| 0 <= c < |calls| && calls[c] == k && answers(c).Answered?;
      assert longer[c] == k;
    }
  }

  // ---------- What loading achieves ----------

  /** Configurations with the same command in the same environment share one call, unless a run of it throws. */
  lemma VersionsAreShared(configurations: seq<Configuration>, answers: Answers, calls: seq<Key>, source: seq<nat>, i: nat, j: nat)
    requires IsLoading(configurations, answers, calls, source) && i < |source| && j < |source|
    requires configurations[i].environment == configurations[j].environment && configurations[i].command == configurations[j].command
    requires answers(source[i]).Answered? && answers(source[j]).Answered?
    ensures source[i] == source[j]
  {
    assert calls[source[i]] == calls[source[j]];
  }

  /** While nothing throws, each command is run exactly once in each environment. */
  lemma EachCommandOnce(configurations: seq<Configuration>, answers: Answers, calls: seq<Key>, source: seq<nat>)
    requires IsLoading(configurations, answers, calls, source) && |source| == |configurations|
    requires forall c: nat :: c < |calls| ==> answers(c).Answered?
    ensures forall c, d :: 0 <= c < d < |calls| ==> calls[c] != calls[d]
    ensures forall key :: key in calls <==> exists i :: 0 <= i < |configurations| && (configurations[i].environment, configurations[i].command) == key
  {
    forall key
      ensures key in calls <==> exists i :: 0 <= i < |configurations| && (configurations[i].environment, configurations[i].command) == key
    {
      if key in calls {
        var c: nat :| c < |calls| && calls[c] == key;
        assert Serves(source, c, |source|);
        var i :| 0 <= i < |source| && source[i] == c;
        assert (configurations[i].environment, configurations[i].command) == key;
      }
      if i :| 0 <= i < |configurations| && (configurations[i].environment, configurations[i].command) == key {
        assert calls[source[i]] == key;
      }
    }
  }

  /** There are never more calls than configurations. */
  lemma {:induction false} CallsWithinConfigurations(source: seq<nat>, calls: nat)
    requires InOrder(source, calls)
    ensures calls <= |source|
  {
    var used := set i | 0 <= i < |source| :: source[i];
    AtMostOneEach(source, used);
    forall c | c in Below(calls) ensures c in used {
      assert Serves(source, c, |source|);
    }
    Smaller(Below(calls), used);
  }

  function Below(n: nat): (s: set<nat>)
    ensures forall c: nat :: c in s <==> c < n
    ensures |s| == n
  {
    if n == 0 then {} else Below(n - 1) + {n - 1}
  }

  lemma {:induction false} AtMostOneEach(source: seq<nat>, used: set<nat>)
    requires used == set i | 0 <= i < |source| :: source[i]
    ensures |used| <= |source|
  {
    if source != [] {
      var front, last := source[..|source| - 1], source[|source| - 1];
      var earlier := set i | 0 <= i < |front| :: front[i];
      AtMostOneEach(front, earlier);
      assert used == earlier + {last};
    } else {
      assert used == {};
    }
  }

  lemma {:induction false} Smaller(a: set<nat>, b: set<nat>)
    requires a <= b
    ensures |a| <= |b|
  {
    if a != {} {
      assert (forall x :: x !in a) ==> a == {};
      var x :| x in a;
      Smaller(a - {x}, b - {x});
    }
  }
}
