/** Verdicts and the single integer that encodes a verdict together with the number of the failed test. */
module StatusCodes {
  import opened Options

  datatype CheckerResultStatus =
    | Accepted
    | CompilationError
    | TimeLimit
    | IdlenessLimit
    | MemoryLimit
    | RuntimeError
    | PresentationError
    | WrongAnswer
    | InternalError

  const QUEUED := 0
  const CHECKING := 1
  const ACCEPTED := 2
  const COMPILATION_ERROR := -1

  /** None stands for an ArgumentException: this verdict cannot be combined with this test number. */
  function MakeStatusCode(status: CheckerResultStatus, test: Option<int>): Option<int> {
    if status == CompilationError && test == None then Some(COMPILATION_ERROR)
    else if status == Accepted && test == None then Some(ACCEPTED)
    else if status == InternalError then Some(-10)
    else if test == None || test.value <= 0 || test.value >= 1000 then None
    else
      match status
      case WrongAnswer => Some(-1000 - test.value)
      case TimeLimit => Some(-2000 - test.value)
      case RuntimeError => Some(-3000 - test.value)
      case PresentationError => Some(-4000 - test.value)
      case IdlenessLimit => Some(-5000 - test.value)
      case MemoryLimit => Some(-6000 - test.value)
      case _ => None
  }

  /** The text for a failure, by the thousands of its code. */
  function FailureTemplate(block: int): string {
    match block
    case 1 => "Wrong answer on test {0}"
    case 2 => "Time limit exceeded on test {0}"
    case 3 => "Runtime error on test {0}"
    case 4 => "Presentation error on test {0}"
    case 5 => "Idleness limit exceeded on test {0}"
    case 6 => "Memory limit exceeded on test {0}"
    case _ => "Internal error"
  }

  /** The text shown for a code, with a placeholder for the test number. */
  function Template(statusCode: int): string {
    if statusCode == QUEUED then "Queued..."
    else if statusCode == CHECKING then "Checking..."
    else if statusCode == ACCEPTED then "Accepted"
    else if statusCode == COMPILATION_ERROR then "Compilation error"
    else if -2000 < statusCode < -1000 then FailureTemplate(1)
    else if -3000 < statusCode < -2000 then FailureTemplate(2)
    else if -4000 < statusCode < -3000 then FailureTemplate(3)
    else if -5000 < statusCode < -4000 then FailureTemplate(4)
    else if -6000 < statusCode < -5000 then FailureTemplate(5)
    else if -7000 < statusCode < -6000 then FailureTemplate(6)
    else FailureTemplate(0)
  }

  /** The remainder of a division that truncates towards zero; it takes the sign of the dividend. */
  function TruncatedRemainder(x: int, y: int): int
    requires y > 0
  {
    if x >= 0 then x % y else -((-x) % y)
  }

  function TestNumber(statusCode: int): int {
    TruncatedRemainder(-statusCode, 1000)
  }

  /** Exactly the tests 1 to 999 can carry a verdict, and only a verdict that a running test can produce. */
  lemma CodeExists(status: CheckerResultStatus, test: int)
    ensures MakeStatusCode(status, Some(test)).Some?
       <==> status == InternalError || (1 <= test <= 999 && status != Accepted && status != CompilationError)
  {
  }

  /**
   Decoding inverts encoding: the shown template identifies the verdict among all verdicts a code can carry,
   and the shown number is the test's, except that an internal error always shows 10.
   */
  lemma DecodingInvertsEncoding(status: CheckerResultStatus, test: int, other: CheckerResultStatus, otherTest: int)
    requires MakeStatusCode(status, Some(test)).Some? && MakeStatusCode(other, Some(otherTest)).Some?
    ensures
      var code, otherCode := MakeStatusCode(status, Some(test)).value, MakeStatusCode(other, Some(otherTest)).value;
      && (Template(code) == Template(otherCode) <==> status == other)
      && (TestNumber(code) == test <==> status != InternalError || test == 10)
      && (code == otherCode <==> status == other && (test == otherTest || status == InternalError))
  {
    hide Template, MakeStatusCode;
    CodeParts(status, test);
    CodeParts(other, otherTest);
    TemplatesDiffer(MakeStatusCode(status, Some(test)).value, MakeStatusCode(other, Some(otherTest)).value);
  }

  function Thousands(status: CheckerResultStatus): int {
    match status
    case WrongAnswer => 1
    case TimeLimit => 2
    case RuntimeError => 3
    case PresentationError => 4
    case IdlenessLimit => 5
    case MemoryLimit => 6
    case InternalError => 0
    case CompilationError => -1
    case Accepted => -2
  }

  lemma CodeParts(status: CheckerResultStatus, test: int)
    requires MakeStatusCode(status, Some(test)).Some?
    ensures var code := MakeStatusCode(status, Some(test)).value;
      && Thousands(status) >= 0
      && code == (if status == InternalError then -10 else -1000 * Thousands(status) - test)
      && Block(code) == Thousands(status)
      && TestNumber(code) == (if status == InternalError then 10 else test)
      && (status != InternalError ==> 1 <= test <= 999)
  {
  }

  lemma TemplateOfCode(code: int)
    requires code <= -10
    ensures Template(code) == FailureTemplate(Block(code)) && 0 <= Block(code) <= 6
  {
    hide FailureTemplate;
  }

  /** The templates differ already in their lengths. */
  lemma TemplateLength(block: int)
    requires 0 <= block <= 6
    ensures |FailureTemplate(block)| == [14, 24, 31, 25, 30, 35, 33][block]
  {
  }

  /** Two codes show the same template exactly when they fall in the same range. */
  lemma TemplatesDiffer(c: int, d: int)
    requires c <= -10 && d <= -10
    ensures Template(c) == Template(d) <==> Block(c) == Block(d)
  {
    hide Template, FailureTemplate, Block;
    TemplateOfCode(c);
    TemplateOfCode(d);
    TemplateLength(Block(c));
    TemplateLength(Block(d));
  }

  function Block(code: int): int {
    if code % 1000 != 0 && -7000 < code < -1000 then (-code) / 1000 else 0
  }

  lemma TemplateRanges(test: int)
    requires 1 <= test <= 999
    ensures forall block :: 1 <= block <= 6 ==> Template(-1000 * block - test) == FailureTemplate(block)
    ensures Template(-10) == FailureTemplate(0)
  {
    hide FailureTemplate;
  }

  /** The stored code of a failed test, and the text that is shown for it. */
  lemma StoredFailures(test: int)
    requires 1 <= test <= 999
    ensures MakeStatusCode(WrongAnswer, Some(test)) == Some(-1000 - test) && Template(-1000 - test) == "Wrong answer on test {0}"
    ensures MakeStatusCode(RuntimeError, Some(test)) == Some(-3000 - test) && Template(-3000 - test) == "Runtime error on test {0}"
    ensures MakeStatusCode(PresentationError, Some(test)) == Some(-4000 - test)
         && Template(-4000 - test) == "Presentation error on test {0}"
  {
    hide Template;
    TemplateRanges(test);
    assert Template(-1000 * 1 - test) == FailureTemplate(1) && Template(-1000 * 3 - test) == FailureTemplate(3);
    assert Template(-1000 * 4 - test) == FailureTemplate(4);
  }

  /** The same for a test that hit a limit. */
  lemma StoredLimits(test: int)
    requires 1 <= test <= 999
    ensures MakeStatusCode(TimeLimit, Some(test)) == Some(-2000 - test) && Template(-2000 - test) == "Time limit exceeded on test {0}"
    ensures MakeStatusCode(IdlenessLimit, Some(test)) == Some(-5000 - test)
         && Template(-5000 - test) == "Idleness limit exceeded on test {0}"
    ensures MakeStatusCode(MemoryLimit, Some(test)) == Some(-6000 - test)
         && Template(-6000 - test) == "Memory limit exceeded on test {0}"
  {
    hide Template;
    TemplateRanges(test);
    assert Template(-1000 * 2 - test) == FailureTemplate(2) && Template(-1000 * 5 - test) == FailureTemplate(5);
    assert Template(-1000 * 6 - test) == FailureTemplate(6);
  }

  /** The codes and texts that tell no test. */
  lemma StoredWithoutTest(test: Option<int>)
    ensures MakeStatusCode(InternalError, test) == Some(-10) && Template(-10) == "Internal error"
    ensures MakeStatusCode(CompilationError, None) == Some(-1) && Template(-1) == "Compilation error"
    ensures MakeStatusCode(Accepted, None) == Some(2) && Template(2) == "Accepted"
    ensures Template(0) == "Queued..." && Template(1) == "Checking..."
  {
  }

  /** A verdict on a test is never one of the codes reserved for waiting, checking, accepted or compilation error. */
  lemma FailureCodesAreReserved(status: CheckerResultStatus, test: int)
    requires MakeStatusCode(status, Some(test)).Some?
    ensures MakeStatusCode(status, Some(test)).value !in {0, 1, 2, -1}
    ensures {QUEUED, CHECKING, ACCEPTED, COMPILATION_ERROR} == {0, 1, 2, -1}
  {
  }
}
