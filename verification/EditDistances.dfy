/**
 The edit distance behind the plagiarism report: a dynamic program that keeps a single row and
 overwrites it in place. It is proved to return the least cost of turning one text into the other by
 any sequence of single-character edits, to be a metric, and to measure the longest common subsequence.

 Costs are integers: the callers only use the costs 1 and 2, and `DistanceRange` bounds every
 intermediate value by the total length of the two texts.
 */
module EditDistances {
  import opened Options
  import opened Arithmetic

  function Substitution(x: char, y: char, replaceCost: int): int {
    if x != y then replaceCost else 0
  }

  /** The recurrence that the row encodes: the cell reached after all of `a` and all of `b`. */
  function Distance(a: string, b: string, insertCost: int, replaceCost: int): int
    decreases |a| + |b|
  {
    if |a| == 0 then |b|
    else if |b| == 0 then |a|
    else
      var i, j := |a| - 1, |b| - 1;
      Min(Min(Distance(a[..i], b, insertCost, replaceCost), Distance(a, b[..j], insertCost, replaceCost)) + insertCost,
          Distance(a[..i], b[..j], insertCost, replaceCost) + Substitution(a[i], b[j], replaceCost))
  }

  /** The cell of the full table for the first `i` and the first `j` characters. */
  ghost function Cell(a: string, b: string, i: nat, j: nat, insertCost: int, replaceCost: int): int
    requires i <= |a| && j <= |b|
  {
    Distance(a[..i], b[..j], insertCost, replaceCost)
  }

  lemma CellStep(a: string, b: string, i: nat, j: nat, insertCost: int, replaceCost: int)
    requires i < |a| && j < |b|
    ensures Cell(a, b, i + 1, j + 1, insertCost, replaceCost)
         == Min(Min(Cell(a, b, i, j + 1, insertCost, replaceCost), Cell(a, b, i + 1, j, insertCost, replaceCost)) + insertCost,
                Cell(a, b, i, j, insertCost, replaceCost) + Substitution(a[i], b[j], replaceCost))
  {
    assert a[..i + 1][..i] == a[..i];
    assert b[..j + 1][..j] == b[..j];
  }

  /** The one-row dynamic program. */
  method LevenshteinDistance(source1: string, source2: string, insertCost: int := 1, replaceCost: int := 1)
    returns (d: int)
    ensures d == Distance(source1, source2, insertCost, replaceCost)
    ensures insertCost == 1 && replaceCost >= 0 ==> IsLeastCost(d, source1, source2, 1, replaceCost)
  {
    var row := new int[|source2| + 1];
    for j := 0 to |source2| + 1
      invariant forall k :: 0 <= k < j ==> row[k] == k
    {
      row[j] := j;
    }

    for i := 0 to |source1|
      invariant forall k :: 0 <= k <= |source2| ==> row[k] == Cell(source1, source2, i, k, insertCost, replaceCost)
    {
      row[0] := i + 1;
      var prevAbove, prevDiag := i, 0;
      for j := 0 to |source2|
        invariant prevAbove == Cell(source1, source2, i, j, insertCost, replaceCost)
        invariant forall k :: 0 <= k <= j ==> row[k] == Cell(source1, source2, i + 1, k, insertCost, replaceCost)
        invariant forall k :: j < k <= |source2| ==> row[k] == Cell(source1, source2, i, k, insertCost, replaceCost)
      {
        CellStep(source1, source2, i, j, insertCost, replaceCost);
        prevDiag, prevAbove := prevAbove, row[j + 1];
        row[j + 1] := Min(Min(prevAbove, row[j]) + insertCost,
                          prevDiag + (if source1[i] != source2[j] then replaceCost else 0));
      }
    }

    assert source1[..|source1|] == source1 && source2[..|source2|] == source2;
    if insertCost == 1 && replaceCost >= 0 {
      DistanceIsLeastCost(source1, source2, replaceCost);
    }
    return row[|source2|];
  }

  // ---------- Edit scripts: the independent meaning of the distance ----------

  /** One edit at a position counted from the front of the current text. */
  datatype Edit = Insert(pos: nat, c: char) | Delete(pos: nat) | Replace(pos: nat, c: char)
  {
    predicate Applies(s: string) {
      if Insert? then pos <= |s| else pos < |s|
    }

    function Apply(s: string): string
      requires Applies(s)
    {
      match this
      case Insert(p, c) => s[..p] + [c] + s[p..]
      case Delete(p) => s[..p] + s[p + 1..]
      case Replace(p, c) => s[..p] + [c] + s[p + 1..]
    }

    function Cost(insertCost: int, replaceCost: int): int {
      if Replace? then replaceCost else insertCost
    }
  }

  /** Runs the edits left to right; None when one of them is out of range. */
  function Run(script: seq<Edit>, s: string): Option<string> {
    if script == [] then Some(s)
    else if script[0].Applies(s) then Run(script[1..], script[0].Apply(s))
    else None
  }

  function ScriptCost(script: seq<Edit>, insertCost: int, replaceCost: int): int {
    if script == [] then 0
    else script[0].Cost(insertCost, replaceCost) + ScriptCost(script[1..], insertCost, replaceCost)
  }

  /** `d` is the cost of some script from `a` to `b`, and no script from `a` to `b` is cheaper. */
  ghost predicate IsLeastCost(d: int, a: string, b: string, insertCost: int, replaceCost: int) {
    && (exists script :: Run(script, a) == Some(b) && ScriptCost(script, insertCost, replaceCost) == d)
    && (forall script :: Run(script, a) == Some(b) ==> d <= ScriptCost(script, insertCost, replaceCost))
  }

  lemma {:induction false} RunConcat(s: seq<Edit>, t: seq<Edit>, a: string, b: string)
    requires Run(s, a) == Some(b)
    ensures Run(s + t, a) == Run(t, b)
    ensures forall ic, rc :: ScriptCost(s + t, ic, rc) == ScriptCost(s, ic, rc) + ScriptCost(t, ic, rc)
  {
    if s == [] {
      assert s + t == t;
    } else {
      assert (s + t)[1..] == s[1..] + t;
      RunConcat(s[1..], t, s[0].Apply(a), b);
    }
  }

  /** A script leaves any common tail alone. */
  lemma {:induction false} RunWithTail(script: seq<Edit>, a: string, b: string, tail: string)
    requires Run(script, a) == Some(b)
    ensures Run(script, a + tail) == Some(b + tail)
  {
    if script != [] {
      var e := script[0];
      assert e.Apply(a + tail) == e.Apply(a) + tail;
      RunWithTail(script[1..], e.Apply(a), b, tail);
    }
  }

  lemma RunOne(e: Edit, s: string)
    requires e.Applies(s)
    ensures Run([e], s) == Some(e.Apply(s))
    ensures forall ic, rc :: ScriptCost([e], ic, rc) == e.Cost(ic, rc)
  {
    assert [e][1..] == [];
  }

  lemma ThenInsert(script: seq<Edit>, a: string, b: string, c: char, rc: int) returns (longer: seq<Edit>)
    requires Run(script, a) == Some(b)
    ensures Run(longer, a) == Some(b + [c])
    ensures ScriptCost(longer, 1, rc) == ScriptCost(script, 1, rc) + 1
  {
    var e := Insert(|b|, c);
    RunOne(e, b);
    RunConcat(script, [e], a, b);
    longer := script + [e];
    assert e.Apply(b) == b + [c];
  }

  lemma AfterDelete(script: seq<Edit>, a: string, b: string, c: char, rc: int) returns (longer: seq<Edit>)
    requires Run(script, a) == Some(b)
    ensures Run(longer, a + [c]) == Some(b)
    ensures ScriptCost(longer, 1, rc) == ScriptCost(script, 1, rc) + 1
  {
    var e := Delete(|a|);
    RunOne(e, a + [c]);
    assert e.Apply(a + [c]) == a;
    RunConcat([e], script, a + [c], a);
    longer := [e] + script;
  }

  lemma ThenMatch(script: seq<Edit>, a: string, b: string, x: char, y: char, rc: int) returns (longer: seq<Edit>)
    requires Run(script, a) == Some(b)
    ensures Run(longer, a + [x]) == Some(b + [y])
    ensures ScriptCost(longer, 1, rc) == ScriptCost(script, 1, rc) + Substitution(x, y, rc)
  {
    RunWithTail(script, a, b, [x]);
    if x == y {
      return script;
    }
    var e := Replace(|b|, y);
    RunOne(e, b + [x]);
    assert e.Apply(b + [x]) == b + [y];
    RunConcat(script, [e], a + [x], b + [x]);
    longer := script + [e];
  }

  /** A script of exactly the cost that the recurrence computes. */
  lemma {:induction false} CheapestScript(a: string, b: string, rc: int) returns (script: seq<Edit>)
    ensures Run(script, a) == Some(b)
    ensures ScriptCost(script, 1, rc) == Distance(a, b, 1, rc)
    decreases |a| + |b|
  {
    if |a| == 0 && |b| == 0 {
      return [];
    }
    var i, j := |a| - 1, |b| - 1;
    if |a| > 0 {
      assert a == a[..i] + [a[i]];
    }
    if |b| > 0 {
      assert b == b[..j] + [b[j]];
    }
    if |a| > 0 && (|b| == 0 || Distance(a, b, 1, rc) == Distance(a[..i], b, 1, rc) + 1) {
      script := CheapestScript(a[..i], b, rc);
      script := AfterDelete(script, a[..i], b, a[i], rc);
    } else if |a| == 0 || Distance(a, b, 1, rc) == Distance(a, b[..j], 1, rc) + 1 {
      script := CheapestScript(a, b[..j], rc);
      script := ThenInsert(script, a, b[..j], b[j], rc);
    } else {
      script := CheapestScript(a[..i], b[..j], rc);
      script := ThenMatch(script, a[..i], b[..j], a[i], b[j], rc);
    }
  }

  /** A text differs from itself by nothing, and a common tail never adds to the distance. */
  lemma {:induction false} CommonTail(a: string, b: string, tail: string, rc: int)
    ensures Distance(a + tail, b + tail, 1, rc) <= Distance(a, b, 1, rc)
  {
    if tail == [] {
      assert a + tail == a && b + tail == b;
    } else {
      var k := |tail| - 1;
      assert (a + tail)[..|a| + k] == a + tail[..k];
      assert (b + tail)[..|b| + k] == b + tail[..k];
      CommonTail(a, b, tail[..k], rc);
    }
  }

  lemma SameTextIsFree(s: string, rc: int)
    ensures Distance(s, s, 1, rc) <= 0
  {
    CommonTail([], [], s, rc);
    assert [] + s == s;
  }

  /** Appending one character costs one, in either direction, and exchanging the last one costs one replacement. */
  lemma LastCharacter(head: string, x: char, y: char, rc: int)
    requires rc >= 0
    ensures Distance(head, head + [x], 1, rc) <= 1
    ensures Distance(head + [x], head, 1, rc) <= 1
    ensures Distance(head + [x], head + [y], 1, rc) <= rc
  {
    var n := |head|;
    SameTextIsFree(head, rc);
    assert (head + [x])[..n] == head && (head + [y])[..n] == head;
    assert (head + [x])[n] == x && (head + [y])[n] == y;
  }

  lemma InnerCharacter(head: string, x: char, y: char, tail: string, rc: int)
    requires rc >= 0
    ensures Distance(head + tail, head + [x] + tail, 1, rc) <= 1
    ensures Distance(head + [x] + tail, head + tail, 1, rc) <= 1
    ensures Distance(head + [x] + tail, head + [y] + tail, 1, rc) <= rc
  {
    hide Distance;
    LastCharacter(head, x, y, rc);
    CommonTail(head, head + [x], tail, rc);
    CommonTail(head + [x], head, tail, rc);
    CommonTail(head + [x], head + [y], tail, rc);
  }

  lemma EditMovesAtMostItsCost(e: Edit, s: string, rc: int)
    requires rc >= 0 && e.Applies(s)
    ensures Distance(s, e.Apply(s), 1, rc) <= e.Cost(1, rc)
  {
    hide Distance;
    var head := s[..e.pos];
    match e
    case Insert(p, c) =>
      InnerCharacter(head, c, c, s[p..], rc);
      assert head + s[p..] == s;
    case Delete(p) =>
      InnerCharacter(head, s[p], s[p], s[p + 1..], rc);
      assert head + [s[p]] + s[p + 1..] == s;
    case Replace(p, c) =>
      InnerCharacter(head, s[p], c, s[p + 1..], rc);
      assert head + [s[p]] + s[p + 1..] == s;
  }

  /** The range of every cell, hence of every row entry: between the length difference and the total length. */
  lemma {:induction false} DistanceRange(a: string, b: string, rc: int)
    requires rc >= 0
    ensures Max(|a| - |b|, |b| - |a|) <= Distance(a, b, 1, rc) <= |a| + |b|
    decreases |a| + |b|
  {
    if |a| > 0 && |b| > 0 {
      DistanceRange(a[..|a| - 1], b, rc);
      DistanceRange(a, b[..|b| - 1], rc);
      DistanceRange(a[..|a| - 1], b[..|b| - 1], rc);
    }
  }

  lemma {:induction false} DistanceSymmetric(a: string, b: string, rc: int)
    ensures Distance(a, b, 1, rc) == Distance(b, a, 1, rc)
    decreases |a| + |b|
  {
    if |a| > 0 && |b| > 0 {
      DistanceSymmetric(a[..|a| - 1], b, rc);
      DistanceSymmetric(a, b[..|b| - 1], rc);
      DistanceSymmetric(a[..|a| - 1], b[..|b| - 1], rc);
    }
  }

  lemma {:induction false} DistanceTriangle(a: string, b: string, c: string, rc: int)
    requires rc >= 0
    ensures Distance(a, c, 1, rc) <= Distance(a, b, 1, rc) + Distance(b, c, 1, rc)
    decreases |a| + |b| + |c|
  {
    DistanceRange(a, b, rc);
    DistanceRange(b, c, rc);
    DistanceRange(a, c, rc);
    if |a| > 0 && |b| > 0 && |c| > 0 {
      var a', b', c' := a[..|a| - 1], b[..|b| - 1], c[..|c| - 1];
      DistanceTriangle(a', b, c, rc);
      DistanceTriangle(a, b, c', rc);
      DistanceTriangle(a, b', c, rc);
      DistanceTriangle(a, b', c', rc);
      DistanceTriangle(a', b', c, rc);
      DistanceTriangle(a', b', c', rc);
    }
  }

  lemma {:induction false} DistanceZero(a: string, b: string, rc: int)
    requires rc > 0
    ensures Distance(a, b, 1, rc) == 0 <==> a == b
    decreases |a| + |b|
  {
    if |a| > 0 && |b| > 0 {
      var a', b' := a[..|a| - 1], b[..|b| - 1];
      assert a == a' + [a[|a| - 1]] && b == b' + [b[|b| - 1]];
      DistanceRange(a', b, rc);
      DistanceRange(a, b', rc);
      DistanceRange(a', b', rc);
      DistanceZero(a', b', rc);
    }
  }

  lemma {:induction false} NoScriptIsCheaper(script: seq<Edit>, a: string, b: string, rc: int)
    requires rc >= 0 && Run(script, a) == Some(b)
    ensures Distance(a, b, 1, rc) <= ScriptCost(script, 1, rc)
  {
    if script == [] {
      CommonTail([], [], a, rc);
      assert [] + a == a;
    } else {
      var next := script[0].Apply(a);
      EditMovesAtMostItsCost(script[0], a, rc);
      NoScriptIsCheaper(script[1..], next, b, rc);
      DistanceTriangle(a, next, b, rc);
    }
  }

  /** With unit insertions the dynamic program computes the optimum over all edit scripts. */
  lemma DistanceIsLeastCost(a: string, b: string, rc: int)
    requires rc >= 0
    ensures IsLeastCost(Distance(a, b, 1, rc), a, b, 1, rc)
  {
    var script := CheapestScript(a, b, rc);
    forall s | Run(s, a) == Some(b) ensures Distance(a, b, 1, rc) <= ScriptCost(s, 1, rc) {
      NoScriptIsCheaper(s, a, b, rc);
    }
  }

  lemma {:induction false} ScriptCostNonNegative(script: seq<Edit>, ic: int, rc: int)
    requires ic >= 0 && rc >= 0
    ensures ScriptCost(script, ic, rc) >= 0
  {
    if script != [] {
      ScriptCostNonNegative(script[1..], ic, rc);
    }
  }

  /**
   The row is initialised with `j`, not with `j * insertCost`: the program meets its specification on all
   texts exactly for unit insertions. Already the empty text against one character fails otherwise.
   */
  lemma LeastCostExactlyForUnitInsertions(ic: int, rc: int)
    requires ic >= 0 && rc >= 0
    ensures (forall a, b :: IsLeastCost(Distance(a, b, ic, rc), a, b, ic, rc)) <==> ic == 1
  {
    if ic == 1 {
      forall a, b ensures IsLeastCost(Distance(a, b, ic, rc), a, b, ic, rc) {
        DistanceIsLeastCost(a, b, rc);
      }
    } else {
      OneCharacterFails(ic, rc);
    }
  }

  lemma OneCharacterFails(ic: int, rc: int)
    requires ic >= 0 && rc >= 0 && ic != 1
    ensures !IsLeastCost(Distance("", "x", ic, rc), "", "x", ic, rc)
  {
    RunOne(Insert(0, 'x'), "");
    assert Insert(0, 'x').Apply("") == "x";
    forall script | Run(script, "") == Some("x") ensures ScriptCost(script, ic, rc) >= ic {
      ScriptCostNonNegative(script[1..], ic, rc);
    }
  }

  // ---------- Similarities ----------

  lemma {:induction false} DistanceWithinLonger(a: string, b: string)
    ensures Distance(a, b, 1, 1) <= Max(|a|, |b|)
    decreases |a| + |b|
  {
    if |a| > 0 && |b| > 0 {
      DistanceWithinLonger(a[..|a| - 1], b[..|b| - 1]);
    }
  }

  function Similarity(a: string, b: string): real {
    if |a| == 0 && |b| == 0 then 0.0
    else 1.0 - Distance(a, b, 1, 1) as real / Max(|a|, |b|) as real
  }

  lemma LeastCostIsUnique(d: int, e: int, a: string, b: string)
    requires IsLeastCost(d, a, b, 1, 1) && IsLeastCost(e, a, b, 1, 1)
    ensures d == e
  {
  }

  /** The share of the longer text that a cheapest script leaves alone; 0 when it leaves nothing alone. */
  lemma SimilarityIsShareKept(a: string, b: string, d: int)
    requires IsLeastCost(d, a, b, 1, 1) && |a| + |b| > 0
    ensures Similarity(a, b) * Max(|a|, |b|) as real == (Max(|a|, |b|) - d) as real
    ensures Similarity(a, b) == 0.0 <==> d == Max(|a|, |b|)
  {
    hide IsLeastCost, Distance;
    DistanceIsLeastCost(a, b, 1);
    LeastCostIsUnique(d, Distance(a, b, 1, 1), a, b);
    DistanceRange(a, b, 1);
    DistanceWithinLonger(a, b);
    DivideReal(d as real, Max(|a|, |b|) as real);
  }

  method LevenshteinSimilarity(source1: string, source2: string) returns (r: real)
    ensures r == Similarity(source1, source2)
    ensures source1 == [] && source2 == [] ==> r == 0.0
    ensures source1 != [] || source2 != [] ==> forall d :: IsLeastCost(d, source1, source2, 1, 1) ==>
              && r * Max(|source1|, |source2|) as real == (Max(|source1|, |source2|) - d) as real
              && (r == 0.0 <==> d == Max(|source1|, |source2|))
  {
    hide IsLeastCost, Distance;
    if |source1| == 0 && |source2| == 0 {
      return 0.0;
    }
    forall d | IsLeastCost(d, source1, source2, 1, 1)
      ensures Similarity(source1, source2) * Max(|source1|, |source2|) as real == (Max(|source1|, |source2|) - d) as real
      ensures Similarity(source1, source2) == 0.0 <==> d == Max(|source1|, |source2|)
    {
      SimilarityIsShareKept(source1, source2, d);
    }
    var d := LevenshteinDistance(source1, source2);
    return 1.0 - d as real / Max(|source1|, |source2|) as real;
  }

  lemma Cancel(p: real, q: real, n: real)
    requires n > 0.0 && p * n == q * n
    ensures p == q
  {
    assert (p - q) * n == 0.0;
  }

  lemma DivideReal(x: real, n: real)
    requires 0.0 < n && 0.0 <= x <= n
    ensures 0.0 <= x / n <= 1.0
    ensures x / n == 0.0 <==> x == 0.0
    ensures 1.0 - x / n == (n - x) / n
  {
    var q := x / n;
    assert q * n == x;
    assert (1.0 - q) * n == n - x;
    Cancel(1.0 - q, (n - x) / n, n);
  }

  /** A proportion between 0 and 1, the same in both directions, and 1 exactly for equal non-empty texts. */
  lemma SimilarityIsProportion(a: string, b: string)
    ensures 0.0 <= Similarity(a, b) <= 1.0
    ensures Similarity(a, b) == Similarity(b, a)
    ensures Similarity(a, b) == 1.0 <==> a == b && a != []
  {
    DistanceSymmetric(a, b, 1);
    if |a| > 0 || |b| > 0 {
      DistanceRange(a, b, 1);
      DistanceWithinLonger(a, b);
      DistanceZero(a, b, 1);
      DivideReal(Distance(a, b, 1, 1) as real, Max(|a|, |b|) as real);
    }
  }

  // ---------- Longest common subsequence ----------

  predicate IsSubsequence(s: string, t: string) {
    s == []
    || (t != []
        && (IsSubsequence(s, t[..|t| - 1])
            || (s[|s| - 1] == t[|t| - 1] && IsSubsequence(s[..|s| - 1], t[..|t| - 1]))))
  }

  function Lcs(a: string, b: string): nat
    decreases |a| + |b|
  {
    if |a| == 0 || |b| == 0 then 0
    else
      var a', b' := a[..|a| - 1], b[..|b| - 1];
      if a[|a| - 1] == b[|b| - 1] then Lcs(a', b') + 1
      else Max(Lcs(a', b), Lcs(a, b'))
  }

  lemma {:induction false} DropLast(s: string, t: string)
    requires s != [] && IsSubsequence(s, t)
    ensures IsSubsequence(s[..|s| - 1], t[..|t| - 1])
    decreases |t|
  {
    var s', t' := s[..|s| - 1], t[..|t| - 1];
    if IsSubsequence(s, t') && s' != [] {
      DropLast(s, t');
      Weaken(s', t');
    }
  }

  lemma Weaken(s: string, t: string)
    requires t != [] && IsSubsequence(s, t[..|t| - 1])
    ensures IsSubsequence(s, t)
  {
  }

  lemma {:induction false} CommonSubsequenceWithinLcs(s: string, a: string, b: string)
    requires IsSubsequence(s, a) && IsSubsequence(s, b)
    ensures |s| <= Lcs(a, b)
    decreases |a| + |b|
  {
    if s != [] {
      var s', a', b' := s[..|s| - 1], a[..|a| - 1], b[..|b| - 1];
      if a[|a| - 1] == b[|b| - 1] {
        DropLast(s, a);
        DropLast(s, b);
        CommonSubsequenceWithinLcs(s', a', b');
      } else if IsSubsequence(s, a') {
        CommonSubsequenceWithinLcs(s, a', b);
      } else {
        CommonSubsequenceWithinLcs(s, a, b');
      }
    }
  }

  lemma KeepLast(s: string, t: string, c: char)
    requires IsSubsequence(s, t)
    ensures IsSubsequence(s + [c], t + [c])
  {
    assert (s + [c])[..|s|] == s && (t + [c])[..|t|] == t;
  }

  lemma {:induction false} LongestCommonSubsequence(a: string, b: string) returns (s: string)
    ensures IsSubsequence(s, a) && IsSubsequence(s, b) && |s| == Lcs(a, b)
    decreases |a| + |b|
  {
    if |a| == 0 || |b| == 0 {
      return [];
    }
    hide IsSubsequence;
    var i, j := |a| - 1, |b| - 1;
    if a[i] == b[j] {
      s := LongestCommonSubsequence(a[..i], b[..j]);
      KeepLast(s, a[..i], a[i]);
      KeepLast(s, b[..j], b[j]);
      assert a == a[..i] + [a[i]] && b == b[..j] + [b[j]];
      s := s + [a[i]];
    } else if Lcs(a[..i], b) >= Lcs(a, b[..j]) {
      s := LongestCommonSubsequence(a[..i], b);
      Weaken(s, a);
    } else {
      s := LongestCommonSubsequence(a, b[..j]);
      Weaken(s, b);
    }
  }

  /** `Lcs` is the greatest length of a text that is a subsequence of both. */
  lemma LcsIsMaximum(a: string, b: string)
    ensures exists s :: IsSubsequence(s, a) && IsSubsequence(s, b) && |s| == Lcs(a, b)
    ensures forall s :: IsSubsequence(s, a) && IsSubsequence(s, b) ==> |s| <= Lcs(a, b)
  {
    var w := LongestCommonSubsequence(a, b);
    forall s | IsSubsequence(s, a) && IsSubsequence(s, b) ensures |s| <= Lcs(a, b) {
      CommonSubsequenceWithinLcs(s, a, b);
    }
  }

  lemma OneShorter(a: string, b: string, rc: int)
    requires rc >= 0 && b != []
    ensures Distance(a, b[..|b| - 1], 1, rc) <= Distance(a, b, 1, rc) + 1
  {
    hide Distance;
    var b' := b[..|b| - 1];
    LastCharacter(b', b[|b| - 1], b[|b| - 1], rc);
    assert b == b' + [b[|b| - 1]];
    DistanceTriangle(a, b, b', rc);
  }

  /** Equal last characters can always be kept. */
  lemma MatchingLast(a: string, b: string, rc: int)
    requires rc >= 0 && a != [] && b != [] && a[|a| - 1] == b[|b| - 1]
    ensures Distance(a, b, 1, rc) == Distance(a[..|a| - 1], b[..|b| - 1], 1, rc)
  {
    var a', b' := a[..|a| - 1], b[..|b| - 1];
    OneShorter(a', b, rc);
    OneShorter(b', a, rc);
    DistanceSymmetric(b', a, rc);
    DistanceSymmetric(b', a', rc);
  }

  /** When a replacement costs as much as a deletion and an insertion, the distance counts unmatched characters. */
  lemma {:induction false} DistanceCountsUnmatched(a: string, b: string, rc: int)
    requires rc >= 2
    ensures Distance(a, b, 1, rc) == |a| + |b| - 2 * Lcs(a, b)
    decreases |a| + |b|
  {
    if |a| > 0 && |b| > 0 {
      var a', b' := a[..|a| - 1], b[..|b| - 1];
      DistanceCountsUnmatched(a', b', rc);
      if a[|a| - 1] == b[|b| - 1] {
        MatchingLast(a, b, rc);
      } else {
        DistanceCountsUnmatched(a', b, rc);
        DistanceCountsUnmatched(a, b', rc);
        OneShorter(a', b, rc);
      }
    }
  }

  function LcsSimilarity(a: string, b: string): real {
    if |a| == 0 && |b| == 0 then 0.0
    else 1.0 - Distance(a, b, 1, 2) as real / (|a| + |b|) as real
  }

  /** `s` is a common subsequence, and none is longer. */
  ghost predicate IsLongestCommon(s: string, a: string, b: string) {
    && IsSubsequence(s, a) && IsSubsequence(s, b)
    && forall t :: IsSubsequence(t, a) && IsSubsequence(t, b) ==> |t| <= |s|
  }

  method LongestCommonSubsequenceSimilarity(source1: string, source2: string) returns (r: real)
    ensures r == LcsSimilarity(source1, source2)
    ensures source1 == [] && source2 == [] ==> r == 0.0
    ensures source1 != [] || source2 != [] ==> forall s :: IsLongestCommon(s, source1, source2) ==>
              r == (2 * |s|) as real / (|source1| + |source2|) as real
  {
    hide IsLongestCommon, Distance, Lcs;
    if |source1| == 0 && |source2| == 0 {
      return 0.0;
    }
    forall s | IsLongestCommon(s, source1, source2)
      ensures LcsSimilarity(source1, source2) == (2 * |s|) as real / (|source1| + |source2|) as real
    {
      LongestIsCovered(s, source1, source2);
    }
    var d := LevenshteinDistance(source1, source2, replaceCost := 2);
    return 1.0 - d as real / (|source1| + |source2|) as real;
  }

  lemma LongestIsCovered(s: string, a: string, b: string)
    requires IsLongestCommon(s, a, b) && |a| + |b| > 0
    ensures LcsSimilarity(a, b) == (2 * |s|) as real / (|a| + |b|) as real
  {
    hide Lcs, IsSubsequence, LcsSimilarity, IsLongestCommon;
    LongestHasLcsLength(s, a, b);
    LcsSimilarityIsCoverage(a, b);
  }

  lemma LongestHasLcsLength(s: string, a: string, b: string)
    requires IsLongestCommon(s, a, b)
    ensures |s| == Lcs(a, b)
  {
    hide Lcs, IsSubsequence;
    LcsIsMaximum(a, b);
  }

  /** The share of all characters that the longest common subsequence covers. */
  lemma LcsSimilarityIsCoverage(a: string, b: string)
    requires |a| + |b| > 0
    ensures LcsSimilarity(a, b) == (2 * Lcs(a, b)) as real / (|a| + |b|) as real
  {
    hide Distance, Lcs;
    DistanceCountsUnmatched(a, b, 2);
    DistanceRange(a, b, 2);
    DivideReal(Distance(a, b, 1, 2) as real, (|a| + |b|) as real);
  }

  lemma LcsSimilarityIsProportion(a: string, b: string)
    ensures 0.0 <= LcsSimilarity(a, b) <= 1.0
    ensures LcsSimilarity(a, b) == LcsSimilarity(b, a)
    ensures LcsSimilarity(a, b) == 1.0 <==> a == b && a != []
  {
    hide Distance;
    DistanceSymmetric(a, b, 2);
    DistanceRange(a, b, 2);
    DistanceZero(a, b, 2);
    if |a| + |b| > 0 {
      DivideReal(Distance(a, b, 1, 2) as real, (|a| + |b|) as real);
    }
  }
}
