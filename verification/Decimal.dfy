/** Decimal notation of integers: printing, padding and parsing back. */
module Decimal {
  import opened Options
  import Strings

  predicate IsDigit(c: char) {
    '0' <= c <= '9'
  }

  predicate AllDigits(s: string) {
    forall i :: 0 <= i < |s| ==> IsDigit(s[i])
  }

  function Digit(d: nat): (c: char)
    requires d < 10
    ensures IsDigit(c) && c as int - '0' as int == d
  {
    ('0' as int + d) as char
  }

  function Digits(n: nat): (s: string)
    ensures s != [] && AllDigits(s)
  {
    if n < 10 then [Digit(n)] else Digits(n / 10) + [Digit(n % 10)]
  }

  /** The number that digits denote; leading zeros do not matter. */
  function Value(s: string): nat
    requires AllDigits(s)
  {
    if s == [] then 0 else 10 * Value(s[..|s| - 1]) + (s[|s| - 1] as int - '0' as int)
  }

  lemma {:induction false} ValueOfDigits(n: nat)
    ensures Value(Digits(n)) == n
  {
    var s := Digits(n);
    if n < 10 {
      assert s[..|s| - 1] == [];
    } else {
      ValueOfDigits(n / 10);
      assert s[..|s| - 1] == Digits(n / 10) && s[|s| - 1] == Digit(n % 10);
    }
  }

  /** Pads with zeros to at least three digits. */
  function Padded(n: nat): (s: string)
    ensures |s| >= 3 && AllDigits(s)
  {
    var s := Digits(n);
    if |s| == 1 then ['0', '0'] + s else if |s| == 2 then ['0'] + s else s
  }

  lemma {:induction false} LeadingZero(s: string)
    requires AllDigits(s)
    ensures AllDigits(['0'] + s) && Value(['0'] + s) == Value(s)
  {
    var t := ['0'] + s;
    if s == [] {
      assert t[..0] == [];
    } else {
      LeadingZero(s[..|s| - 1]);
      assert t[..|t| - 1] == ['0'] + s[..|s| - 1];
    }
  }

  lemma {:induction false} DigitsLength(n: nat)
    ensures |Digits(n)| == 1 <==> n < 10
    ensures |Digits(n)| <= 2 <==> n < 100
    ensures |Digits(n)| <= 3 <==> n < 1000
  {
    if n >= 10 {
      DigitsLength(n / 10);
    }
  }

  /** Exactly three digits as long as that is enough, and no more than necessary beyond. */
  lemma PaddedLength(n: nat)
    ensures if n < 1000 then |Padded(n)| == 3 else Padded(n) == Print(n)
  {
    DigitsLength(n);
  }

  lemma ValueOfPadded(n: nat)
    ensures Value(Padded(n)) == n
  {
    var s := Digits(n);
    ValueOfDigits(n);
    LeadingZero(s);
    LeadingZero(['0'] + s);
    assert ['0'] + (['0'] + s) == ['0', '0'] + s;
  }

  // ---------- Signed integers of 32 bits ----------

  predicate IsInt32(n: int) {
    -0x8000_0000 <= n < 0x8000_0000
  }

  function Print(n: int): string {
    if n < 0 then ['-'] + Digits(-n) else Digits(n)
  }

  predicate IsPadding(c: char) {
    '\U{0009}' <= c <= '\U{000D}' || c == ' '
  }

  function TrimStart(s: string): string {
    if s != [] && IsPadding(s[0]) then TrimStart(s[1..]) else s
  }

  function TrimPadding(s: string): string {
    if s != [] && IsPadding(s[|s| - 1]) then TrimPadding(s[..|s| - 1]) else s
  }

  /** An optional sign and digits; None when malformed or out of range. */
  function ParseDigits(s: string): Option<int> {
    var negative := s != [] && s[0] == '-';
    var digits := if s != [] && (s[0] == '-' || s[0] == '+') then s[1..] else s;
    if digits == [] || !AllDigits(digits) then None
    else
      var n: int := if negative then 0 - Value(digits) else Value(digits);
      if IsInt32(n) then Some(n) else None
  }

  /** Parses an optional sign and digits between padding; NULs at the end are ignored. */
  function TryParse(text: string): Option<int> {
    ParseDigits(TrimPadding(TrimStart(Strings.TrimEnd(text, '\0'))))
  }

  /** What may surround a number. */
  ghost predicate IsSpace(s: string) {
    forall i :: 0 <= i < |s| ==> s[i] in {'\t', '\n', '\U{000B}', '\U{000C}', '\r', ' '}
  }

  ghost predicate IsNumber(sign: string, digits: string) {
    sign in {"", "+", "-"} && digits != "" && forall i :: 0 <= i < |digits| ==> '0' <= digits[i] <= '9'
  }

  /** One more digit multiplies by ten. */
  lemma ValueOneMore(digits: string, c: char)
    requires AllDigits(digits) && IsDigit(c)
    ensures AllDigits(digits + [c]) && Value(digits + [c]) == 10 * Value(digits) + (c as int - 48)
  {
    assert (digits + [c])[..|digits|] == digits;
  }

  lemma {:induction false} TrimStartOf(before: string, s: string)
    requires IsSpace(before) && s != [] && !IsPadding(s[0])
    ensures TrimStart(before + s) == s
  {
    if before == [] {
      assert before + s == s;
    } else {
      assert (before + s)[1..] == before[1..] + s;
      TrimStartOf(before[1..], s);
    }
  }

  lemma {:induction false} TrimPaddingOf(s: string, after: string)
    requires IsSpace(after) && s != [] && !IsPadding(s[|s| - 1])
    ensures TrimPadding(s + after) == s
  {
    if after == [] {
      assert s + after == s;
    } else {
      assert (s + after)[..|s + after| - 1] == s + after[..|after| - 1];
      TrimPaddingOf(s, after[..|after| - 1]);
    }
  }

  lemma SpaceAround(c: char, s: string)
    requires IsPadding(c) && IsSpace(s)
    ensures IsSpace([c] + s) && IsSpace(s + [c])
  {
  }

  lemma {:induction false} TrimmedStart(s: string) returns (before: string)
    ensures s == before + TrimStart(s) && IsSpace(before)
  {
    if s != [] && IsPadding(s[0]) {
      hide IsSpace, IsPadding;
      before := TrimmedStart(s[1..]);
      assert s == [s[0]] + s[1..];
      SpaceAround(s[0], before);
      before := [s[0]] + before;
    } else {
      before := [];
    }
  }

  lemma {:induction false} TrimmedPadding(s: string) returns (after: string)
    ensures s == TrimPadding(s) + after && IsSpace(after)
  {
    if s != [] && IsPadding(s[|s| - 1]) {
      hide IsSpace, IsPadding;
      after := TrimmedPadding(s[..|s| - 1]);
      SpaceAround(s[|s| - 1], after);
      assert s == s[..|s| - 1] + [s[|s| - 1]];
      after := after + [s[|s| - 1]];
    } else {
      after := [];
    }
  }

  lemma DigitIsVisible(c: char)
    requires '0' <= c <= '9' || c == '+' || c == '-'
    ensures !IsPadding(c) && c != '\0'
  {
  }

  lemma NumberIsVisible(sign: string, digits: string)
    requires IsNumber(sign, digits)
    ensures var s := sign + digits;
      s != [] && !IsPadding(s[0]) && !IsPadding(s[|s| - 1]) && s[|s| - 1] != '\0'
  {
    hide IsPadding;
    var s := sign + digits;
    assert s[|s| - 1] == digits[|digits| - 1];
    DigitIsVisible(s[|s| - 1]);
    if sign == "" {
      assert s[0] == digits[0];
    } else {
      assert s[0] == sign[0] && (sign[0] == '+' || sign[0] == '-');
    }
    DigitIsVisible(s[0]);
  }

  lemma SignedDigits(sign: string, digits: string)
    requires IsNumber(sign, digits)
    ensures AllDigits(digits)
    ensures var n: int := if sign == "-" then 0 - Value(digits) else Value(digits);
      ParseDigits(sign + digits) == if -2_147_483_648 <= n <= 2_147_483_647 then Some(n) else None
  {
    hide Value;
    assert AllDigits(digits);
    var s := sign + digits;
    if sign == "" {
      assert s == digits && '0' <= digits[0] <= '9';
    } else {
      assert s[0] == sign[0] && s[1..] == digits;
      assert sign == "-" <==> sign[0] == '-';
    }
  }

  lemma EndsVisibly(s: string, after: string)
    requires s != [] && s[|s| - 1] != '\0' && IsSpace(after)
    ensures (s + after)[|s + after| - 1] != '\0'
  {
    if after != [] {
      assert (s + after)[|s + after| - 1] == after[|after| - 1];
    }
  }

  /** A number between spaces is parsed, unless it needs more than 32 bits. */
  lemma ParsesNumbers(before: string, sign: string, digits: string, after: string, nuls: string)
    requires IsSpace(before) && IsNumber(sign, digits) && IsSpace(after) && forall i :: 0 <= i < |nuls| ==> nuls[i] == '\0'
    ensures AllDigits(digits)
    ensures var n: int := if sign == "-" then 0 - Value(digits) else Value(digits);
      TryParse(before + (sign + digits) + after + nuls) == if -2_147_483_648 <= n <= 2_147_483_647 then Some(n) else None
  {
    hide IsPadding, IsSpace, IsNumber, ParseDigits, TrimStart, TrimPadding, Value;
    var s := sign + digits;
    SignedDigits(sign, digits);
    NumberIsVisible(sign, digits);
    EndsVisibly(before + s, after);
    Strings.TrimEndOf(before + s + after, nuls, '\0');
    assert before + s + after == before + (s + after);
    TrimStartOf(before, s + after);
    TrimPaddingOf(s, after);
  }

  lemma DigitsParsed(s: string) returns (sign: string, digits: string)
    requires ParseDigits(s).Some?
    ensures s == sign + digits && IsNumber(sign, digits)
  {
    if s[0] == '-' || s[0] == '+' {
      sign, digits := [s[0]], s[1..];
    } else {
      sign, digits := "", s;
    }
  }

  /** Nothing else is parsed. */
  lemma ParsesOnlyNumbers(text: string)
    requires TryParse(text).Some?
    ensures exists before, sign, digits, after, nuls ::
              && IsSpace(before) && IsNumber(sign, digits) && IsSpace(after)
              && (forall i :: 0 <= i < |nuls| ==> nuls[i] == '\0')
              && text == before + (sign + digits) + after + nuls
  {
    hide IsPadding, IsSpace, IsNumber, ParseDigits, TrimStart, TrimPadding;
    var nuls := Strings.TrimmedEnd(text, '\0');
    var t := Strings.TrimEnd(text, '\0');
    var before := TrimmedStart(t);
    var after := TrimmedPadding(TrimStart(t));
    var s := TrimPadding(TrimStart(t));
    var sign, digits := DigitsParsed(s);
    assert text == before + (s + after) + nuls == before + s + after + nuls;
  }

  /** Parsing inverts printing. */
  lemma ParseOfPrint(n: int)
    requires IsInt32(n)
    ensures TryParse(Print(n)) == Some(n)
  {
    var s := Print(n);
    ValueOfDigits(if n < 0 then -n else n);
    assert !IsPadding(s[0]) && !IsPadding(s[|s| - 1]);
    if n < 0 {
      assert s[1..] == Digits(-n);
    }
  }

  lemma PrintedCharacters(n: int)
    ensures Print(n) != [] && forall i :: 0 <= i < |Print(n)| ==> IsDigit(Print(n)[i]) || Print(n)[i] == '-'
  {
  }
}
