/** The string functions of Go's standard library that the source is built on, and their inverses. */
module GoText {
  import opened Common

  const NEWLINE := '\n'
  const COLON := ':'

  // ---- Trimming ----------------------------------------------------------------------------

  /** White space as Go's `unicode.IsSpace` defines it. */
  predicate IsSpace(c: char) {
    || '\t' <= c <= '\r' || c == ' '
    || c == '\U{85}' || c == '\U{A0}' || c == '\U{1680}'
    || '\U{2000}' <= c <= '\U{200A}'
    || c == '\U{2028}' || c == '\U{2029}' || c == '\U{202F}' || c == '\U{205F}' || c == '\U{3000}'
  }

  function FirstNonSpace(s: string, i: nat): (k: nat)
    requires i <= |s|
    ensures i <= k <= |s| && (k < |s| ==> !IsSpace(s[k]))
    decreases |s| - i
  {
    if i < |s| && IsSpace(s[i]) then FirstNonSpace(s, i + 1) else i
  }

  function AfterLastNonSpace(s: string, n: nat): (k: nat)
    requires n <= |s|
    ensures k <= n && (k > 0 ==> !IsSpace(s[k - 1]))
  {
    if n > 0 && IsSpace(s[n - 1]) then AfterLastNonSpace(s, n - 1) else n
  }

  /** Go's `strings.TrimSpace`. */
  function TrimSpace(s: string): string {
    var i := FirstNonSpace(s, 0);
    var j := AfterLastNonSpace(s, |s|);
    if i < j then s[i..j] else ""
  }

  predicate IsTrimmed(s: string) {
    s != "" ==> !IsSpace(s[0]) && !IsSpace(s[|s| - 1])
  }

  predicate AllSpace(s: string) {
    forall k :: 0 <= k < |s| ==> IsSpace(s[k])
  }

  lemma {:induction false} SpaceBefore(s: string, i: nat, k: nat)
    requires i <= |s| && i <= k < FirstNonSpace(s, i)
    ensures IsSpace(s[k])
    decreases |s| - i
  {
    if i < k {
      SpaceBefore(s, i + 1, k);
    }
  }

  lemma {:induction false} SpaceAfter(s: string, n: nat, k: nat)
    requires n <= |s| && AfterLastNonSpace(s, n) <= k < n
    ensures IsSpace(s[k])
  {
    if k < n - 1 {
      SpaceAfter(s, n - 1, k);
    }
  }

  /** Trimming leaves trimmed text, and trimmed text unchanged. */
  lemma TrimIsTrimmed(s: string)
    ensures IsTrimmed(TrimSpace(s))
    ensures IsTrimmed(s) ==> TrimSpace(s) == s
    ensures forall c :: c in TrimSpace(s) ==> c in s
  {
  }

  lemma AllSpaceBefore(s: string, i: nat)
    requires i <= FirstNonSpace(s, 0)
    ensures AllSpace(s[..i])
  {
    forall k | 0 <= k < i ensures IsSpace(s[k]) {
      SpaceBefore(s, 0, k);
    }
  }

  lemma AllSpaceAfter(s: string, j: nat)
    requires AfterLastNonSpace(s, |s|) <= j <= |s|
    ensures AllSpace(s[j..])
  {
    forall k | j <= k < |s| ensures IsSpace(s[k]) {
      SpaceAfter(s, |s|, k);
    }
  }

  lemma CutInThree(s: string, i: nat, j: nat)
    requires i <= j <= |s|
    ensures s == s[..i] + s[i..j] + s[j..]
  {
  }

  /** Trimming takes white space off both ends and nothing else, and what is left is trimmed. */
  lemma TrimTakesSpace(s: string) returns (before: string, after: string)
    ensures s == before + TrimSpace(s) + after && AllSpace(before) && AllSpace(after) && IsTrimmed(TrimSpace(s))
  {
    var i, last := FirstNonSpace(s, 0), AfterLastNonSpace(s, |s|);
    var j := if i < last then last else i;
    before, after := s[..i], s[j..];
    AllSpaceBefore(s, i);
    AllSpaceAfter(s, j);
    CutInThree(s, i, j);
    TrimIsTrimmed(s);
  }

  lemma BlankIff(s: string)
    ensures TrimSpace(s) == "" <==> AllSpace(s)
  {
    var before, after := TrimTakesSpace(s);
    if TrimSpace(s) == "" {
      assert forall k :: 0 <= k < |s| ==> IsSpace(s[k]) by {
        assert s == before + after;
        assert forall k :: 0 <= k < |s| ==> s[k] == if k < |before| then before[k] else after[k - |before|];
      }
    } else {
      assert s[|before|] == TrimSpace(s)[0];
    }
  }

  /** Trimming takes one leading white space off text that is trimmed otherwise. */
  lemma TrimLeading(c: char, s: string)
    requires IsSpace(c) && s != "" && IsTrimmed(s)
    ensures TrimSpace([c] + s) == s
  {
    var text := [c] + s;
    assert text[0] == c && text[1] == s[0] && text[|text| - 1] == s[|s| - 1];
    assert FirstNonSpace(text, 0) == FirstNonSpace(text, 1) == 1;
    assert text[1..] == s;
  }

  // ---- Lines -------------------------------------------------------------------------------

  /** The pieces between newlines; there is always at least one. */
  function SplitLines(s: string): (lines: seq<string>)
    ensures lines != []
  {
    if s == "" then [""]
    else
      var rest := SplitLines(s[1..]);
      if s[0] == NEWLINE then [""] + rest else [[s[0]] + rest[0]] + rest[1..]
  }

  function JoinLines(lines: seq<string>): string
    requires lines != []
  {
    if |lines| == 1 then lines[0] else lines[0] + [NEWLINE] + JoinLines(lines[1..])
  }

  predicate OneLine(s: string) {
    NEWLINE !in s
  }

  predicate AllOneLine(lines: seq<string>) {
    forall k :: 0 <= k < |lines| ==> OneLine(lines[k])
  }

  lemma {:induction false} SplitOneLine(s: string)
    requires OneLine(s)
    ensures SplitLines(s) == [s]
  {
    if s != "" {
      SplitOneLine(s[1..]);
      assert [s[0]] + s[1..] == s;
    }
  }

  lemma {:induction false} SplitFirstLine(l: string, rest: string)
    requires OneLine(l)
    ensures SplitLines(l + [NEWLINE] + rest) == [l] + SplitLines(rest)
  {
    var s := l + [NEWLINE] + rest;
    if l == "" {
      assert s[1..] == rest;
    } else {
      assert s[1..] == l[1..] + [NEWLINE] + rest;
      SplitFirstLine(l[1..], rest);
      assert [l[0]] + l[1..] == l;
    }
  }

  lemma {:induction false} SplitJoin(lines: seq<string>)
    requires lines != [] && AllOneLine(lines)
    ensures SplitLines(JoinLines(lines)) == lines
  {
    if |lines| == 1 {
      SplitOneLine(lines[0]);
    } else {
      SplitJoin(lines[1..]);
      SplitFirstLine(lines[0], JoinLines(lines[1..]));
    }
  }

  lemma {:induction false} JoinSplit(s: string)
    ensures AllOneLine(SplitLines(s)) && JoinLines(SplitLines(s)) == s
  {
    if s != "" {
      JoinSplit(s[1..]);
      var rest := SplitLines(s[1..]);
      if s[0] == NEWLINE {
        assert ([""] + rest)[1..] == rest;
      } else {
        var lines := [[s[0]] + rest[0]] + rest[1..];
        assert lines[1..] == rest[1..];
      }
    }
  }

  // ---- Numbers -----------------------------------------------------------------------------

  const MAX_INT: int := 0x7FFF_FFFF_FFFF_FFFF

  predicate FitsInt(n: int) {
    -MAX_INT - 1 <= n <= MAX_INT
  }

  predicate IsDigit(c: char) {
    '0' <= c <= '9'
  }

  function DigitValue(c: char): nat
    requires IsDigit(c)
  {
    c as int - '0' as int
  }

  /** The number that the characters of `s` from `i` up to `n` write in base ten, if all are digits. */
  function ValueOf(s: string, i: nat, n: nat): Option<nat>
    requires i <= n <= |s|
    decreases n
  {
    if i == n then Some(0)
    else if !IsDigit(s[n - 1]) then None
    else
      var high := ValueOf(s, i, n - 1);
      if high.None? then None else Some(high.value * 10 + DigitValue(s[n - 1]))
  }

  /** Go's `strconv.Atoi` with 64-bit `int`: an optional sign, then digits; out of range is an error. */
  function Atoi(s: string): (n: Option<int>)
    ensures n.Some? ==> FitsInt(n.value)
  {
    var start := if s != "" && (s[0] == '-' || s[0] == '+') then 1 else 0;
    var digits := ValueOf(s, start, |s|);
    if start == |s| || digits.None? then None
    else
      var n: int := if s[0] == '-' then 0 - digits.value else digits.value;
      if FitsInt(n) then Some(n) else None
  }

  function PrintNat(n: nat): string {
    var digit := ['0' + (n % 10) as char];
    if n < 10 then digit else PrintNat(n / 10) + digit
  }

  function PrintInt(n: int): string {
    if n < 0 then "-" + PrintNat(-n) else PrintNat(n)
  }

  predicate AllDigits(s: string) {
    forall k :: 0 <= k < |s| ==> IsDigit(s[k])
  }

  /** Reading only looks at its own range. */
  lemma {:induction false} ValueOfShift(before: string, s: string, after: string, n: nat)
    requires n <= |s|
    ensures ValueOf(before + s + after, |before|, |before| + n) == ValueOf(s, 0, n)
  {
    if n > 0 {
      assert (before + s + after)[|before| + n - 1] == s[n - 1];
      ValueOfShift(before, s, after, n - 1);
    }
  }

  lemma {:induction false} PrintNatDigits(n: nat)
    ensures AllDigits(PrintNat(n)) && PrintNat(n) != "" && ValueOf(PrintNat(n), 0, |PrintNat(n)|) == Some(n)
  {
    var digit := ['0' + (n % 10) as char];
    if n >= 10 {
      var high := PrintNat(n / 10);
      PrintNatDigits(n / 10);
      ValueOfShift("", high, digit, |high|);
      assert "" + high + digit == PrintNat(n);
    }
  }

  /** Reading back a printed number gives it, exactly when it fits the integer width. */
  lemma AtoiPrint(n: int)
    ensures Atoi(PrintInt(n)) == if FitsInt(n) then Some(n) else None
    ensures COLON !in PrintInt(n) && NEWLINE !in PrintInt(n) && PrintInt(n) != "" && IsDigit(PrintInt(n)[|PrintInt(n)| - 1])
  {
    var m := if n < 0 then -n else n;
    var digits := PrintNat(m);
    PrintNatDigits(m);
    if n < 0 {
      ValueOfShift("-", digits, "", |digits|);
      assert "-" + digits + "" == PrintInt(n);
    }
  }

  predicate AllZeros(s: string) {
    forall k :: 0 <= k < |s| ==> s[k] == '0'
  }

  /** Zeros in front of a number do not count. */
  lemma {:induction false} ZerosRead(zeros: string, s: string, n: nat)
    requires AllZeros(zeros) && n <= |zeros| + |s|
    ensures ValueOf(zeros + s, 0, n) == if n <= |zeros| then Some(0) else ValueOf(s, 0, n - |zeros|)
  {
    if n > 0 {
      ZerosRead(zeros, s, n - 1);
    }
  }

  lemma OneMoreDigit(zeros: string, high: nat, c: char)
    requires AllZeros(zeros) && IsDigit(c)
    ensures zeros + PrintNat(high) + [c] == (if high == 0 then zeros + "0" else zeros) + PrintNat(high * 10 + DigitValue(c))
  {
    var n := high * 10 + DigitValue(c);
    assert n / 10 == high && n % 10 == DigitValue(c) && '0' + (n % 10) as char == c;
    if high == 0 {
      assert PrintNat(high) == "0";
    }
  }

  /** What is read as a number is the number as it is printed, with zeros in front. */
  lemma {:induction false} DigitsWrite(s: string, n: nat) returns (zeros: string)
    requires 0 < n <= |s| && ValueOf(s, 0, n).Some?
    ensures AllZeros(zeros) && s[..n] == zeros + PrintNat(ValueOf(s, 0, n).value)
  {
    assert s[..n] == s[..n - 1] + [s[n - 1]];
    if n == 1 {
      zeros := "";
    } else {
      var high := DigitsWrite(s, n - 1);
      OneMoreDigit(high, ValueOf(s, 0, n - 1).value, s[n - 1]);
      zeros := if ValueOf(s, 0, n - 1).value == 0 then high + "0" else high;
    }
  }

  /** `s` is a sign, which a number that is not negative may lack, then zeros, then the digits of `n`. */
  predicate Writes(s: string, sign: string, zeros: string, n: int) {
    && s == sign + zeros + PrintNat(if n < 0 then -n else n)
    && AllZeros(zeros)
    && (if sign == "-" then n <= 0 else (sign == "" || sign == "+") && n >= 0)
  }

  /** The sign is taken off before the digits are read. */
  lemma SignedRead(sign: string, digits: string)
    requires sign == "" || sign == "+" || sign == "-"
    requires digits != "" && digits[0] != '-' && digits[0] != '+'
    ensures Atoi(sign + digits) == match ValueOf(digits, 0, |digits|)
                                   case None => None
                                   case Some(m) => (var n: int := if sign == "-" then 0 - m else m; if FitsInt(n) then Some(n) else None)
  {
    ValueOfShift(sign, digits, "", |digits|);
    assert sign + digits + "" == sign + digits;
  }

  lemma DigitsRead(zeros: string, s: string)
    requires AllZeros(zeros) && AllDigits(s) && s != ""
    ensures var digits := zeros + s;
            digits != "" && IsDigit(digits[0]) && ValueOf(digits, 0, |digits|) == ValueOf(s, 0, |s|)
  {
    ZerosRead(zeros, s, |zeros| + |s|);
    assert (zeros + s)[0] == if zeros == "" then s[0] else zeros[0];
  }

  lemma WrittenIsRead(s: string, sign: string, zeros: string, n: int)
    requires Writes(s, sign, zeros, n) && FitsInt(n)
    ensures Atoi(s) == Some(n)
  {
    var m := if n < 0 then -n else n;
    PrintNatDigits(m);
    DigitsRead(zeros, PrintNat(m));
    SignedRead(sign, zeros + PrintNat(m));
    assert s == sign + (zeros + PrintNat(m));
  }

  lemma {:induction false} LeadingDigit(s: string, i: nat, n: nat)
    requires i < n <= |s| && ValueOf(s, i, n).Some?
    ensures IsDigit(s[i])
  {
    if i < n - 1 {
      LeadingDigit(s, i, n - 1);
    }
  }

  lemma SignOff(s: string) returns (sign: string, digits: string)
    requires Atoi(s).Some?
    ensures s == sign + digits && (sign == "" || sign == "+" || sign == "-")
    ensures digits != "" && IsDigit(digits[0])
  {
    sign := if s[0] == '-' || s[0] == '+' then [s[0]] else "";
    digits := s[|sign|..];
    LeadingDigit(s, |sign|, |s|);
  }

  lemma ReadIsWritten(s: string) returns (sign: string, zeros: string)
    requires Atoi(s).Some?
    ensures Writes(s, sign, zeros, Atoi(s).value)
  {
    var digits;
    sign, digits := SignOff(s);
    SignedRead(sign, digits);
    zeros := DigitsWrite(digits, |digits|);
    assert s == sign + digits[..|digits|];
  }

  /** Exactly the numbers that fit the width are read, written with or without a plus sign and zeros in front. */
  lemma AtoiIff(s: string, n: int)
    ensures Atoi(s) == Some(n) <==> FitsInt(n) && exists sign, zeros :: Writes(s, sign, zeros, n)
  {
    if Atoi(s) == Some(n) {
      var sign, zeros := ReadIsWritten(s);
    }
    if sign, zeros :| FitsInt(n) && Writes(s, sign, zeros, n) {
      WrittenIsRead(s, sign, zeros, n);
    }
  }
}
