/** Python's reading and writing of integers, on ASCII text: `int(text, base)` for bases 10 and 16,
    and `format` with a minimum number of digits. */
module PythonInt {
  import opened Sequences
  import opened Wrappers

  const DIGITS := "0123456789abcdef"

  /** The value of a digit of any base up to 16; 16 for every other character. */
  function DigitValue(c: char): nat {
    if '0' <= c <= '9' then c as int - '0' as int
    else if 'a' <= c <= 'f' then c as int - 'a' as int + 10
    else if 'A' <= c <= 'F' then c as int - 'A' as int + 10
    else 16
  }

  function DigitChar(d: nat): (c: char)
    requires d < 16
    ensures DigitValue(c) == d && c != '_' && !IsCSpace(c) && c != '-' && c != '+'
  {
    DIGITS[d]
  }

  predicate IsBase(base: nat) { base == 10 || base == 16 }

  /** The digits of n, most significant first. */
  function Digits(n: nat, base: nat): (s: string)
    requires IsBase(base)
    ensures s != []
  {
    if n < base then [DigitChar(n)] else Digits(n / base, base) + [DigitChar(n % base)]
  }

  /** format(n, "0<width>d") and format(n, "0<width>x"): the width is a floor, never a mask. */
  function Format(n: nat, base: nat, width: nat): (s: string)
    requires IsBase(base)
    ensures s != []
  {
    var d := Digits(n, base);
    if |d| >= width then d else Repeat('0', width - |d|) + d
  }

  // ----- int(text, base)

  predicate IsCSpace(c: char) { c == ' ' || 9 as char <= c <= 13 as char }

  predicate IsSign(c: char) { c == '+' || c == '-' }

  predicate IsX(c: char) { c == 'x' || c == 'X' }

  function SkipSpace(s: string): (r: string)
    ensures |r| <= |s|
  {
    if s != [] && IsCSpace(s[0]) then SkipSpace(s[1..]) else s
  }

  predicate IsDigitOrUnderscore(c: char, base: nat) { c == '_' || DigitValue(c) < base }

  /** The length of the longest prefix of digits and underscores. */
  function DigitRun(s: string, base: nat): (n: nat)
    ensures n <= |s|
    ensures forall i | 0 <= i < n :: IsDigitOrUnderscore(s[i], base)
    ensures n < |s| ==> !IsDigitOrUnderscore(s[n], base)
  {
    if s != [] && IsDigitOrUnderscore(s[0], base) then 1 + DigitRun(s[1..], base) else 0
  }

  /** Underscores only between digits. */
  predicate WellPlacedUnderscores(run: string) {
    && run != [] && run[0] != '_' && run[|run| - 1] != '_'
    && forall i | 0 < i < |run| :: run[i] == '_' ==> run[i - 1] != '_'
  }

  function Value(run: string, base: nat): nat {
    if run == [] then 0
    else
      var rest, c := Value(run[..|run| - 1], base), run[|run| - 1];
      if c == '_' then rest else rest * base + DigitValue(c)
  }

  /** What follows the sign: an optional 0x in base 16 (with one underscore after it), digits, and
      nothing but white space. */
  function ParseMagnitude(s: string, base: nat): Option<nat> {
    var prefixed := base == 16 && |s| >= 2 && s[0] == '0' && IsX(s[1]);
    var body := if !prefixed then s else if |s| >= 3 && s[2] == '_' then s[3..] else s[2..];
    var n := DigitRun(body, base);
    if WellPlacedUnderscores(body[..n]) && SkipSpace(body[n..]) == [] then Some(Value(body[..n], base)) else None
  }

  /** An optional sign, then the magnitude. */
  function ParseSigned(s: string, base: nat): Option<int> {
    var signed := s != [] && IsSign(s[0]);
    match ParseMagnitude(if signed then s[1..] else s, base)
    case None => None
    case Some(v) =>
      var magnitude := v as int;
      Some(if signed && s[0] == '-' then -magnitude else magnitude)
  }

  function ParseInt(text: string, base: nat): Option<int> {
    ParseSigned(SkipSpace(text), base)
  }

  // ----- writing and reading undo each other

  ghost predicate PlainDigits(s: string, base: nat) {
    forall i | 0 <= i < |s| :: s[i] != '_' && DigitValue(s[i]) < base
  }

  lemma {:induction false} DigitsPlain(n: nat, base: nat)
    requires IsBase(base)
    ensures PlainDigits(Digits(n, base), base)
    ensures Value(Digits(n, base), base) == n
    decreases n
  {
    if n < base {
      assert Value([], base) == 0;
      assert [DigitChar(n)][..0] == [];
    } else {
      DigitsPlain(n / base, base);
      var d := Digits(n, base);
      assert d[..|d| - 1] == Digits(n / base, base);
      assert (n / base) * base + n % base == n;
    }
  }

  lemma {:induction false} ValueZeros(k: nat, s: string, base: nat)
    ensures Value(Repeat('0', k) + s, base) == Value(s, base)
    decreases |s|, k
  {
    if s == [] {
      if k > 0 {
        assert (Repeat('0', k) + s)[..k - 1] == Repeat('0', k - 1) + s;
        ValueZeros(k - 1, s, base);
      }
    } else {
      var t := Repeat('0', k) + s;
      assert t[..|t| - 1] == Repeat('0', k) + s[..|s| - 1];
      ValueZeros(k, s[..|s| - 1], base);
    }
  }

  lemma FormatPlain(n: nat, base: nat, width: nat)
    requires IsBase(base)
    ensures PlainDigits(Format(n, base, width), base)
    ensures Value(Format(n, base, width), base) == n
    ensures |Format(n, base, width)| >= width
  {
    DigitsPlain(n, base);
    var d := Digits(n, base);
    if |d| < width {
      ValueZeros(width - |d|, d, base);
    }
  }

  lemma {:induction false} PlainRun(s: string, base: nat)
    requires PlainDigits(s, base)
    ensures DigitRun(s, base) == |s|
  {
    if s != [] {
      PlainRun(s[1..], base);
    }
  }

  lemma PlainIsWellPlaced(s: string, base: nat)
    requires s != [] && PlainDigits(s, base)
    ensures WellPlacedUnderscores(s) && s[..DigitRun(s, base)] == s && SkipSpace(s[DigitRun(s, base)..]) == []
  {
    PlainRun(s, base);
    assert s[..|s|] == s && s[|s|..] == [];
  }

  lemma MagnitudePlain(s: string, base: nat)
    requires s != [] && PlainDigits(s, base) && IsBase(base)
    ensures ParseMagnitude(s, base) == Some(Value(s, base))
    ensures base == 16 ==> ParseMagnitude("0x" + s, base) == Some(Value(s, base))
    ensures base == 16 ==> ParseMagnitude("0X" + s, base) == Some(Value(s, base))
  {
    PlainIsWellPlaced(s, base);
    hide DigitRun, WellPlacedUnderscores, SkipSpace, Value;
    assert |s| >= 2 ==> !IsX(s[1]);
    assert ("0x" + s)[2..] == s && ("0X" + s)[2..] == s;
  }

  lemma ParseUnsigned(s: string, base: nat)
    requires s != [] && !IsCSpace(s[0]) && !IsSign(s[0])
    ensures ParseInt(s, base) == match ParseMagnitude(s, base) case None => None case Some(v) => Some(v as int)
  {
    hide ParseMagnitude;
  }

  /** Plain digits read back as their value; in base 16 also behind 0x or 0X. */
  lemma ParsePlain(s: string, base: nat)
    requires s != [] && PlainDigits(s, base) && IsBase(base)
    ensures ParseInt(s, base) == Some(Value(s, base))
    ensures base == 16 ==> ParseInt("0x" + s, base) == Some(Value(s, base))
    ensures base == 16 ==> ParseInt("0X" + s, base) == Some(Value(s, base))
  {
    MagnitudePlain(s, base);
    assert DigitValue(s[0]) < 16;
    assert !IsCSpace('0');
    hide ParseInt, ParseMagnitude, Value;
    ParseUnsigned(s, base);
    ParseUnsigned("0x" + s, base);
    ParseUnsigned("0X" + s, base);
  }

  lemma {:induction false} DigitsShortest(n: nat, base: nat)
    requires IsBase(base)
    ensures n > 0 ==> Digits(n, base)[0] != '0'
    ensures n == 0 ==> Digits(n, base) == "0"
    decreases n
  {
    if n >= base {
      DigitsShortest(n / base, base);
      assert n / base > 0;
    }
  }

  /** The width is a floor and nothing more: a text longer than that begins with no zero. */
  lemma FormatShortest(n: nat, base: nat, width: nat)
    requires IsBase(base)
    ensures |Format(n, base, width)| > width && n > 0 ==> Format(n, base, width)[0] != '0'
    ensures n == 0 ==> |Format(n, base, width)| == if width == 0 then 1 else width
    ensures base == 16 ==> forall i | 0 <= i < |Format(n, base, width)| :: Format(n, base, width)[i] in DIGITS
  {
    DigitsShortest(n, base);
    DigitsInTable(n, base);
    hide Digits;
  }

  lemma {:induction false} DigitsInTable(n: nat, base: nat)
    requires IsBase(base)
    ensures forall i | 0 <= i < |Digits(n, base)| :: Digits(n, base)[i] in DIGITS
    decreases n
  {
    if n >= base {
      DigitsInTable(n / base, base);
    }
    assert DIGITS[n % base] in DIGITS && DIGITS[0] == '0' && '0' in DIGITS;
    if n < base {
      assert DIGITS[n] in DIGITS;
    }
  }

  lemma ParseFormat(n: nat, base: nat, width: nat)
    requires IsBase(base)
    ensures ParseInt(Format(n, base, width), base) == Some(n)
  {
    FormatPlain(n, base, width);
    ParsePlain(Format(n, base, width), base);
  }

  // ----- underscores

  lemma {:induction false} ValueWithUnderscore(a: string, b: string, base: nat)
    ensures Value(a + "_" + b, base) == Value(a + b, base)
  {
    var s, t := a + "_" + b, a + b;
    if b == [] {
      assert s[..|s| - 1] == a && t == a;
    } else {
      var front := b[..|b| - 1];
      assert s[..|s| - 1] == a + "_" + front && t[..|t| - 1] == a + front;
      assert s[|s| - 1] == t[|t| - 1] == b[|b| - 1];
      ValueWithUnderscore(a, front, base);
    }
  }

  lemma {:induction false} RunOfDigits(s: string, base: nat)
    requires forall i | 0 <= i < |s| :: IsDigitOrUnderscore(s[i], base)
    ensures DigitRun(s, base) == |s|
  {
    if s != [] {
      RunOfDigits(s[1..], base);
    }
  }

  /** An underscore between digits is read over; one at either end, or two together, is refused. */
  lemma Underscores(a: string, b: string, base: nat)
    requires PlainDigits(a, base) && PlainDigits(b, base) && IsBase(base)
    ensures a != [] && b != [] ==> ParseMagnitude(a + "_" + b, base) == Some(Value(a + b, base))
    ensures a == [] || b == [] ==> ParseMagnitude(a + "_" + b, base) == None
    ensures ParseMagnitude(a + "__" + b, base) == None
  {
    OneUnderscore(a, b, base);
    TwoUnderscores(a, b, base);
    ValueWithUnderscore(a, b, base);
    hide ParseMagnitude, Value;
  }

  lemma NotPrefixed(s: string, base: nat)
    requires s != [] && (forall i | 0 <= i < |s| :: IsDigitOrUnderscore(s[i], base)) && IsBase(base)
    ensures ParseMagnitude(s, base) == if WellPlacedUnderscores(s) then Some(Value(s, base)) else None
  {
    RunOfDigits(s, base);
    assert |s| >= 2 ==> !IsX(s[1]);
    assert s[..|s|] == s && s[|s|..] == [] && SkipSpace([]) == [];
    hide DigitRun, WellPlacedUnderscores, Value;
  }

  lemma OneUnderscore(a: string, b: string, base: nat)
    requires PlainDigits(a, base) && PlainDigits(b, base) && IsBase(base)
    ensures ParseMagnitude(a + "_" + b, base) == if a != [] && b != [] then Some(Value(a + "_" + b, base)) else None
  {
    var s := a + "_" + b;
    assert s[|a|] == '_';
    assert forall i | 0 <= i < |a| :: s[i] == a[i];
    assert forall i | |a| < i < |s| :: s[i] == b[i - |a| - 1];
    NotPrefixed(s, base);
    hide ParseMagnitude, Value, DigitValue;
  }

  lemma TwoUnderscores(a: string, b: string, base: nat)
    requires PlainDigits(a, base) && PlainDigits(b, base) && IsBase(base)
    ensures ParseMagnitude(a + "__" + b, base) == None
  {
    var s := a + "__" + b;
    assert s[|a|] == '_' && s[|a| + 1] == '_';
    assert forall i | 0 <= i < |a| :: s[i] == a[i];
    assert forall i | |a| + 1 < i < |s| :: s[i] == b[i - |a| - 2];
    NotPrefixed(s, base);
    hide ParseMagnitude, Value, DigitValue;
  }
}
