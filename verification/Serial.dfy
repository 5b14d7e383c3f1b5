/** The one canonical text of a certificate serial: lowercase hex with at least 16 digits. Text is
    ASCII; case folding is lower-casing. */
module Serial {
  import opened PythonInt
  import opened Wrappers

  datatype Stored = Absent | Number(n: int) | Text(text: string)

  const WIDTH := 16

  /** The white space str.strip removes. */
  predicate IsSpace(c: char) { IsCSpace(c) || 28 as char <= c <= 31 as char }

  function StripLeft(s: string): (r: string)
    ensures r == [] || !IsSpace(r[0])
  {
    if s != [] && IsSpace(s[0]) then StripLeft(s[1..]) else s
  }

  function StripRight(s: string): (r: string)
    ensures r == [] || (!IsSpace(r[|r| - 1]) && s != [] && r[0] == s[0])
  {
    if s != [] && IsSpace(s[|s| - 1]) then StripRight(s[..|s| - 1]) else s
  }

  function Strip(s: string): (r: string)
    ensures r == [] || (!IsSpace(r[0]) && !IsSpace(r[|r| - 1]))
  {
    StripRight(StripLeft(s))
  }

  function LowerChar(c: char): char {
    if 'A' <= c <= 'Z' then (c as int + 32) as char else c
  }

  function Lower(s: string): (r: string)
    ensures |r| == |s|
  {
    seq(|s|, i requires 0 <= i < |s| => LowerChar(s[i]))
  }

  /** format(p, "016x"): the sign counts towards the width. */
  function HexText(p: int): string {
    if p >= 0 then Format(p, 16, WIDTH) else "-" + Format(-p, 16, WIDTH - 1)
  }

  function Body(text: string): string {
    if |text| >= 2 && Lower(text[..2]) == "0x" then text[2..] else text
  }

  function CanonicalText(s: string): string {
    var text := Strip(s);
    if text == [] then []
    else if text[0] == '-' then Lower(text)
    else match ParseInt(Body(text), 16)
         case None => Lower(text)
         case Some(p) => HexText(p)
  }

  function Canonical(v: Stored): string {
    match v
    case Absent => []
    case Number(n) => if n >= 0 then Format(n, 16, WIDTH) else Lower(Strip("-" + Format(-n, 10, 1)))
    case Text(s) => CanonicalText(s)
  }

  // ----- case does not matter to the reader

  lemma LowerCharLaws(c: char)
    ensures DigitValue(LowerChar(c)) == DigitValue(c)
    ensures IsCSpace(LowerChar(c)) == IsCSpace(c) && IsSpace(LowerChar(c)) == IsSpace(c)
    ensures (LowerChar(c) == '_' <==> c == '_') && (LowerChar(c) == '-' <==> c == '-') && (LowerChar(c) == '+' <==> c == '+')
    ensures (LowerChar(c) == '0' <==> c == '0') && IsX(LowerChar(c)) == IsX(c) && IsSign(LowerChar(c)) == IsSign(c)
    ensures LowerChar(LowerChar(c)) == LowerChar(c)
  {}

  lemma LowerSlice(s: string, i: nat)
    requires i <= |s|
    ensures Lower(s[i..]) == Lower(s)[i..] && Lower(s[..i]) == Lower(s)[..i]
  {}

  lemma {:induction false} SkipSpaceLower(s: string)
    ensures SkipSpace(Lower(s)) == Lower(SkipSpace(s))
  {
    if s != [] {
      LowerCharLaws(s[0]);
      LowerSlice(s, 1);
      hide LowerChar, IsCSpace;
      SkipSpaceLower(s[1..]);
    }
  }

  lemma {:induction false} DigitRunLower(s: string)
    ensures DigitRun(Lower(s), 16) == DigitRun(s, 16)
  {
    if s != [] {
      LowerCharLaws(s[0]);
      LowerSlice(s, 1);
      hide LowerChar, DigitValue;
      DigitRunLower(s[1..]);
    }
  }

  lemma {:induction false} ValueLower(s: string)
    ensures Value(Lower(s), 16) == Value(s, 16)
  {
    if s != [] {
      LowerCharLaws(s[|s| - 1]);
      LowerSlice(s, |s| - 1);
      hide LowerChar, DigitValue;
      ValueLower(s[..|s| - 1]);
    }
  }

  lemma UnderscoresLower(s: string)
    ensures WellPlacedUnderscores(Lower(s)) == WellPlacedUnderscores(s)
  {
    forall i | 0 <= i < |s| ensures Lower(s)[i] == '_' <==> s[i] == '_' { LowerCharLaws(s[i]); }
    hide LowerChar;
  }

  lemma TailLower(body: string)
    ensures var n := DigitRun(body, 16);
            && DigitRun(Lower(body), 16) == n
            && WellPlacedUnderscores(Lower(body)[..n]) == WellPlacedUnderscores(body[..n])
            && Value(Lower(body)[..n], 16) == Value(body[..n], 16)
            && (SkipSpace(Lower(body)[n..]) == [] <==> SkipSpace(body[n..]) == [])
  {
    var n := DigitRun(body, 16);
    DigitRunLower(body);
    LowerSlice(body, n);
    hide Value, DigitRun, SkipSpace, WellPlacedUnderscores;
    UnderscoresLower(body[..n]);
    ValueLower(body[..n]);
    SkipSpaceLower(body[n..]);
  }

  lemma MagnitudeLower(s: string)
    ensures ParseMagnitude(Lower(s), 16) == ParseMagnitude(s, 16)
  {
    forall i | 0 <= i < |s| && i < 3
      ensures (Lower(s)[i] == '0' <==> s[i] == '0') && IsX(Lower(s)[i]) == IsX(s[i]) && (Lower(s)[i] == '_' <==> s[i] == '_')
    {
      LowerCharLaws(s[i]);
    }
    var prefixed := |s| >= 2 && s[0] == '0' && IsX(s[1]);
    var skip := if !prefixed then 0 else if |s| >= 3 && s[2] == '_' then 3 else 2;
    LowerSlice(s, skip);
    hide Value, DigitRun, SkipSpace, WellPlacedUnderscores, Lower;
    TailLower(s[skip..]);
    assert s[0..] == s && Lower(s)[0..] == Lower(s);
  }

  lemma LowerHead(text: string)
    requires text != []
    ensures Lower(text)[0] == '-' <==> text[0] == '-'
    ensures IsSign(Lower(text)[0]) == IsSign(text[0])
  {
    LowerCharLaws(text[0]);
    hide LowerChar;
  }

  lemma SignedLower(t: string)
    ensures ParseSigned(Lower(t), 16) == ParseSigned(t, 16)
  {
    hide ParseMagnitude, Lower, IsSign;
    MagnitudeLower(t);
    if t != [] {
      LowerHead(t);
      LowerSlice(t, 1);
      MagnitudeLower(t[1..]);
    }
  }

  lemma ParseLower(s: string)
    ensures ParseInt(Lower(s), 16) == ParseInt(s, 16)
  {
    SkipSpaceLower(s);
    SignedLower(SkipSpace(s));
    hide ParseSigned, SkipSpace, Lower;
  }

  // ----- what the canonical text is for

  lemma StripNothing(s: string)
    requires s == [] || (!IsSpace(s[0]) && !IsSpace(s[|s| - 1]))
    ensures Strip(s) == s
  {}

  lemma PlainDigitsText(s: string)
    requires s != [] && PlainDigits(s, 16)
    ensures Strip(s) == s && s[0] != '-' && Body(s) == s
  {
    assert DigitValue(s[0]) < 16 && DigitValue(s[|s| - 1]) < 16;
    StripNothing(s);
    if |s| >= 2 {
      assert DigitValue(s[1]) < 16;
      LowerCharLaws(s[1]);
      assert Lower(s[..2])[1] == LowerChar(s[1]);
    }
  }

  lemma CanonicalOfFormat(n: nat)
    ensures CanonicalText(Format(n, 16, WIDTH)) == Format(n, 16, WIDTH)
  {
    FormatPlain(n, 16, WIDTH);
    PlainDigitsText(Format(n, 16, WIDTH));
    ParseFormat(n, 16, WIDTH);
    hide Format, ParseInt;
  }

  /** A text renders as the serial n exactly when it reads as n in hex: one number has one text, two
      numbers have two, and text that is no serial never looks like one. */
  lemma RendersAs(s: string, n: nat)
    ensures CanonicalText(s) == Canonical(Number(n)) <==>
            Strip(s) != [] && Strip(s)[0] != '-' && ParseInt(Body(Strip(s)), 16) == Some(n as int)
  {
    hide Format, ParseInt, Strip, Body, Lower, PlainDigits, Value, HexText, IsSpace;
    var text, f := Strip(s), Format(n, 16, WIDTH);
    ParseFormat(n, 16, WIDTH);
    FormatPlain(n, 16, WIDTH);
    PlainDigitsText(f);
    if text != [] {
      LowerHead(text);
      if text[0] != '-' {
        var read := ParseInt(Body(text), 16);
        BodyLower(text);
        ParseLower(Body(text));
        if read.Some? {
          HexTextShape(read.value);
          if read.value >= 0 {
            ParseFormat(read.value, 16, WIDTH);
          }
        }
      }
    }
  }

  lemma HexTextShape(p: int)
    ensures p >= 0 ==> HexText(p) == Format(p, 16, WIDTH)
    ensures p < 0 ==> HexText(p) != [] && HexText(p)[0] == '-'
  {
    hide Format;
  }

  lemma BodyLower(text: string)
    ensures Body(Lower(text)) == Lower(Body(text))
  {
    if |text| >= 2 {
      LowerSlice(text, 2);
      LowerTwice(text[..2]);
      assert Lower(text)[..2] == Lower(text[..2]);
    }
  }

  lemma LowerTwice(s: string)
    ensures Lower(Lower(s)) == Lower(s)
  {
    forall i | 0 <= i < |s| ensures LowerChar(LowerChar(s[i])) == LowerChar(s[i]) { LowerCharLaws(s[i]); }
    hide LowerChar;
  }

  lemma SpellingOf(before: string, s: string, after: string, n: nat)
    requires (forall c | c in before :: IsSpace(c)) && (forall c | c in after :: IsSpace(c))
    requires s != [] && !IsSpace(s[0]) && !IsSpace(s[|s| - 1]) && s[0] != '-'
    requires ParseInt(Body(s), 16) == Some(n as int)
    ensures CanonicalText(before + s + after) == Canonical(Number(n))
  {
    hide Strip, ParseInt, Body, Format, Lower;
    StripAround(before, s, after);
  }

  lemma PrefixedEnds(digits: string)
    requires digits != [] && PlainDigits(digits, 16)
    ensures !IsSpace(digits[0]) && digits[0] != '-' && !IsSpace(digits[|digits| - 1])
    ensures var t := "0x" + digits; t[0] == '0' && t[|t| - 1] == digits[|digits| - 1]
    ensures var t := "0X" + digits; t[0] == '0' && t[|t| - 1] == digits[|digits| - 1]
  {
    assert DigitValue(digits[0]) < 16 && DigitValue(digits[|digits| - 1]) < 16;
  }

  /** Every hex spelling of n (any case, any leading zeros, with or without 0x, white space around
      it) has the text the number itself has. */
  lemma SpellingsAgree(digits: string, before: string, after: string)
    requires digits != [] && PlainDigits(digits, 16)
    requires (forall c | c in before :: IsSpace(c)) && (forall c | c in after :: IsSpace(c))
    ensures var n := Value(digits, 16);
            && CanonicalText(before + digits + after) == Canonical(Number(n))
            && CanonicalText(before + ("0x" + digits) + after) == Canonical(Number(n))
            && CanonicalText(before + ("0X" + digits) + after) == Canonical(Number(n))
  {
    hide Strip, ParseInt, Body, Value, PlainDigits, Format, Lower, CanonicalText, Canonical;
    var n := Value(digits, 16);
    PlainDigitsText(digits);
    PrefixedEnds(digits);
    PrefixedBody(digits);
    ParsePlain(digits, 16);
    SpellingOf(before, digits, after, n);
    SpellingOf(before, "0x" + digits, after, n);
    SpellingOf(before, "0X" + digits, after, n);
  }

  lemma PrefixedBody(digits: string)
    ensures Body("0x" + digits) == digits && Body("0X" + digits) == digits
  {
    assert ("0x" + digits)[..2] == "0x" && ("0X" + digits)[..2] == "0X";
    assert Lower("0x") == "0x" && Lower("0X") == "0x";
    assert ("0x" + digits)[2..] == digits && ("0X" + digits)[2..] == digits;
  }

  lemma {:induction false} StripAround(before: string, s: string, after: string)
    requires s != [] && !IsSpace(s[0]) && !IsSpace(s[|s| - 1])
    requires (forall c | c in before :: IsSpace(c)) && (forall c | c in after :: IsSpace(c))
    ensures Strip(before + s + after) == s
    decreases |before| + |after|
  {
    var t := before + s + after;
    if before != [] {
      assert t[1..] == before[1..] + s + after;
      StripAround(before[1..], s, after);
      assert IsSpace(before[0]);
    } else if after != [] {
      var u := s + after[..|after| - 1];
      assert [] + s + after == t && t[0] == s[0];
      assert t[..|t| - 1] == u && [] + s + after[..|after| - 1] == u;
      StripAround([], s, after[..|after| - 1]);
      assert IsSpace(after[|after| - 1]);
    } else {
      assert t == s;
      StripNothing(s);
    }
  }

  /** Canonicalising twice changes nothing, whatever is stored. */
  lemma CanonicalTwice(v: Stored)
    ensures CanonicalText(Canonical(v)) == Canonical(v)
  {
    match v
    case Absent =>
      assert Strip([]) == [];
    case Number(n) =>
      if n >= 0 {
        CanonicalOfFormat(n);
      } else {
        var t := "-" + Format(-n, 10, 1);
        MinusText(t);
      }
    case Text(s) =>
      TextTwice(s);
  }

  lemma MinusText(t: string)
    requires t != [] && t[0] == '-'
    ensures CanonicalText(Lower(Strip(t))) == Lower(Strip(t))
  {
    var text := Strip(t);
    assert StripLeft(t) == t;
    if text != [] {
      LowerIsStripped(text);
      LowerCharLaws('-');
      LowerTwice(text);
      assert Lower(text)[0] == '-';
    } else {
      assert Strip([]) == [];
    }
  }

  lemma LowerIsStripped(text: string)
    requires text != [] && !IsSpace(text[0]) && !IsSpace(text[|text| - 1])
    ensures Strip(Lower(text)) == Lower(text)
  {
    LowerCharLaws(text[0]);
    LowerCharLaws(text[|text| - 1]);
    hide IsSpace, LowerChar;
    StripNothing(Lower(text));
  }

  lemma TextTwice(s: string)
    ensures CanonicalText(CanonicalText(s)) == CanonicalText(s)
  {
    var text := Strip(s);
    assert Strip([]) == [];
    hide ParseInt, Strip, Lower, Body, Format, HexText;
    if text != [] {
      var read := ParseInt(Body(text), 16);
      if text[0] == '-' || read.None? {
        LoweredTextIsFixed(text);
      } else if read.value >= 0 {
        CanonicalOfFormat(read.value);
        HexTextShape(read.value);
      } else {
        NegativeHexText(read.value);
      }
    }
  }

  lemma LoweredTextIsFixed(text: string)
    requires text != [] && !IsSpace(text[0]) && !IsSpace(text[|text| - 1])
    requires text[0] == '-' || ParseInt(Body(text), 16).None?
    ensures CanonicalText(Lower(text)) == Lower(text)
  {
    LowerIsStripped(text);
    hide ParseInt, Strip, LowerChar, Lower, Body;
    LowerTwice(text);
    LowerHead(text);
    BodyLower(text);
    ParseLower(Body(text));
  }

  lemma PlainEnd(f: string)
    requires f != [] && PlainDigits(f, 16)
    ensures !IsSpace(f[|f| - 1])
  {
    assert DigitValue(f[|f| - 1]) < 16;
  }

  lemma LowerMinus(f: string)
    requires Lower(f) == f
    ensures Lower("-" + f) == "-" + f
  {
    forall i | 0 <= i < |f| ensures LowerChar(f[i]) == f[i] { assert Lower(f)[i] == LowerChar(f[i]); }
    LowerCharLaws('-');
  }

  lemma NegativeHexText(p: int)
    requires p < 0
    ensures CanonicalText(HexText(p)) == HexText(p)
  {
    hide Format, Lower, Strip, PlainDigits, Value, ParseInt, IsSpace;
    var f := Format(-p, 16, WIDTH - 1);
    FormatPlain(-p, 16, WIDTH - 1);
    FormatLower(-p, WIDTH - 1);
    PlainEnd(f);
    LowerMinus(f);
    MinusIsNoSpace();
    var t := HexText(p);
    assert t == "-" + f && t[|t| - 1] == f[|f| - 1];
    StripNothing(t);
  }

  lemma MinusIsNoSpace()
    ensures !IsSpace('-')
  {}

  lemma {:induction false} DigitsLower(n: nat)
    ensures Lower(Digits(n, 16)) == Digits(n, 16)
    decreases n
  {
    assert forall d | 0 <= d < 16 :: LowerChar(DigitChar(d)) == DigitChar(d);
    if n >= 16 {
      DigitsLower(n / 16);
    }
  }

  lemma FormatLower(n: nat, width: nat)
    ensures Lower(Format(n, 16, width)) == Format(n, 16, width)
  {
    DigitsLower(n);
  }

  /** The prefix is stripped twice: once here, once by the reader. */
  lemma DoublePrefix(digits: string)
    requires digits != [] && PlainDigits(digits, 16)
    ensures CanonicalText("0x0x" + digits) == Canonical(Number(Value(digits, 16)))
  {
    hide Strip, ParseInt, Body, Value, PlainDigits, Format, Lower, CanonicalText, Canonical;
    var text := "0x0x" + digits;
    assert text == "0x" + ("0x" + digits);
    PrefixedEnds(digits);
    PrefixedBody("0x" + digits);
    ParsePlain(digits, 16);
    assert [] + text + [] == text && text[|text| - 1] == digits[|digits| - 1] && text[0] == '0';
    ZeroIsNoSpace();
    SpellingOf([], text, [], Value(digits, 16));
  }

  lemma ZeroIsNoSpace()
    ensures !IsSpace('0')
  {}

  lemma ParseMinus(digits: string)
    requires digits != [] && PlainDigits(digits, 16)
    ensures ParseInt("-" + digits, 16) == Some(-(Value(digits, 16) as int))
  {
    hide ParseMagnitude, Value, PlainDigits, DigitValue;
    MagnitudePlain(digits, 16);
    SignedMinus(digits);
    assert SkipSpace("-" + digits) == "-" + digits;
  }

  lemma SignedMinus(digits: string)
    ensures ParseSigned("-" + digits, 16) ==
            match ParseMagnitude(digits, 16) case None => None case Some(v) => Some(-(v as int))
  {
    assert ("-" + digits)[1..] == digits;
    hide ParseMagnitude;
  }

  lemma NegativeText(v: nat)
    ensures HexText(-(v as int)) == if v == 0 then Format(0, 16, 16) else "-" + Format(v, 16, 15)
  {
    hide Format;
  }

  /** A sign behind the prefix is read too: the text has a minus sign, which no serial's has. */
  lemma SignBehindPrefix(digits: string)
    requires digits != [] && PlainDigits(digits, 16)
    ensures var v := Value(digits, 16);
            CanonicalText("0x-" + digits) == if v == 0 then Format(0, 16, 16) else "-" + Format(v, 16, 15)
  {
    hide ParseInt, Body, Value, PlainDigits, Format, Lower, HexText, Strip;
    var text := "0x-" + digits;
    assert text == "0x" + ("-" + digits);
    PrefixedEnds(digits);
    PrefixedBody("-" + digits);
    ParseMinus(digits);
    ZeroIsNoSpace();
    assert text[0] == '0' && text[|text| - 1] == digits[|digits| - 1];
    StripNothing(text);
    NegativeText(Value(digits, 16));
  }

  /** Only the capital letters are folded, each to its small one. */
  lemma LowerCharIs(c: char)
    ensures !('A' <= LowerChar(c) <= 'Z')
    ensures !('A' <= c <= 'Z') ==> LowerChar(c) == c
    ensures 'A' <= c <= 'Z' ==> LowerChar(c) as int - 'a' as int == c as int - 'A' as int
  {}

  /** White space to the stripper: tab to carriage return, the four separators, and the blank. */
  lemma SpaceIs(c: char)
    ensures IsSpace(c) <==> 9 <= c as int <= 13 || 28 <= c as int <= 32
  {}

  predicate IsSerial(s: string) {
    Strip(s) != [] && Strip(s)[0] != '-' && ParseInt(Body(Strip(s)), 16).Some?
  }

  /** Text that is no serial keeps its identity: two such texts render alike exactly when they differ
      only in case and in the white space around them. */
  lemma OtherTextsAgree(s: string, t: string)
    requires !IsSerial(s) && !IsSerial(t)
    ensures CanonicalText(s) == CanonicalText(t) <==> Lower(Strip(s)) == Lower(Strip(t))
    ensures CanonicalText(s) == Lower(Strip(s))
  {
    hide Strip, ParseInt, Body;
  }

  /** A stored negative number is no serial either: it renders as its own decimal text. */
  lemma NegativeIsDecimal(n: nat)
    requires n > 0
    ensures Canonical(Number(-(n as int))) == "-" + Format(n, 10, 1)
  {
    FormatPlain(n, 10, 1);
    var f := Format(n, 10, 1);
    hide Format, Value;
    DecimalText(f);
  }

  lemma DecimalText(f: string)
    requires f != [] && PlainDigits(f, 10)
    ensures Lower(Strip("-" + f)) == "-" + f
  {
    var t := "-" + f;
    assert DigitValue(f[|f| - 1]) < 10;
    MinusIsNoSpace();
    assert t[|t| - 1] == f[|f| - 1] && !IsSpace(t[|t| - 1]) && t[0] == '-';
    StripNothing(t);
    forall i | 0 <= i < |t| ensures LowerChar(t[i]) == t[i] {
      assert i > 0 ==> t[i] == f[i - 1] && DigitValue(f[i - 1]) < 10;
    }
  }
}
