/** Reading WebAuthn binary fields in either base64 alphabet (sections 4 and 5 of RFC 4648). Python's
    decoder is the four-position automaton of its binascii module, in a strict and a lenient mode. */
module Base64Id {
  import opened Sequences
  import opened Wrappers

  type Octet = n: nat | n < 256

  type Octets = seq<Octet>

  /** The value of a character of the standard alphabet. */
  function Sextet(c: char): (v: Option<nat>)
    ensures v.Some? ==> v.value < 64
  {
    if 'A' <= c <= 'Z' then Some(c as int - 'A' as int)
    else if 'a' <= c <= 'z' then Some(c as int - 'a' as int + 26)
    else if '0' <= c <= '9' then Some(c as int - '0' as int + 52)
    else if c == '+' then Some(62)
    else if c == '/' then Some(63)
    else None
  }

  function StdChar(v: nat): char
    requires v < 64
  {
    if v < 26 then (v + 'A' as int) as char
    else if v < 52 then (v - 26 + 'a' as int) as char
    else if v < 62 then (v - 52 + '0' as int) as char
    else if v == 62 then '+' else '/'
  }

  function UrlChar(v: nat): char
    requires v < 64
  {
    if v == 62 then '-' else if v == 63 then '_' else StdChar(v)
  }

  // ----- encoding

  predicate Small(s: seq<nat>) { forall i | 0 <= i < |s| :: s[i] < 64 }

  function Group(b0: Octet, b1: Octet, b2: Octet): (s: seq<nat>)
    ensures |s| == 4 && Small(s)
  {
    [b0 / 4, b0 % 4 * 16 + b1 / 16, b1 % 16 * 4 + b2 / 64, b2 % 64]
  }

  /** Three octets are four sextets; a last one or two octets are filled up with zero bits. */
  function Sextets(data: Octets): (s: seq<nat>)
    ensures Small(s)
  {
    if data == [] then []
    else if |data| == 1 then [data[0] / 4, data[0] % 4 * 16]
    else if |data| == 2 then [data[0] / 4, data[0] % 4 * 16 + data[1] / 16, data[1] % 16 * 4]
    else Group(data[0], data[1], data[2]) + Sextets(data[3..])
  }

  function Padding(n: nat): (p: string)
    ensures |p| == (if n % 4 == 0 then 0 else 4 - n % 4)
    ensures (n + |p|) % 4 == 0
  {
    Repeat('=', if n % 4 == 0 then 0 else 4 - n % 4)
  }

  /** base64.b64encode: standard alphabet, padded. */
  function StdEncode(data: Octets): string {
    var s := Sextets(data);
    seq(|s|, i requires 0 <= i < |s| => StdChar(s[i])) + Padding(|s|)
  }

  /** The encoder of the CLI: URL alphabet, padding stripped. */
  function UrlEncode(data: Octets): (r: string)
    ensures |r| == |Sextets(data)|
  {
    var s := Sextets(data);
    seq(|s|, i requires 0 <= i < |s| => UrlChar(s[i]))
  }

  // ----- decoding

  /** The decoder's registers: position within four characters, bits left over, pads seen since the
      last data character, and whether any pad was seen. */
  datatype Registers = Registers(quad: nat, left: nat, pads: nat, padding: bool, out: Octets) {
    ghost predicate Valid() {
      && quad < 4 && (quad == 0 ==> left == 0) && (quad == 1 ==> left < 64)
      && (quad == 2 ==> left < 16) && (quad == 3 ==> left < 4)
    }

    /** Takes in one sextet. */
    function Push(v: nat): (r: Registers)
      requires Valid() && v < 64
      ensures r.Valid()
    {
      var r := this.(pads := 0);
      if quad == 0 then r.(quad := 1, left := v)
      else if quad == 1 then r.(quad := 2, left := v % 16, out := out + [left * 4 + v / 16])
      else if quad == 2 then r.(quad := 3, left := v % 4, out := out + [left * 16 + v / 4])
      else r.(quad := 0, left := 0, out := out + [left * 64 + v])
    }
  }

  const START := Registers(0, 0, 0, false, [])

  function Run(s: string, strict: bool, r: Registers): Option<Octets>
    requires r.Valid()
  {
    if s == [] then (if r.quad == 0 then Some(r.out) else None)
    else if s[0] == '=' then
      var pads := if r.quad >= 2 then r.pads + 1 else r.pads;
      if strict && r.quad == 0 then None
      else if r.quad >= 2 && r.quad + pads >= 4 then (if strict && |s| > 1 then None else Some(r.out))
      else Run(s[1..], strict, r.(pads := pads, padding := true))
    else
      match Sextet(s[0])
      case None => if strict then None else Run(s[1..], strict, r)
      case Some(v) => if strict && r.padding then None else Run(s[1..], strict, r.Push(v))
  }

  function A2b(s: string, strict: bool): Option<Octets> {
    Run(s, strict, START)
  }

  function TranslateChar(c: char): char { if c == '-' then '+' else if c == '_' then '/' else c }

  function Translate(s: string): (r: string)
    ensures |r| == |s|
  {
    if s == [] then [] else [TranslateChar(s[0])] + Translate(s[1..])
  }

  predicate Ascii(s: string) { forall c | c in s :: c < 128 as char }

  /** The second attempt: pad to a multiple of four, read as base64url, leniently. */
  function UrlRead(data: string): Option<Octets> {
    A2b(Translate(data + Padding(|data|)), false)
  }

  function DecodeId(data: string): Option<Octets> {
    if data == [] || !Ascii(data) then None
    else match A2b(data, true)
         case Some(bytes) => Some(bytes)
         case None => UrlRead(data)
  }

  // ----- a string readable in both alphabets has one meaning

  lemma {:induction false} PadsAtBoundary(n: nat, r: Registers)
    requires r.Valid() && r.quad == 0
    ensures Run(Repeat('=', n), false, r) == Some(r.out)
  {
    if n > 0 {
      assert Repeat('=', n)[1..] == Repeat('=', n - 1);
      PadsAtBoundary(n - 1, r.(padding := true));
    }
  }

  /** Whatever the strict reader accepts, the lenient reader of the translated and padded text reads
      as the same octets. */
  lemma {:induction false} StrictThenLenient(s: string, n: nat, r: Registers)
    requires r.Valid() && Run(s, true, r).Some?
    ensures Run(Translate(s) + Repeat('=', n), false, r) == Run(s, true, r)
  {
    hide Sextet;
    var t := Translate(s) + Repeat('=', n);
    if s == [] {
      assert t == Repeat('=', n);
      PadsAtBoundary(n, r);
    } else {
      assert t[0] == TranslateChar(s[0]) && t[1..] == Translate(s[1..]) + Repeat('=', n);
      assert TranslateChar('=') == '=';
      if s[0] == '=' {
        var pads := if r.quad >= 2 then r.pads + 1 else r.pads;
        if !(r.quad >= 2 && r.quad + pads >= 4) {
          StrictThenLenient(s[1..], n, r.(pads := pads, padding := true));
        }
      } else {
        StandardIsKept(s[0]);
        StrictThenLenient(s[1..], n, r.Push(Sextet(s[0]).value));
      }
    }
  }

  lemma StandardIsKept(c: char)
    ensures Sextet(c).Some? ==> TranslateChar(c) == c && c != '='
  {}

  lemma {:induction false} TranslateConcat(s: string, t: string)
    ensures Translate(s + t) == Translate(s) + Translate(t)
  {
    hide TranslateChar, Translate;
    if s == [] {
      assert s + t == t;
      TranslateNothing();
    } else {
      TranslateConcat(s[1..], t);
      TranslateStep(s);
      TranslateStep(s + t);
      assert (s + t)[0] == s[0] && (s + t)[1..] == s[1..] + t;
      var c, u, v := [TranslateChar(s[0])], Translate(s[1..]), Translate(t);
      assert c + (u + v) == (c + u) + v;
    }
  }

  lemma TranslateNothing()
    ensures Translate([]) == []
  {}

  lemma TranslateStep(s: string)
    requires s != []
    ensures Translate(s) == [TranslateChar(s[0])] + Translate(s[1..])
  {
    hide TranslateChar;
  }

  lemma {:induction false} PadsTranslated(n: nat)
    ensures Translate(Repeat('=', n)) == Repeat('=', n)
  {
    if n > 0 {
      PadsTranslated(n - 1);
      assert Repeat('=', n)[1..] == Repeat('=', n - 1);
    }
  }

  /** The strict first attempt never changes the answer: an id is always what its base64url reading
      says, so a string readable in both alphabets has one meaning. */
  lemma OneMeaning(data: string)
    requires data != [] && Ascii(data)
    ensures DecodeId(data) == UrlRead(data)
  {
    var n := |Padding(|data|)|;
    TranslateConcat(data, Repeat('=', n));
    PadsTranslated(n);
    hide Run, Translate;
    if A2b(data, true).Some? {
      StrictThenLenient(data, n, START);
    }
  }

  // ----- which texts are refused

  /** A character of either alphabet. */
  predicate IsDigit(c: char) { Sextet(TranslateChar(c)).Some? }

  function DigitCount(s: string): nat {
    if s == [] then 0 else (if IsDigit(s[0]) then 1 else 0) + DigitCount(s[1..])
  }

  lemma PushTurns(r: Registers, v: nat)
    requires r.Valid() && v < 64
    ensures r.Push(v).quad == (r.quad + 1) % 4 && r.Push(v).pads == 0
  {}

  lemma RunStep(c: char, rest: string, r: Registers)
    requires r.Valid() && c != '='
    ensures Run([c] + rest, false, r) == match Sextet(c) case None => Run(rest, false, r) case Some(v) => Run(rest, false, r.Push(v))
  {
    hide Sextet;
    assert ([c] + rest)[1..] == rest;
  }

  lemma TranslatedPad(c: char)
    ensures TranslateChar(c) == '=' <==> c == '='
  {}

  /** The position within four characters counts the digits read, whatever stands between them. */
  lemma {:induction false} DigitsTurn(s: string, pads: nat, r: Registers) returns (after: Registers)
    requires r.Valid() && r.pads == 0 && '=' !in s
    ensures after.Valid() && after.pads == 0 && after.quad == (r.quad + DigitCount(s)) % 4
    ensures Run(Translate(s) + Repeat('=', pads), false, r) == Run(Repeat('=', pads), false, after)
    ensures DigitCount(s) == 0 ==> after == r
  {
    hide Run, Sextet, TranslateChar, Translate, Repeat, Registers.Push;
    if s == [] {
      TranslateNothing();
      assert [] + Repeat('=', pads) == Repeat('=', pads);
      after := r;
    } else {
      var c, tail := TranslateChar(s[0]), Translate(s[1..]) + Repeat('=', pads);
      TranslateStep(s);
      TranslatedPad(s[0]);
      RunStep(c, tail, r);
      assert Translate(s) + Repeat('=', pads) == [c] + tail;
      assert forall t | t in s[1..] :: t in s;
      var next := if Sextet(c).Some? then r.Push(Sextet(c).value) else r;
      if Sextet(c).Some? {
        PushTurns(r, Sextet(c).value);
      }
      after := DigitsTurn(s[1..], pads, next);
    }
  }

  /** The end of the lenient reading: one digit over is refused, two or three need their padding. */
  lemma PadsDecide(pads: nat, r: Registers)
    requires r.Valid() && r.pads == 0 && pads < 4
    ensures Run(Repeat('=', pads), false, r).Some? <==>
            r.quad == 0 || (r.quad == 2 && pads >= 2) || (r.quad == 3 && pads >= 1)
    ensures r.quad == 0 ==> Run(Repeat('=', pads), false, r) == Some(r.out)
  {
    hide Run, Repeat;
    if r.quad == 0 {
      PadsAtBoundary(pads, r);
    } else {
      RunPads(pads, r);
      if pads > 0 {
        var next := r.(pads := if r.quad >= 2 then 1 else 0, padding := true);
        RunPads(pads - 1, next);
        if pads > 1 {
          var third := next.(pads := if r.quad >= 2 then 2 else 0);
          RunPads(pads - 2, third);
          if pads > 2 {
            RunPads(0, third.(pads := if r.quad >= 2 then 3 else 0));
          }
        }
      }
    }
  }

  lemma RunPads(n: nat, r: Registers)
    requires r.Valid()
    ensures var pads := if r.quad >= 2 then r.pads + 1 else r.pads;
            Run(Repeat('=', n), false, r) ==
            if n == 0 then (if r.quad == 0 then Some(r.out) else None)
            else if r.quad >= 2 && r.quad + pads >= 4 then Some(r.out)
            else Run(Repeat('=', n - 1), false, r.(pads := pads, padding := true))
  {
    if n > 0 {
      assert Repeat('=', n)[1..] == Repeat('=', n - 1);
    }
  }

  /** Characters outside both alphabets are skipped, not refused: text without padding is refused
      exactly when its digits end within a group, one digit over, or with more digits over than the
      padding for its length makes up for. */
  lemma RefusedExactly(data: string)
    requires data != [] && Ascii(data) && '=' !in data
    ensures var over, pads := DigitCount(data) % 4, |Padding(|data|)|;
            DecodeId(data).None? <==> over == 1 || (over == 2 && pads < 2) || (over == 3 && pads < 1)
  {
    hide DecodeId, Ascii, DigitCount, Run, Translate, Repeat;
    OneMeaning(data);
    UrlReadOf(data);
    var pads := |Padding(|data|)|;
    var after := DigitsTurn(data, pads, START);
    PadsDecide(pads, after);
  }

  lemma UrlReadOf(data: string)
    ensures var pads := |Padding(|data|)|;
            pads < 4 && UrlRead(data) == Run(Translate(data) + Repeat('=', pads), false, START)
  {
    var pads := |Padding(|data|)|;
    TranslateConcat(data, Repeat('=', pads));
    PadsTranslated(pads);
    hide Translate, Run;
  }

  /** On text of the alphabets alone, any length but one over a multiple of four is read. */
  lemma OnlyDigits(data: string)
    requires data != [] && Ascii(data) && '=' !in data && DigitCount(data) == |data|
    ensures DecodeId(data).None? <==> |data| % 4 == 1
  {
    hide DecodeId, Ascii, DigitCount;
    RefusedExactly(data);
  }

  /** It happens: text with no digit at all is no error, but the empty id. */
  lemma ForeignTextIsEmptyId(data: string)
    requires data != [] && Ascii(data) && '=' !in data && DigitCount(data) == 0
    ensures DecodeId(data) == Some([])
  {
    hide DecodeId, Ascii, DigitCount, Run, Translate, Repeat;
    OneMeaning(data);
    UrlReadOf(data);
    var pads := |Padding(|data|)|;
    var after := DigitsTurn(data, pads, START);
    PadsDecide(pads, START);
  }

  lemma {:induction false} NoDigits(s: string)
    requires forall c | c in s :: !IsDigit(c)
    ensures DigitCount(s) == 0
  {
    hide IsDigit;
    if s != [] {
      assert s[0] in s && forall c | c in s[1..] :: c in s;
      NoDigits(s[1..]);
    }
  }

  lemma ExclamationMarks()
    ensures DecodeId("!!!!") == Some([])
  {
    hide DecodeId, DigitCount;
    var data := "!!!!";
    NoDigits(data);
    ForeignTextIsEmptyId(data);
  }

  // ----- decoding what the encoders write

  lemma StdCharIsRead(v: nat)
    requires v < 64
    ensures Sextet(StdChar(v)) == Some(v) && StdChar(v) != '=' && StdChar(v) < 128 as char && UrlChar(v) < 128 as char
    ensures TranslateChar(UrlChar(v)) == StdChar(v) && TranslateChar(StdChar(v)) == StdChar(v)
  {}

  function StdChars(s: seq<nat>): string
    requires Small(s)
  {
    if s == [] then [] else [StdChar(s[0])] + StdChars(s[1..])
  }

  lemma ReadOne(v: nat, rest: string, r: Registers)
    requires v < 64 && r.Valid()
    ensures Run([StdChar(v)] + rest, false, r) == Run(rest, false, r.Push(v))
  {
    StdCharIsRead(v);
    hide Sextet, StdChar;
    assert ([StdChar(v)] + rest)[1..] == rest;
  }

  lemma ReadPads(r: Registers)
    requires r.Valid() && r.pads == 0
    ensures r.quad == 2 ==> Run(Repeat('=', 2), false, r) == Some(r.out)
    ensures r.quad == 3 ==> Run(Repeat('=', 1), false, r) == Some(r.out)
    ensures r.quad == 0 ==> Run(Repeat('=', 0), false, r) == Some(r.out)
  {
    assert Repeat('=', 2)[1..] == Repeat('=', 1) && Repeat('=', 1)[1..] == Repeat('=', 0) == [];
  }

  /** Four characters give back three octets. */
  lemma GroupBits(b0: Octet, b1: Octet, b2: Octet, r: Registers)
    requires r.Valid() && r.quad == 0
    ensures r.Push(b0 / 4).Push(b0 % 4 * 16 + b1 / 16).Push(b1 % 16 * 4 + b2 / 64).Push(b2 % 64) ==
            Registers(0, 0, 0, r.padding, r.out + [b0, b1, b2])
    ensures r.Push(b0 / 4).Push(b0 % 4 * 16) == Registers(2, 0, 0, r.padding, r.out + [b0])
    ensures r.Push(b0 / 4).Push(b0 % 4 * 16 + b1 / 16).Push(b1 % 16 * 4) ==
            Registers(3, 0, 0, r.padding, r.out + [b0, b1])
  {
    assert (b0 % 4 * 16 + b1 / 16) / 16 == b0 % 4 && (b0 % 4 * 16 + b1 / 16) % 16 == b1 / 16;
    assert (b1 % 16 * 4 + b2 / 64) / 4 == b1 % 16 && (b1 % 16 * 4 + b2 / 64) % 4 == b2 / 64;
    assert r.out + [b0] + [b1] + [b2] == r.out + [b0, b1, b2];
    assert r.out + [b0] + [b1] == r.out + [b0, b1];
  }

  function PadCount(data: Octets): nat { if |data| % 3 == 0 then 0 else 3 - |data| % 3 }

  lemma ReadPair(s: seq<nat>, p: string, r: Registers)
    requires r.Valid() && |s| >= 2 && Small(s)
    ensures Run(StdChars(s) + p, false, r) == Run(StdChars(s[2..]) + p, false, r.Push(s[0]).Push(s[1]))
  {
    hide Run, StdChar, Registers.Push;
    assert s[1..][1..] == s[2..] && s[1..][0] == s[1];
    assert StdChars(s) + p == [StdChar(s[0])] + (StdChars(s[1..]) + p);
    assert StdChars(s[1..]) + p == [StdChar(s[1])] + (StdChars(s[2..]) + p);
    ReadOne(s[0], StdChars(s[1..]) + p, r);
    ReadOne(s[1], StdChars(s[2..]) + p, r.Push(s[0]));
  }

  lemma ReadLastOne(b: Octet, r: Registers)
    requires r.Valid() && r.quad == 0
    ensures Run(StdChars(Sextets([b])) + Repeat('=', 2), false, r) == Some(r.out + [b])
  {
    hide Run, StdChar, Registers.Push, Repeat;
    var s := Sextets([b]);
    ReadPair(s, Repeat('=', 2), r);
    GroupBits(b, 0, 0, r);
    assert StdChars(s[2..]) + Repeat('=', 2) == Repeat('=', 2);
    ReadPads(r.Push(s[0]).Push(s[1]));
  }

  lemma ReadLastTwo(b0: Octet, b1: Octet, r: Registers)
    requires r.Valid() && r.quad == 0
    ensures Run(StdChars(Sextets([b0, b1])) + Repeat('=', 1), false, r) == Some(r.out + [b0, b1])
  {
    hide Run, StdChar, Registers.Push, Repeat;
    var s := Sextets([b0, b1]);
    ReadPair(s, Repeat('=', 1), r);
    GroupBits(b0, b1, 0, r);
    assert s[2..][1..] == [] && StdChars(s[2..]) + Repeat('=', 1) == [StdChar(s[2])] + Repeat('=', 1);
    ReadOne(s[2], Repeat('=', 1), r.Push(s[0]).Push(s[1]));
    ReadPads(r.Push(s[0]).Push(s[1]).Push(s[2]));
  }

  lemma ReadGroup(data: Octets, p: string, r: Registers)
    requires r.Valid() && r.quad == 0 && |data| >= 3
    ensures Run(StdChars(Sextets(data)) + p, false, r) ==
            Run(StdChars(Sextets(data[3..])) + p, false, Registers(0, 0, 0, r.padding, r.out + data[..3]))
  {
    hide Run, StdChar, Registers.Push;
    var s := Sextets(data);
    GroupBits(data[0], data[1], data[2], r);
    ReadPair(s, p, r);
    ReadPair(s[2..], p, r.Push(s[0]).Push(s[1]));
    assert s[2..][2..] == Sextets(data[3..]) && data[..3] == [data[0], data[1], data[2]];
  }

  lemma {:induction false} ReadBack(data: Octets, r: Registers)
    requires r.Valid() && r.quad == 0 && r.pads == 0
    ensures Run(StdChars(Sextets(data)) + Repeat('=', PadCount(data)), false, r) == Some(r.out + data)
    decreases |data|
  {
    hide Run, StdChar, StdChars, Registers.Push, Repeat, Sextets;
    if |data| == 1 {
      assert data == [data[0]];
      ReadLastOne(data[0], r);
    } else if |data| == 2 {
      assert data == [data[0], data[1]];
      ReadLastTwo(data[0], data[1], r);
    } else if |data| >= 3 {
      ReadGroup(data, Repeat('=', PadCount(data)), r);
      ReadBack(data[3..], Registers(0, 0, 0, r.padding, r.out + data[..3]));
      assert r.out + data[..3] + data[3..] == r.out + data;
    } else {
      ReadNothing(r);
      assert data == [] && r.out + data == r.out;
    }
  }

  lemma ReadNothing(r: Registers)
    requires r.Valid() && r.quad == 0 && r.pads == 0
    ensures Run(StdChars(Sextets([])) + Repeat('=', 0), false, r) == Some(r.out)
  {
    ReadPads(r);
    assert StdChars(Sextets([])) + Repeat('=', 0) == Repeat('=', 0);
  }

  lemma {:induction false} StdCharsAre(s: seq<nat>)
    requires Small(s)
    ensures |StdChars(s)| == |s| && forall i | 0 <= i < |s| :: StdChars(s)[i] == StdChar(s[i])
  {
    hide StdChar;
    if s != [] {
      StdCharsAre(s[1..]);
    }
  }

  lemma {:induction false} TranslateAt(s: string, i: nat)
    requires i < |s|
    ensures Translate(s)[i] == TranslateChar(s[i])
  {
    if i > 0 {
      TranslateAt(s[1..], i - 1);
    }
  }

  lemma SextetStep(data: Octets)
    ensures |data| >= 3 ==> |Sextets(data)| == 4 + |Sextets(data[3..])|
    ensures |data| == 0 ==> |Sextets(data)| == 0
    ensures |data| == 1 ==> |Sextets(data)| == 2
    ensures |data| == 2 ==> |Sextets(data)| == 3
  {
    hide Group;
  }

  lemma FourMore(n: nat, m: nat)
    ensures (4 + n) % 4 == n % 4 && (3 + m) % 3 == m % 3
  {}

  lemma {:induction false} SextetLength(data: Octets)
    ensures |Sextets(data)| % 4 == if |data| % 3 == 0 then 0 else |data| % 3 + 1
    ensures data != [] ==> |Sextets(data)| > 0
  {
    hide Sextets;
    SextetStep(data);
    if |data| >= 3 {
      var rest := data[3..];
      SextetLength(rest);
      FourMore(|Sextets(rest)|, |rest|);
    }
  }

  lemma SextetCount(data: Octets)
    ensures |Padding(|Sextets(data)|)| == PadCount(data)
    ensures data != [] ==> Sextets(data) != []
  {
    SextetLength(data);
    hide Sextets;
  }

  lemma EncodedLength(data: Octets, text: string)
    requires text == StdEncode(data) || text == UrlEncode(data)
    ensures |text + Padding(|text|)| == |Sextets(data)| + PadCount(data)
    ensures |Sextets(data)| <= |text|
  {
    hide StdChar, UrlChar, Sextets;
    SextetCount(data);
  }

  lemma EncodedChar(data: Octets, text: string, i: nat)
    requires text == StdEncode(data) || text == UrlEncode(data)
    requires i < |text + Padding(|text|)|
    ensures var c, s := (text + Padding(|text|))[i], Sextets(data);
            c < 128 as char && TranslateChar(c) == if i < |s| then StdChar(s[i]) else '='
  {
    hide StdChar, UrlChar, TranslateChar, Sextets;
    var s := Sextets(data);
    PadIsKept();
    if i < |s| {
      StdCharIsRead(s[i]);
    }
  }

  lemma PadIsKept()
    ensures TranslateChar('=') == '=' && '=' < 128 as char
  {}

  /** Both encodings, padded and translated, are the standard characters with their padding. */
  lemma SameText(data: Octets, text: string)
    requires text == StdEncode(data) || text == UrlEncode(data)
    ensures Translate(text + Padding(|text|)) == StdChars(Sextets(data)) + Repeat('=', PadCount(data))
    ensures Ascii(text) && (data != [] ==> text != [])
  {
    hide StdChar, UrlChar, StdEncode, UrlEncode, TranslateChar, Sextets, Translate, StdChars;
    var s, padded := Sextets(data), text + Padding(|text|);
    StdCharsAre(s);
    SextetCount(data);
    EncodedLength(data, text);
    forall i | 0 <= i < |padded| ensures Translate(padded)[i] == (StdChars(s) + Repeat('=', PadCount(data)))[i] {
      TranslateAt(padded, i);
      EncodedChar(data, text, i);
    }
    forall c | c in text ensures c < 128 as char {
      var i :| 0 <= i < |text| && text[i] == c;
      EncodedChar(data, text, i);
    }
  }

  /** Every non-empty byte string is returned from its padded standard form and from its unpadded
      base64url form. */
  lemma DecodesBothForms(data: Octets)
    requires data != []
    ensures DecodeId(StdEncode(data)) == Some(data)
    ensures DecodeId(UrlEncode(data)) == Some(data)
  {
    hide StdEncode, UrlEncode, DecodeId, Run, Translate, Ascii;
    ReadBack(data, START);
    SameText(data, StdEncode(data));
    SameText(data, UrlEncode(data));
    OneMeaning(StdEncode(data));
    OneMeaning(UrlEncode(data));
    assert [] + data == data;
  }

  // ----- the alphabets and the order of the bits (sections 4, 5 and 10 of RFC 4648)

  const STANDARD := "ABCDEFGHIJKLMNOPQRSTUVWXYZ"
  const SMALL := "abcdefghijklmnopqrstuvwxyz"

  lemma Alphabets(v: nat)
    requires v < 64
    ensures v < 26 ==> StdChar(v) == STANDARD[v] == UrlChar(v)
    ensures 26 <= v < 52 ==> StdChar(v) == SMALL[v - 26] == UrlChar(v)
    ensures 52 <= v < 62 ==> StdChar(v) == "0123456789"[v - 52] == UrlChar(v)
    ensures v == 62 ==> StdChar(v) == '+' && UrlChar(v) == '-'
    ensures v == 63 ==> StdChar(v) == '/' && UrlChar(v) == '_'
  {}

  lemma Recombine(a: nat, b: nat, c: nat, d: nat)
    requires a < 64 && b < 64 && c < 64 && d < 64
    ensures a * 4 + b / 16 < 256 && b % 16 * 16 + c / 4 < 256 && c % 4 * 64 + d < 256
    ensures (a * 4 + b / 16) / 4 == a && (a * 4 + b / 16) % 4 == b / 16
    ensures (b % 16 * 16 + c / 4) / 16 == b % 16 && (b % 16 * 16 + c / 4) % 16 == c / 4
    ensures (c % 4 * 64 + d) / 64 == c % 4 && (c % 4 * 64 + d) % 64 == d
  {}

  /** Four sextets are the octets they spell, most significant bits first. */
  lemma SixBits(a: nat, b: nat, c: nat, d: nat)
    requires a < 64 && b < 64 && c < 64 && d < 64
    ensures var b0, b1, b2 := a * 4 + b / 16, b % 16 * 16 + c / 4, c % 4 * 64 + d;
            b0 < 256 && b1 < 256 && b2 < 256 && Sextets([b0, b1, b2]) == [a, b, c, d]
  {
    hide Sextets;
    Recombine(a, b, c, d);
    var b0: Octet, b1: Octet, b2: Octet := a * 4 + b / 16, b % 16 * 16 + c / 4, c % 4 * 64 + d;
    OneGroup(b0, b1, b2);
  }

  lemma OneGroup(b0: Octet, b1: Octet, b2: Octet)
    ensures Sextets([b0, b1, b2]) == [b0 / 4, b0 % 4 * 16 + b1 / 16, b1 % 16 * 4 + b2 / 64, b2 % 64]
  {
    assert [b0, b1, b2][3..] == [] && Sextets([]) == [];
    assert Group(b0, b1, b2) + [] == Group(b0, b1, b2);
  }
}
