/** `message::get_displayed_content`: what is printed for a payload, and which number
    the printed text denotes. */
module Display {
  import opened Numerals
  import opened Wire

  const DATA_TYPE_INT: byte := 0
  const DATA_TYPE_SHORT_REAL: byte := 1
  const DATA_TYPE_FLOAT: byte := 2
  const DATA_TYPE_STRING: byte := 3

  const WORD := 0x1_0000_0000

  /** The text, or undefined behaviour: a division by zero, or a read past the content. */
  datatype Rendered = Text(text: string) | Undefined

  /** `ntohl` and `ntohs` of the bytes as they lie. */
  function BigEndian32(bytes: seq<byte>): (n: nat)
    requires |bytes| == 4
    ensures n < WORD
  {
    var b0: nat, b1: nat, b2: nat, b3: nat := bytes[0], bytes[1], bytes[2], bytes[3];
    ((b0 * 256 + b1) * 256 + b2) * 256 + b3
  }

  function BigEndian16(bytes: seq<byte>): (n: nat)
    requires |bytes| == 2
    ensures n < 0x1_0000
  {
    var high: nat, low: nat := bytes[0], bytes[1];
    high * 256 + low
  }

  /** The four, or two, bytes of a number with the most significant one first are read as
      that number. */
  lemma NetworkOrder(n: nat)
    ensures n < 0x1_0000_0000 ==>
      BigEndian32([n / 0x100_0000, n / 0x1_0000 % 256, n / 0x100 % 256, n % 256]) == n
    ensures n < 0x1_0000 ==> BigEndian16([n / 0x100, n % 256]) == n
  {
    assert n / 0x100 / 256 == n / 0x1_0000 && n / 0x1_0000 / 256 == n / 0x100_0000;
  }

  /** `power_of_10` after the loop: a 32-bit product that wraps around. */
  function WrappedPower(e: nat): nat {
    Pow10(e) % WORD
  }

  function Sign(negative: bool): string {
    if negative then "-" else ""
  }

  function DisplayInt(negative: bool, n: nat): string {
    Sign(negative && n != 0) + Dec(n)
  }

  function DisplayShortReal(n: nat): string {
    Dec(n / 100) + "." + Pad(Dec(n % 100), 2)
  }

  function DisplayFloat(negative: bool, m: nat, e: nat): (r: Rendered)
    ensures r.Text? <==> e < 32
  {
    WrappedPowerZero(e);
    var power := WrappedPower(e);
    if power == 0 then Undefined
    else Text(Sign(negative) + Dec(m / power) + "." + Pad(Dec(m % power), e))
  }

  /** What a complete message shows. */
  function DisplayedContent(m: Message): Rendered
    requires m.Packed()
  {
    var c := m.content;
    if m.dataType == DATA_TYPE_INT then Text(DisplayInt(c[0] == 1, BigEndian32(c[1..5])))
    else if m.dataType == DATA_TYPE_SHORT_REAL then Text(DisplayShortReal(BigEndian16(c[0..2])))
    else if m.dataType == DATA_TYPE_FLOAT then DisplayFloat(c[0] == 1, BigEndian32(c[1..5]), c[5])
    else if m.dataType == DATA_TYPE_STRING then if 0 in c then Text(CString(c)) else Undefined
    else Text("INVALID")
  }

  method GetDisplayedContent(m: Message) returns (r: Rendered)
    requires m.Packed()
    ensures r == DisplayedContent(m)
  {
    hide Pow10, WrappedPower, Dec, Pad, CString, BigEndian32, BigEndian16;
    var content := m.content;
    WrappedPowerStep(0);
    var ss := "";
    if m.dataType == DATA_TYPE_INT {
      var sign, number := content[0], BigEndian32(content[1..5]);
      if sign == 1 && number != 0 {
        ss := ss + "-";
      }
      ss := ss + Dec(number);
    } else if m.dataType == DATA_TYPE_SHORT_REAL {
      var numberTimes100 := BigEndian16(content[0..2]);
      ss := ss + Dec(numberTimes100 / 100) + ".";
      ss := ss + Pad(Dec(numberTimes100 % 100), 2);
    } else if m.dataType == DATA_TYPE_FLOAT {
      var sign, mantissa, exponent := content[0], BigEndian32(content[1..5]), content[5];
      var powerOf10 := 1;
      for i := 0 to exponent
        invariant powerOf10 == WrappedPower(i)
      {
        WrappedPowerStep(i);
        powerOf10 := powerOf10 * 10 % WORD;
      }
      if sign == 1 {
        ss := ss + "-";
      }
      if powerOf10 == 0 {
        return Undefined;
      }
      ss := ss + Dec(mantissa / powerOf10) + ".";
      ss := ss + Pad(Dec(mantissa % powerOf10), exponent);
    } else if m.dataType == DATA_TYPE_STRING {
      if 0 !in content {
        return Undefined;
      }
      ss := ss + CString(content);
    } else {
      ss := ss + "INVALID";
    }
    return Text(ss);
  }

  /** Wrapping after every multiplication is wrapping once at the end. */
  lemma WrappedPowerStep(e: nat)
    ensures WrappedPower(0) == 1
    ensures WrappedPower(e + 1) == WrappedPower(e) * 10 % WORD
  {
  }

  lemma MultipleVanishes(a: nat, k: nat)
    ensures (a + k * WORD) % WORD == a % WORD
  {
  }

  // When the wrapped power is the power, and when it is zero.

  function Pow2(e: nat): (p: nat)
    ensures p >= 1
  {
    if e == 0 then 1 else 2 * Pow2(e - 1)
  }

  lemma {:induction false} Pow2Sum(a: nat, b: nat)
    ensures Pow2(a + b) == Pow2(a) * Pow2(b)
  {
    if a > 0 {
      Pow2Sum(a - 1, b);
      assert Pow2(a) * Pow2(b) == 2 * (Pow2(a - 1) * Pow2(b));
    }
  }

  lemma TimesTen(p: nat, o: nat)
    ensures 10 * (p * o) == (2 * p) * (5 * o)
  {
  }

  /** 10^e is 2^e times an odd number. */
  lemma {:induction false} OddPart(e: nat) returns (odd: nat)
    ensures odd % 2 == 1 && Pow10(e) == Pow2(e) * odd
  {
    if e == 0 {
      odd := 1;
    } else {
      var o := OddPart(e - 1);
      odd := 5 * o;
      TimesTen(Pow2(e - 1), o);
    }
  }

  lemma {:induction false} Pow10Grows(a: nat, b: nat)
    requires a <= b
    ensures Pow10(a) <= Pow10(b)
  {
    if a < b {
      Pow10Grows(a, b - 1);
    }
  }

  lemma Pow2Word()
    ensures Pow2(32) == WORD
  {
    assert Pow2(8) == 256;
    Pow2Sum(8, 8);
    Pow2Sum(16, 16);
  }

  lemma WrappedPowerVanishes(e: nat)
    requires e >= 32
    ensures WrappedPower(e) == 0
  {
    hide Pow10, Pow2;
    var odd := OddPart(e);
    Pow2Word();
    Pow2Sum(32, e - 32);
    assert Pow10(e) == (Pow2(e - 32) * odd) * WORD;
    MultipleVanishes(0, Pow2(e - 32) * odd);
  }

  lemma WrappedPowerSurvives(e: nat)
    requires e < 32
    ensures WrappedPower(e) != 0
  {
    hide Pow10, Pow2;
    var odd := OddPart(e);
    Pow2Word();
    Pow2Sum(e, 32 - e);
    Pow2Sum(1, 31 - e);
    assert Pow2(1) == 2 by {
      Pow2One();
    }
    var k := Pow10(e) / WORD;
    if Pow10(e) == WORD * k {
      OddIsNoMultiple(Pow2(e), odd, Pow2(31 - e), k);
    }
  }

  lemma Pow2One()
    ensures Pow2(1) == 2
  {
  }

  lemma OddIsNoMultiple(a: nat, odd: nat, half: nat, k: nat)
    requires a > 0 && odd % 2 == 1
    ensures a * odd != a * (2 * half) * k
  {
    assert a * (2 * half) * k == a * (2 * (half * k));
    if a * odd == a * (2 * (half * k)) {
      Cancel(a, odd, 2 * (half * k));
    }
  }

  lemma Cancel(a: nat, x: nat, y: nat)
    requires a > 0 && a * x == a * y
    ensures x == y
  {
  }

  /** The wrapped power is zero exactly from exponent 32 on, so the divisions are
      defined exactly below that. */
  lemma WrappedPowerZero(e: nat)
    ensures WrappedPower(e) == 0 <==> e >= 32
  {
    if e >= 32 {
      WrappedPowerVanishes(e);
    } else {
      WrappedPowerSurvives(e);
    }
  }

  /** The wrapped power is the true power exactly up to exponent 9; beyond, it is less. */
  lemma WrappedPowerExact(e: nat)
    ensures WrappedPower(e) == Pow10(e) <==> e <= 9
    ensures e > 9 ==> WrappedPower(e) < Pow10(e)
  {
    if e <= 9 {
      Pow10Grows(e, 9);
      assert Pow10(9) == 1_000_000_000;
    } else {
      Pow10Grows(10, e);
      assert Pow10(10) == 10_000_000_000;
    }
  }

  // What the printed text denotes.

  /** INT parses back to the signed big-endian value, has no point, and is never "-0". */
  lemma IntRoundTrip(negative: bool, n: nat)
    ensures var text := DisplayInt(negative, n);
      && Denotes(text, negative && n != 0, n, 0)
      && Parse(text).fraction == "" && text != "-0"
  {
    DecValue(n);
    ParsePrinted(negative && n != 0, Dec(n), "");
    assert Dec(n) + "" == Dec(n);
  }

  /** SHORT_REAL always has exactly two decimals and parses back to n / 100. */
  lemma ShortRealRoundTrip(n: nat)
    ensures var text := DisplayShortReal(n);
      Denotes(text, false, n, 2) && |Parse(text).fraction| == 2
  {
    hide Value, Dec, Pad, Parse;
    var whole, fraction := Dec(n / 100), Pad(Dec(n % 100), 2);
    DecValue(n / 100);
    DecValue(n % 100);
    assert Pow10(2) == 100;
    DecWidth(n % 100, 2);
    PadValue(Dec(n % 100), 2);
    ParsePrinted(false, whole, fraction);
    assert "" + whole == whole;
    ValueAppend(whole, fraction);
  }

  /** The parts of a printed FLOAT: its quotient, and its remainder with exactly
      `e` decimals, or one when `e` is 0. */
  lemma FloatParts(negative: bool, m: nat, e: nat)
    requires e < 32 && m < WORD
    ensures var d, power := Parse(DisplayFloat(negative, m, e).text), WrappedPower(e);
      && power > 0 && WellFormed(d) && d.negative == negative
      && |d.fraction| == (if e == 0 then 1 else e) && (e == 0 ==> d.fraction == "0")
      && AllDigits(d.whole + d.fraction)
      && Value(d.whole + d.fraction) == m / power * Pow10(|d.fraction|) + m % power
  {
    hide Value, Dec, Pad, Parse, WrappedPower;
    WrappedPowerZero(e);
    var power := WrappedPower(e);
    var whole, fraction := Dec(m / power), Pad(Dec(m % power), e);
    DecValue(m / power);
    DecValue(m % power);
    PadValue(Dec(m % power), e);
    RemainderWidth(m, e);
    ParsePrinted(negative, whole, fraction);
    ValueAppend(whole, fraction);
  }

  lemma RemainderWidth(m: nat, e: nat)
    requires e < 32 && m < WORD && WrappedPower(e) > 0
    ensures if e == 0 then m % WrappedPower(e) == 0 && Pad(Dec(0), 0) == "0"
            else |Dec(m % WrappedPower(e))| <= e
  {
    WrappedPowerExact(e);
    if e > 0 {
      assert m % WrappedPower(e) < WrappedPower(e) <= Pow10(e);
      DecWidth(m % WrappedPower(e), e);
    }
  }

  /** The exact range of FLOAT: for every 32-bit mantissa and every exponent the loop can
      divide by, the text denotes the signed m / 10^e if and only if the exponent is at
      most 9 or the mantissa is below the wrapped power. */
  lemma FloatDenotes(negative: bool, m: nat, e: nat)
    requires e < 32 && m < WORD
    ensures Denotes(DisplayFloat(negative, m, e).text, negative, m, e) <==> e <= 9 || m < WrappedPower(e)
  {
    hide Value, Parse, WrappedPower, Pow10, Shift, DisplayFloat;
    FloatParts(negative, m, e);
    WrappedPowerExact(e);
    var d := Parse(DisplayFloat(negative, m, e).text);
    ShiftIsTimes(Value(d.whole + d.fraction), e);
    ShiftIsTimes(m, |d.fraction|);
    if e == 0 {
      PowersOfTen();
    } else {
      QuotientTimes(m, WrappedPower(e), Pow10(e));
    }
  }

  lemma PowersOfTen()
    ensures Pow10(0) == 1 && Pow10(1) == 10
  {
  }

  /** Reading quotient and remainder in base `ten` instead of `power` gives m back
      exactly when the bases agree or the quotient is zero. */
  lemma QuotientTimes(m: nat, power: nat, ten: nat)
    requires 0 < power <= ten
    ensures (m / power * ten + m % power) * ten == m * ten <==> power == ten || m < power
  {
  }

  /** The wrong side of that range is reached: 4294967295 / 10^10 is printed with the
      wrapped power 1410065408, as 3.0064771071. */
  lemma FloatMisprinted()
    ensures DisplayFloat(false, 0xFFFF_FFFF, 10) == Text("3.0064771071")
    ensures !Denotes("3.0064771071", false, 0xFFFF_FFFF, 10)
  {
    hide Dec, Pad, WrappedPower, Denotes;
    WrappedPowerTen();
    QuotientDigits();
    FloatDenotes(false, 0xFFFF_FFFF, 10);
  }

  lemma QuotientDigits()
    ensures Dec(0xFFFF_FFFF / 1_410_065_408) == "3"
    ensures Pad(Dec(0xFFFF_FFFF % 1_410_065_408), 10) == "0064771071"
  {
    hide Dec, Pad;
    DigitsOf(3, 6);
    DecNext(6, 4);
    DecNext(64, 7);
    DecNext(647, 7);
    DecNext(6_477, 1);
    DecNext(64_771, 0);
    DecNext(647_710, 7);
    DecNext(6_477_107, 1);
    assert Dec(64_771_071) == "64771071";
    PadNext("64771071", 8);
    PadNext("64771071", 9);
    PadNext("64771071", 10);
    assert "0" + "64771071" == "064771071" && "0" + "064771071" == "0064771071";
  }

  lemma DigitsOf(a: nat, b: nat)
    requires a < 10 && b < 10
    ensures Dec(a) == [Digit(a)] && Dec(b) == [Digit(b)]
  {
  }

  lemma DecNext(n: nat, d: nat)
    requires n > 0 && d < 10
    ensures Dec(10 * n + d) == Dec(n) + [Digit(d)]
  {
  }

  lemma PadNext(s: string, width: nat)
    ensures Pad(s, width) == if |s| >= width then s else "0" + Pad(s, width - 1)
  {
  }

  lemma WrappedPowerTen()
    ensures WrappedPower(10) == 1_410_065_408
  {
    assert Pow10(10) == 10_000_000_000;
  }

  /** When two FLOAT payloads print alike: never with different signs, and otherwise
      only when they are the same, or one is an integer without exponent and the other
      that integer with one decimal. */
  lemma FloatUnique(negative: bool, m: nat, e: nat, negative': bool, m': nat, e': nat)
    requires e < 32 && e' < 32 && m < WORD && m' < WORD
    ensures DisplayFloat(negative, m, e) == DisplayFloat(negative', m', e') <==>
      && negative == negative'
      && (|| (e == e' && m == m')
          || (e == 0 && e' == 1 && m' == 10 * m)
          || (e == 1 && e' == 0 && m == 10 * m'))
  {
    hide Value, Parse, WrappedPower, Pow10, DisplayFloat, Dec, Pad;
    if DisplayFloat(negative, m, e) == DisplayFloat(negative', m', e') {
      FloatParts(negative, m, e);
      FloatParts(negative', m', e');
      FirstPowers();
      WrappedPowerExact(e);
      if e == e' {
        SameParts(m, m', WrappedPower(e), Pow10(if e == 0 then 1 else e));
      }
    } else if negative == negative' && e == 0 && e' == 1 && m' == 10 * m {
      TenfoldAlike(negative, m);
    } else if negative == negative' && e == 1 && e' == 0 && m == 10 * m' {
      TenfoldAlike(negative, m');
    }
  }

  lemma FirstPowers()
    ensures Pow10(1) == WrappedPower(1) == 10 && WrappedPower(0) == 1
  {
    PowersOfTen();
  }

  lemma SameParts(m: nat, m': nat, power: nat, ten: nat)
    requires 0 < power <= ten
    requires m / power * ten + m % power == m' / power * ten + m' % power
    ensures m == m'
  {
    SameQuotient(m / power, m % power, m' / power, m' % power, ten);
  }

  lemma SameQuotient(q: nat, r: nat, q': nat, r': nat, ten: nat)
    requires r < ten && r' < ten && q * ten + r == q' * ten + r'
    ensures q == q' && r == r'
  {
    SmallerQuotient(q, r, q', ten);
    SmallerQuotient(q', r', q, ten);
  }

  lemma SmallerQuotient(q: nat, r: nat, q': nat, ten: nat)
    requires r < ten
    ensures q < q' ==> q * ten + r < q' * ten
  {
    if q < q' {
      assert (q + 1) * ten <= q' * ten;
    }
  }

  /** An integer with exponent 0 prints like ten times that integer with exponent 1. */
  lemma TenfoldAlike(negative: bool, m: nat)
    requires 10 * m < WORD
    ensures DisplayFloat(negative, m, 0) == DisplayFloat(negative, 10 * m, 1)
  {
    hide WrappedPower, Pow10;
    FirstPowers();
    assert Pad(Dec(0), 0) == Dec(0) == Pad(Dec(0), 1);
  }

  /** The payload bytes, and the number a complete message's text denotes. */
  lemma DisplayedNumber(m: Message)
    requires m.Packed()
    ensures m.dataType == DATA_TYPE_INT ==>
      var n := BigEndian32(m.content[1..5]);
      DisplayedContent(m).Text? && Denotes(DisplayedContent(m).text, m.content[0] == 1 && n != 0, n, 0)
    ensures m.dataType == DATA_TYPE_SHORT_REAL ==>
      DisplayedContent(m).Text? && Denotes(DisplayedContent(m).text, false, BigEndian16(m.content[0..2]), 2)
    ensures m.dataType == DATA_TYPE_FLOAT ==>
      var n, e := BigEndian32(m.content[1..5]), m.content[5];
      && (DisplayedContent(m).Text? <==> e < 32)
      && (e < 32 ==>
            (Denotes(DisplayedContent(m).text, m.content[0] == 1, n, e) <==> e <= 9 || n < WrappedPower(e)))
  {
    hide Denotes, DisplayInt, DisplayShortReal, DisplayFloat, BigEndian32, BigEndian16, WrappedPower;
    var c := m.content;
    if m.dataType == DATA_TYPE_INT {
      IntRoundTrip(c[0] == 1, BigEndian32(c[1..5]));
    } else if m.dataType == DATA_TYPE_SHORT_REAL {
      ShortRealRoundTrip(BigEndian16(c[0..2]));
    } else if m.dataType == DATA_TYPE_FLOAT && c[5] < 32 {
      FloatDenotes(c[0] == 1, BigEndian32(c[1..5]), c[5]);
    }
  }

  // From the bytes of the payload to the characters printed.

  /** Four bytes of the payload hold a number, the most significant byte first. */
  predicate Holds32(content: seq<byte>, at: nat, n: nat) {
    && at + 4 <= |content| && n < 0x1_0000_0000
    && content[at] == n / 0x100_0000 && content[at + 1] == n / 0x1_0000 % 256
    && content[at + 2] == n / 0x100 % 256 && content[at + 3] == n % 256
  }

  lemma Reads32(content: seq<byte>, at: nat, n: nat)
    requires Holds32(content, at, n)
    ensures BigEndian32(content[at..at + 4]) == n
  {
    hide BigEndian32;
    NetworkOrder(n);
    assert content[at..at + 4] == [n / 0x100_0000, n / 0x1_0000 % 256, n / 0x100 % 256, n % 256];
  }

  /** INT: a minus sign if byte 0 is 1 and the number is not 0, and the numeral of the
      number in bytes 1 to 4. */
  lemma IntShown(m: Message, n: nat, numeral: string)
    requires m.Packed() && m.dataType == 0 && Holds32(m.content, 1, n) && Numeral(numeral, n)
    ensures DisplayedContent(m) == Text((if m.content[0] == 1 && n != 0 then "-" else "") + numeral)
  {
    hide BigEndian32, Numeral, Holds32;
    Reads32(m.content, 1, n);
    DecIsNumeral(n, numeral);
  }

  /** SHORT_REAL: the number in bytes 0 and 1, with its last two digits behind a point. */
  lemma ShortRealShown(m: Message, n: nat, whole: string, fraction: string)
    requires m.Packed() && m.dataType == 1 && n < 0x1_0000
    requires m.content[0] == n / 256 && m.content[1] == n % 256
    requires Numeral(whole, n / 100) && Padded(fraction, n % 100, 2)
    ensures DisplayedContent(m) == Text(whole + "." + fraction)
  {
    hide BigEndian16, Numeral, Padded, Pad, Dec;
    NetworkOrder(n);
    assert m.content[0..2] == [n / 256, n % 256];
    DecIsNumeral(n / 100, whole);
    assert Pow10(2) == 100;
    PadIsPadded(n % 100, 2, fraction);
  }

  /** FLOAT: a minus sign if byte 0 is 1, the quotient of the number in bytes 1 to 4 by the
      wrapped power for byte 5, and the remainder at the width that byte says. */
  lemma FloatShown(m: Message, n: nat, quotient: nat, remainder: nat, whole: string, fraction: string)
    requires m.Packed() && m.dataType == 2 && Holds32(m.content, 1, n)
    requires remainder < WrappedPower(m.content[5]) && n == quotient * WrappedPower(m.content[5]) + remainder
    requires Numeral(whole, quotient) && Padded(fraction, remainder, if m.content[5] == 0 then 1 else m.content[5])
    ensures DisplayedContent(m) == Text((if m.content[0] == 1 then "-" else "") + whole + "." + fraction)
  {
    hide BigEndian32, Numeral, Padded, Holds32, Pow10, WrappedPower, Pad, Dec;
    var e: nat := m.content[5];
    Reads32(m.content, 1, n);
    WrappedPowerZero(e);
    Division(n, WrappedPower(e), quotient, remainder);
    DecIsNumeral(quotient, whole);
    RemainderFits(n, e);
    PadIsPadded(remainder, if e == 0 then 1 else e, fraction);
    RemainderAlone(n, e);
  }

  lemma Division(n: nat, d: nat, quotient: nat, remainder: nat)
    requires remainder < d && n == quotient * d + remainder
    ensures n / d == quotient && n % d == remainder
  {
    SameQuotient(n / d, n % d, quotient, remainder, d);
  }

  lemma RemainderFits(n: nat, e: nat)
    requires e < 32 && n < WORD && WrappedPower(e) > 0
    ensures n % WrappedPower(e) < Pow10(if e == 0 then 1 else e)
  {
    WrappedPowerExact(e);
    PowersOfTen();
  }

  lemma RemainderAlone(n: nat, e: nat)
    requires e < 32 && n < WORD && WrappedPower(e) > 0
    ensures Pad(Dec(n % WrappedPower(e)), e) == Pad(Dec(n % WrappedPower(e)), if e == 0 then 1 else e)
  {
    RemainderWidth(n, e);
    DecZero(n % WrappedPower(e));
  }

  /** STRING: the characters before the first NUL; any other type is invalid. */
  lemma StringShown(m: Message, s: string)
    requires m.Packed()
    ensures m.dataType == 3 && |s| < 1500 && Spells(m.content, s) ==> DisplayedContent(m) == Text(s)
    ensures m.dataType == 3 && 0 !in m.content ==> DisplayedContent(m) == Undefined
    ensures m.dataType > 3 ==> DisplayedContent(m) == Text("INVALID")
  {
    CStringSpelled(m.content, s);
  }

  /** Which number the text denotes, told from the bytes of the payload. */
  lemma PayloadDenotes(m: Message, n: nat)
    requires m.Packed()
    ensures m.dataType == 0 && Holds32(m.content, 1, n) ==>
      var shown := DisplayedContent(m);
      shown.Text? && Denotes(shown.text, m.content[0] == 1 && n != 0, n, 0)
    ensures m.dataType == 1 && n < 0x1_0000 && m.content[0] == n / 256 && m.content[1] == n % 256 ==>
      var shown := DisplayedContent(m);
      shown.Text? && Denotes(shown.text, false, n, 2)
    ensures m.dataType == 2 && Holds32(m.content, 1, n) ==>
      var shown, e := DisplayedContent(m), m.content[5];
      && (shown.Text? <==> e < 32)
      && (e < 32 ==>
            (Denotes(shown.text, m.content[0] == 1, n, e) <==> e <= 9 || n < Pow10(e) % 0x1_0000_0000))
  {
    hide Denotes, DisplayedContent, BigEndian32, BigEndian16, Holds32, Pow10;
    DisplayedNumber(m);
    if Holds32(m.content, 1, n) {
      Reads32(m.content, 1, n);
    }
    NetworkOrder(n);
    if n < 0x1_0000 && m.content[0] == n / 256 && m.content[1] == n % 256 {
      assert m.content[0..2] == [n / 256, n % 256];
    }
  }
}
