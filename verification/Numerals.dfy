/** Decimal numerals as streams print them, and what a printed decimal denotes. */
module Numerals {
  function Pow10(e: nat): (p: nat)
    ensures p >= 1
  {
    if e == 0 then 1 else 10 * Pow10(e - 1)
  }

  /** `n` with `e` zeros behind it. */
  function Shift(n: nat, e: nat): nat {
    if e == 0 then n else 10 * Shift(n, e - 1)
  }

  lemma {:induction false} ShiftIsTimes(n: nat, e: nat)
    ensures Shift(n, e) == n * Pow10(e)
  {
    if e > 0 {
      ShiftIsTimes(n, e - 1);
      assert n * Pow10(e) == 10 * (n * Pow10(e - 1));
    }
  }

  predicate IsDigit(c: char) {
    '0' <= c <= '9'
  }

  predicate AllDigits(s: string) {
    forall c :: c in s ==> IsDigit(c)
  }

  function Digit(d: nat): (c: char)
    requires d < 10
    ensures IsDigit(c) && c as int - '0' as int == d
  {
    '0' + d as char
  }

  /** `ss << n` for an unsigned number. */
  function Dec(n: nat): string {
    if n < 10 then [Digit(n)] else Dec(n / 10) + [Digit(n % 10)]
  }

  /** `setw(width)` with fill '0'. */
  function Pad(s: string, width: nat): string {
    if |s| >= width then s else "0" + Pad(s, width - 1)
  }

  /** The number a run of digits stands for. */
  function Value(s: string): nat
    requires AllDigits(s)
  {
    if s == "" then 0
    else
      assert s[|s| - 1] in s && forall c :: c in s[..|s| - 1] ==> c in s;
      10 * Value(s[..|s| - 1]) + (s[|s| - 1] as int - '0' as int)
  }

  lemma {:induction false} DecValue(n: nat)
    ensures AllDigits(Dec(n)) && Value(Dec(n)) == n
    ensures Dec(n) != "" && (n > 0 ==> Dec(n)[0] != '0')
  {
    if n >= 10 {
      DecValue(n / 10);
      assert Dec(n)[..|Dec(n)| - 1] == Dec(n / 10);
    }
  }

  lemma {:induction false} DecWidth(n: nat, width: nat)
    requires width >= 1 && n < Pow10(width)
    ensures |Dec(n)| <= width
  {
    if n >= 10 {
      DecWidth(n / 10, width - 1);
    }
  }

  lemma {:induction false} PadValue(s: string, width: nat)
    requires AllDigits(s)
    ensures AllDigits(Pad(s, width)) && Value(Pad(s, width)) == Value(s)
    ensures |Pad(s, width)| == if |s| >= width then |s| else width
  {
    if |s| < width {
      PadValue(s, width - 1);
      LeadingZero(Pad(s, width - 1));
    }
  }

  lemma {:induction false} LeadingZero(s: string)
    requires AllDigits(s)
    ensures AllDigits("0" + s) && Value("0" + s) == Value(s)
  {
    if s == "" {
      assert "0" + s == "0";
      assert Value("0") == 10 * Value("0"[..0]);
    } else {
      var init := s[..|s| - 1];
      assert forall c :: c in init ==> c in s;
      LeadingZero(init);
      assert ("0" + s)[..|s|] == "0" + init;
    }
  }

  lemma {:induction false} ValueAppend(a: string, b: string)
    requires AllDigits(a) && AllDigits(b)
    ensures AllDigits(a + b) && Value(a + b) == Value(a) * Pow10(|b|) + Value(b)
  {
    if b == "" {
      assert a + b == a;
    } else {
      var init := b[..|b| - 1];
      assert forall c :: c in init ==> c in b;
      ValueAppend(a, init);
      assert (a + b)[..|a + b| - 1] == a + init && (a + b)[|a + b| - 1] == b[|b| - 1];
      Distribute(Value(a), Pow10(|init|), Value(init), b[|b| - 1] as int - '0' as int);
    }
  }

  lemma Distribute(a: nat, p: nat, v: nat, d: int)
    ensures 10 * (a * p + v) + d == a * (10 * p) + (10 * v + d)
  {
  }

  /** The usual way to write a number: digits that denote it, without leading zeros. */
  predicate Numeral(s: string, n: nat) {
    s != "" && AllDigits(s) && Value(s) == n && (|s| > 1 ==> s[0] != '0')
  }

  /** Digits that denote a number at a given width. */
  predicate Padded(s: string, n: nat, width: nat) {
    |s| == width && AllDigits(s) && Value(s) == n
  }

  lemma ValueSnoc(s: string)
    requires s != "" && AllDigits(s)
    ensures var init := s[..|s| - 1];
      AllDigits(init) && IsDigit(s[|s| - 1]) && Value(s) == 10 * Value(init) + (s[|s| - 1] as int - '0' as int)
  {
    assert s[|s| - 1] in s && forall c :: c in s[..|s| - 1] ==> c in s;
  }

  /** What is printed for an unsigned number is its numeral, the only one it has. */
  lemma {:induction false} DecIsNumeral(n: nat, s: string)
    ensures Numeral(s, n) <==> s == Dec(n)
    decreases |s|
  {
    DecValue(n);
    DecZero(n);
    if Numeral(s, n) {
      ValueSnoc(s);
      var init, d := s[..|s| - 1], s[|s| - 1] as int - '0' as int;
      assert s == init + [Digit(d)];
      if |s| == 1 {
        assert init == "" && Value("") == 0;
      } else {
        DecIsNumeral(Value(init), init);
        DecZero(Value(init));
        assert Dec(n) == Dec(Value(init)) + [Digit(d)];
      }
    }
  }

  lemma DecZero(n: nat)
    ensures n == 0 ==> Dec(n) == "0"
    ensures n < 10 ==> |Dec(n)| == 1
  {
  }

  /** Digits of one width that denote the same number are the same. */
  lemma {:induction false} PaddedUnique(s: string, t: string, n: nat, width: nat)
    requires Padded(s, n, width) && Padded(t, n, width)
    ensures s == t
  {
    if width > 0 {
      ValueSnoc(s);
      ValueSnoc(t);
      var a, b := s[..width - 1], t[..width - 1];
      assert Value(a) == n / 10 == Value(b);
      PaddedUnique(a, b, n / 10, width - 1);
      assert s == a + [s[width - 1]] && t == b + [t[width - 1]];
    }
  }

  /** What `setw` prints for a number that is not too wide, and nothing else, has that width. */
  lemma PadIsPadded(n: nat, width: nat, s: string)
    requires width >= 1 && n < Pow10(width)
    ensures Padded(s, n, width) <==> s == Pad(Dec(n), width)
  {
    DecValue(n);
    DecWidth(n, width);
    PadValue(Dec(n), width);
    if Padded(s, n, width) {
      PaddedUnique(s, Pad(Dec(n), width), n, width);
    }
  }

  /** A printed decimal taken apart: sign, digits before the point, digits after it. */
  datatype Decimal = Decimal(negative: bool, whole: string, fraction: string)

  function PointAt(s: string, i: nat): (j: nat)
    requires i <= |s|
    ensures i <= j <= |s|
    decreases |s| - i
  {
    if i == |s| || s[i] == '.' then i else PointAt(s, i + 1)
  }

  /** The unsigned part taken apart at its point. */
  function ParseBody(negative: bool, body: string): Decimal {
    var point := PointAt(body, 0);
    Decimal(negative, body[..point], if point < |body| then body[point + 1..] else "")
  }

  function Parse(s: string): Decimal {
    var negative := s != "" && s[0] == '-';
    ParseBody(negative, if negative then s[1..] else s)
  }

  predicate WellFormed(d: Decimal) {
    d.whole != "" && AllDigits(d.whole) && AllDigits(d.fraction)
  }

  /** The text denotes (-1)^negative * m / 10^e: its digits, scaled by 10^e, are m scaled
      by the text's own power of ten. */
  predicate Denotes(s: string, negative: bool, m: nat, e: nat) {
    var d := Parse(s);
    && WellFormed(d) && AllDigits(d.whole + d.fraction) && d.negative == negative
    && Shift(Value(d.whole + d.fraction), e) == Shift(m, |d.fraction|)
  }

  lemma {:induction false} PointAtSkips(s: string, i: nat, j: nat)
    requires i <= j <= |s| && (forall k :: i <= k < j ==> s[k] != '.') && (j < |s| ==> s[j] == '.')
    ensures PointAt(s, i) == j
    decreases j - i
  {
    if i < j {
      PointAtSkips(s, i + 1, j);
    }
  }

  lemma DigitsAreNoSigns(digits: string)
    requires AllDigits(digits)
    ensures forall k :: 0 <= k < |digits| ==> digits[k] != '.' && digits[k] != '-'
  {
    forall k | 0 <= k < |digits|
      ensures digits[k] != '.' && digits[k] != '-'
    {
      assert digits[k] in digits;
    }
  }

  lemma ParseBodyPrinted(negative: bool, whole: string, fraction: string)
    requires AllDigits(whole)
    ensures ParseBody(negative, whole + "." + fraction) == Decimal(negative, whole, fraction)
    ensures ParseBody(negative, whole) == Decimal(negative, whole, "")
  {
    var body := whole + "." + fraction;
    DigitsAreNoSigns(whole);
    PointAtSkips(body, 0, |whole|);
    PointAtSkips(whole, 0, |whole|);
    assert body[..|whole|] == whole && body[|whole| + 1..] == fraction;
    assert whole[..|whole|] == whole;
  }

  lemma ParseSigned(negative: bool, body: string)
    requires body != "" && body[0] != '-'
    ensures Parse((if negative then "-" else "") + body) == ParseBody(negative, body)
  {
    hide PointAt;
    var s := (if negative then "-" else "") + body;
    assert (if negative then s[1..] else s) == body;
    assert s[0] == if negative then '-' else body[0];
  }

  /** Parsing what was printed as sign, digits, point, digits. */
  lemma ParsePrinted(negative: bool, whole: string, fraction: string)
    requires whole != "" && AllDigits(whole) && AllDigits(fraction)
    ensures Parse((if negative then "-" else "") + whole + "." + fraction) == Decimal(negative, whole, fraction)
    ensures Parse((if negative then "-" else "") + whole) == Decimal(negative, whole, "")
  {
    hide Parse, ParseBody, AllDigits;
    var sign := if negative then "-" else "";
    DigitsAreNoSigns(whole);
    ParseBodyPrinted(negative, whole, fraction);
    ParseSigned(negative, whole);
    ParseSigned(negative, whole + "." + fraction);
    assert sign + whole + "." + fraction == sign + (whole + "." + fraction);
  }
}
