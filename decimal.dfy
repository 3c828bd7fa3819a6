/** Decimal text of integers as Python writes them: `str(n)` / `f'{n}'`, the
    zero-padded `f'{n:08d}'`, and the reading back of an integer column. */
module Decimal {
  import opened Wrappers

  predicate IsDigit(c: char)
  {
    '0' <= c <= '9'
  }

  predicate AllDigits(s: string)
  {
    forall i :: 0 <= i < |s| ==> IsDigit(s[i])
  }

  function DigitChar(d: nat): (c: char)
    requires d < 10
    ensures IsDigit(c)
  {
    ('0' as int + d) as char
  }

  /** The value of a string of decimal digits (leading zeros allowed). */
  function DigitsValue(s: string): nat
    requires AllDigits(s)
    decreases |s|
  {
    if s == [] then 0
    else DigitsValue(s[..|s| - 1]) * 10 + (s[|s| - 1] as int - '0' as int)
  }

  /** `str(n)` for a natural number: no leading zeros. */
  function NatText(n: nat): (s: string)
    ensures s != [] && AllDigits(s)
    ensures |s| > 1 ==> s[0] != '0'
    decreases n
  {
    if n < 10 then [DigitChar(n)] else NatText(n / 10) + [DigitChar(n % 10)]
  }

  /** `str(n)` for any integer: a minus sign in front of negative numbers. */
  function IntText(n: int): string
  {
    if n < 0 then "-" + NatText(-n) else NatText(n)
  }

  /** `'0' * k`. */
  function Zeros(k: nat): (s: string)
    ensures |s| == k && AllDigits(s)
  {
    if k == 0 then [] else Zeros(k - 1) + "0"
  }

  /** Left-pad with zeros to width `w`; a longer text is not cut. */
  function ZeroPad(s: string, w: nat): string
  {
    if |s| >= w then s else Zeros(w - |s|) + s
  }

  /** `f'{n:08d}'`: width 8, zero padding after the sign. */
  function Pad08(n: int): string
  {
    if n < 0 then "-" + ZeroPad(NatText(-n), 7) else ZeroPad(NatText(n), 8)
  }

  /** An optional sign followed by one or more decimal digits. */
  function ParseInt(s: string): Option<int>
  {
    if s != [] && (s[0] == '-' || s[0] == '+') then
      if |s| > 1 && AllDigits(s[1..]) then
        var v: int := DigitsValue(s[1..]);
        Some(if s[0] == '-' then -v else v)
      else None
    else if s != [] && AllDigits(s) then Some(DigitsValue(s))
    else None
  }

  /** `v` with `k` zeros written after it: `v * 10^k`. */
  function Tens(v: nat, k: nat): (r: nat)
    ensures r >= v
  {
    if k == 0 then v else Tens(v, k - 1) * 10
  }

  /** The position of the first `c` or `d` in `s`, or `|s|` when there is none. */
  function FirstOf(s: string, c: char, d: char): (i: nat)
    ensures i <= |s|
    ensures forall k :: 0 <= k < i ==> s[k] != c && s[k] != d
    ensures i < |s| ==> s[i] == c || s[i] == d
    decreases |s|
  {
    if s == [] || s[0] == c || s[0] == d then 0 else 1 + FirstOf(s[1..], c, d)
  }

  /** A finite decimal numeral taken apart: its sign, its digits, and the
      position of the decimal point among them after the exponent has moved
      it (it may lie before the first digit or beyond the last). */
  datatype Numeral = Numeral(negative: bool, digits: string, point: int)

  /** The digits of a mantissa and the position of its point among them:
      digits with an optional `.` fraction, at least one digit in all. */
  function ParseMantissa(mant: string): (r: Option<(string, nat)>)
    ensures r.Some? ==> AllDigits(r.value.0) && r.value.0 != []
  {
    var p := FirstOf(mant, '.', '.');
    var whole := mant[..p];
    var frac := if p < |mant| then mant[p + 1..] else [];
    if AllDigits(whole) && AllDigits(frac) && |whole| + |frac| >= 1 then
      assert AllDigits(whole + frac);
      Some((whole + frac, |whole|))
    else None
  }

  /** The text after an optional leading sign. */
  function StripSign(s: string): (b: string)
    ensures |b| <= |s|
  {
    if s != [] && (s[0] == '-' || s[0] == '+') then s[1..] else s
  }

  /** The numeral of a sign, a mantissa's digits and point, and an
      exponent, when both parts were read. */
  function Assemble(negative: bool, dp: Option<(string, nat)>, exp: Option<int>): (r: Option<Numeral>)
    ensures r.Some? <==> dp.Some? && exp.Some?
    ensures r.Some? ==> r.value == Numeral(negative, dp.value.0, dp.value.1 + exp.value)
  {
    if dp.Some? && exp.Some? then Some(Numeral(negative, dp.value.0, dp.value.1 + exp.value)) else None
  }

  /** An unsigned numeral: a mantissa and an optional exponent `e`/`E` with
      an optional sign, which moves the point. */
  function ParseBody(negative: bool, body: string): (r: Option<Numeral>)
    ensures r.Some? ==> AllDigits(r.value.digits) && r.value.digits != []
  {
    var e := FirstOf(body, 'e', 'E');
    Assemble(negative, ParseMantissa(body[..e]), if e == |body| then Some(0) else ParseInt(body[e + 1..]))
  }

  /** The text of a finite number as `read_csv` reads it into a float
      column: an optional sign and an unsigned numeral. */
  function ParseNumeral(s: string): (r: Option<Numeral>)
    ensures r.Some? ==> AllDigits(r.value.digits) && r.value.digits != []
  {
    ParseBody(s != [] && s[0] == '-', StripSign(s))
  }

  /** The integer part of the number whose decimal digits are `digits`, with
      the point after the first `point` of them: the digits before the point,
      with zeros filled in when the point lies beyond the last digit. */
  function IntegerPart(digits: string, point: int): nat
    requires AllDigits(digits)
  {
    if point <= 0 then 0
    else if point >= |digits| then Tens(DigitsValue(digits), point - |digits|)
    else DigitsValue(digits[..point])
  }

  /** `read_csv` then `astype(int)` on one value of a float-typed column: the
      number the text denotes, cut toward zero; `None` for a text that is
      not a finite numeral. */
  function ParseTruncated(s: string): Option<int>
  {
    match ParseNumeral(s)
    case None => None
    case Some(n) =>
      var mag: int := IntegerPart(n.digits, n.point);
      Some(if n.negative then -mag else mag)
  }

  /** `v * 10^k` for any integer `k`, one factor of ten at a time. */
  function Shift(v: real, k: int): real
    decreases if k < 0 then -k else k
  {
    if k == 0 then v else if k > 0 then 10.0 * Shift(v, k - 1) else Shift(v / 10.0, k + 1)
  }

  /** The exact size of a finite numeral: its digits, shifted by the point. */
  function Magnitude(n: Numeral): real
    requires AllDigits(n.digits)
  {
    Shift(DigitsValue(n.digits) as real, n.point - |n.digits|)
  }

  /** The exact value of a finite numeral. */
  function NumeralValue(n: Numeral): real
    requires AllDigits(n.digits)
  {
    if n.negative then -Magnitude(n) else Magnitude(n)
  }

  /** Cutting toward zero. */
  function Truncate(v: real): int
  {
    if v >= 0.0 then v.Floor else -((-v).Floor)
  }

  lemma {:induction false} NatTextValue(n: nat)
    ensures DigitsValue(NatText(n)) == n
    decreases n
  {
    if n >= 10 {
      var s := NatText(n);
      NatTextValue(n / 10);
      assert s[..|s| - 1] == NatText(n / 10);
    }
  }

  /** Reading back the text `str(n)` gives `n`. */
  lemma ParseIntText(n: int)
    ensures ParseInt(IntText(n)) == Some(n)
  {
    NatTextValue(if n < 0 then -n else n);
    if n < 0 {
      assert IntText(n)[1..] == NatText(-n);
    }
  }

  /** Different integers have different texts. */
  lemma IntTextInjective(a: int, b: int)
    requires IntText(a) == IntText(b)
    ensures a == b
  {
    ParseIntText(a);
    ParseIntText(b);
  }

  /** Neither a digit text nor a signed one contains a separator of the
      program's paths and names. */
  lemma IntTextChars(n: int)
    ensures IntText(n) != []
    ensures forall i :: 0 <= i < |IntText(n)| ==> IntText(n)[i] == '-' || IsDigit(IntText(n)[i])
  {
  }

  lemma {:induction false} ZerosValue(k: nat, s: string)
    requires AllDigits(s)
    ensures AllDigits(Zeros(k) + s)
    ensures DigitsValue(Zeros(k) + s) == DigitsValue(s)
    decreases |s|
  {
    var z := Zeros(k);
    if s == [] {
      assert z + s == z;
      ZerosOnly(k);
    } else {
      var t := s[..|s| - 1];
      ZerosValue(k, t);
      assert (z + s)[..|z + s| - 1] == z + t;
    }
  }

  lemma {:induction false} ZerosOnly(k: nat)
    ensures DigitsValue(Zeros(k)) == 0
    decreases k
  {
    if k > 0 {
      ZerosOnly(k - 1);
      assert Zeros(k)[..k - 1] == Zeros(k - 1);
    }
  }

  /** `f'{n:08d}'` is at least 8 characters, exactly `str(n)` when that is
      longer, and denotes the same number: its digits (after the sign, for a
      negative `n`) have the value of `|n|`. */
  lemma Pad08Value(n: int)
    ensures |Pad08(n)| == if |IntText(n)| >= 8 then |IntText(n)| else 8
    ensures |IntText(n)| >= 8 ==> Pad08(n) == IntText(n)
    ensures n >= 0 ==> AllDigits(Pad08(n)) && DigitsValue(Pad08(n)) == n
    ensures n < 0 ==> Pad08(n)[0] == '-' && AllDigits(Pad08(n)[1..]) &&
                      DigitsValue(Pad08(n)[1..]) == -n
  {
    var m := if n < 0 then -n else n;
    var d := NatText(m);
    var w := if n < 0 then 7 else 8;
    NatTextValue(m);
    if |d| < w {
      ZerosValue(w - |d|, d);
    }
    if n < 0 {
      assert Pad08(n)[1..] == ZeroPad(d, 7);
    }
  }

  /** Two exposures never share a zero-padded number. */
  lemma Pad08Injective(a: int, b: int)
    requires Pad08(a) == Pad08(b)
    ensures a == b
  {
    Pad08Value(a);
    Pad08Value(b);
  }

  // ---------------------------------------------------------------------------
  // Numerals of a float column

  lemma {:induction false} DigitsValueAppend(a: string, b: string)
    requires AllDigits(a) && AllDigits(b)
    ensures AllDigits(a + b)
    ensures DigitsValue(a + b) == Tens(DigitsValue(a), |b|) + DigitsValue(b)
    decreases |b|
  {
    if b == [] {
      assert a + b == a;
    } else {
      var b' := b[..|b| - 1];
      DigitsValueAppend(a, b');
      assert (a + b)[..|a + b| - 1] == a + b';
      assert (a + b)[|a + b| - 1] == b[|b| - 1];
    }
  }

  lemma {:induction false} DigitsValueBound(b: string)
    requires AllDigits(b)
    ensures DigitsValue(b) < Tens(1, |b|)
    decreases |b|
  {
    if b != [] {
      DigitsValueBound(b[..|b| - 1]);
    }
  }

  lemma {:induction false} TensMonotone(a: nat, b: nat)
    requires a <= b
    ensures Tens(1, a) <= Tens(1, b)
    decreases b
  {
    if a < b {
      TensMonotone(a, b - 1);
    }
  }

  lemma {:induction false} ShiftTens(v: nat, k: nat)
    ensures Shift(v as real, k) == Tens(v, k) as real
    decreases k
  {
    if k > 0 {
      ShiftTens(v, k - 1);
    }
  }

  /** Shifting back by `k` undoes `k` zeros. */
  lemma {:induction false} ShiftUndoesTens(v: nat, k: nat)
    ensures Shift(Tens(v, k) as real, -(k as int)) == v as real
    decreases k
  {
    if k > 0 {
      ShiftUndoesTens(v, k - 1);
      assert (Tens(v, k) as real) / 10.0 == Tens(v, k - 1) as real;
      assert -(k as int) + 1 == -((k - 1) as int);
    }
  }

  lemma {:induction false} ShiftAdd(a: real, b: real, k: int)
    ensures Shift(a + b, k) == Shift(a, k) + Shift(b, k)
    decreases if k < 0 then -k else k
  {
    if k > 0 {
      ShiftAdd(a, b, k - 1);
    } else if k < 0 {
      ShiftAdd(a / 10.0, b / 10.0, k + 1);
      assert (a + b) / 10.0 == a / 10.0 + b / 10.0;
    }
  }

  lemma {:induction false} ShiftOrder(a: real, b: real, k: int)
    requires a <= b
    ensures Shift(a, k) <= Shift(b, k)
    ensures a < b ==> Shift(a, k) < Shift(b, k)
    decreases if k < 0 then -k else k
  {
    if k > 0 {
      ShiftOrder(a, b, k - 1);
    } else if k < 0 {
      ShiftOrder(a / 10.0, b / 10.0, k + 1);
    }
  }

  lemma {:induction false} ShiftZero(k: int)
    ensures Shift(0.0, k) == 0.0
    decreases if k < 0 then -k else k
  {
    if k > 0 {
      ShiftZero(k - 1);
    } else if k < 0 {
      ShiftZero(k + 1);
    }
  }

  /** `m <= v < m + 1`. */
  ghost predicate Between(m: nat, v: real)
  {
    m as real <= v < (m + 1) as real
  }

  /** Below `10^k`, shifted back by `k`, is below one. */
  lemma ShiftBelowOne(v: nat, k: nat)
    requires v < Tens(1, k)
    ensures Between(0, Shift(v as real, -(k as int)))
  {
    ShiftOrder(0.0, v as real, -(k as int));
    ShiftOrder(v as real, Tens(1, k) as real, -(k as int));
    ShiftZero(-(k as int));
    ShiftUndoesTens(1, k);
  }

  /** With the point at or beyond the last digit the value is an integer. */
  lemma IntegerPartWhole(n: Numeral)
    requires AllDigits(n.digits) && n.point >= |n.digits|
    ensures Between(IntegerPart(n.digits, n.point), Magnitude(n))
  {
    ShiftTens(DigitsValue(n.digits), n.point - |n.digits|);
  }

  /** Cutting the digits at `point`: the value is the front's with a zero
      per digit of the back, plus the back's, which is below that shift. */
  lemma DigitsSplit(digits: string, point: nat)
    requires AllDigits(digits) && point <= |digits|
    ensures AllDigits(digits[..point]) && AllDigits(digits[point..])
    ensures DigitsValue(digits) ==
            Tens(DigitsValue(digits[..point]), |digits| - point) + DigitsValue(digits[point..])
    ensures DigitsValue(digits[point..]) < Tens(1, |digits| - point)
  {
    var a, b := digits[..point], digits[point..];
    assert digits == a + b;
    DigitsValueAppend(a, b);
    DigitsValueBound(b);
  }

  /** `(na * 10^k + nb) / 10^k` lies between `na` and `na + 1` when
      `nb < 10^k`. */
  lemma ShiftedValue(na: nat, nb: nat, k: nat)
    requires nb < Tens(1, k)
    ensures Between(na, Shift((Tens(na, k) + nb) as real, -(k as int)))
  {
    ShiftAdd(Tens(na, k) as real, nb as real, -(k as int));
    ShiftUndoesTens(na, k);
    ShiftBelowOne(nb, k);
  }

  /** With the point inside the digits, the digits after it make less than one. */
  lemma IntegerPartInside(n: Numeral)
    requires AllDigits(n.digits) && 0 < n.point < |n.digits|
    ensures Between(IntegerPart(n.digits, n.point), Magnitude(n))
  {
    DigitsSplit(n.digits, n.point);
    var k: nat := |n.digits| - n.point;
    assert n.point - |n.digits| == -(k as int);
    ShiftedValue(DigitsValue(n.digits[..n.point]), DigitsValue(n.digits[n.point..]), k);
  }

  /** With the point before the first digit the value is below one. */
  lemma IntegerPartBelow(n: Numeral)
    requires AllDigits(n.digits) && n.point <= 0
    ensures Between(IntegerPart(n.digits, n.point), Magnitude(n))
  {
    var k: nat := |n.digits| - n.point;
    DigitsValueBound(n.digits);
    TensMonotone(|n.digits|, k);
    assert n.point - |n.digits| == -(k as int);
    ShiftBelowOne(DigitsValue(n.digits), k);
  }

  /** The integer part is the largest integer not above the numeral's size:
      `IntegerPart <= size < IntegerPart + 1`. */
  lemma IntegerPartValue(n: Numeral)
    requires AllDigits(n.digits)
    ensures Between(IntegerPart(n.digits, n.point), Magnitude(n))
  {
    if n.point >= |n.digits| {
      IntegerPartWhole(n);
    } else if n.point > 0 {
      IntegerPartInside(n);
    } else {
      IntegerPartBelow(n);
    }
  }

  lemma TruncateBetween(m: nat, u: real, w: real, negative: bool)
    requires Between(m, u)
    requires w == if negative then -u else u
    ensures Truncate(w) == if negative then -(m as int) else m
  {
    assert u.Floor == m;
    if negative && u == 0.0 {
      assert -u == 0.0;
    }
  }

  /** Cutting a numeral's value toward zero leaves its integer part, signed. */
  lemma NumeralTruncate(n: Numeral)
    requires AllDigits(n.digits)
    ensures var mag: int := IntegerPart(n.digits, n.point);
            Truncate(NumeralValue(n)) == if n.negative then -mag else mag
  {
    IntegerPartValue(n);
    TruncateBetween(IntegerPart(n.digits, n.point), Magnitude(n), NumeralValue(n), n.negative);
  }

  /** A value of the order column is the number its text denotes, cut
      toward zero; exactly the finite numerals have one. */
  lemma ParseTruncatedValue(s: string)
    ensures ParseTruncated(s).Some? <==> ParseNumeral(s).Some?
    ensures ParseNumeral(s).Some? ==>
              ParseTruncated(s).value == Truncate(NumeralValue(ParseNumeral(s).value))
  {
    var r := ParseNumeral(s);
    if r.Some? {
      NumeralTruncate(r.value);
    }
  }

  lemma {:induction false} FirstOfNone(s: string, c: char, d: char)
    requires forall k :: 0 <= k < |s| ==> s[k] != c && s[k] != d
    ensures FirstOf(s, c, d) == |s|
    decreases |s|
  {
    if s != [] {
      FirstOfNone(s[1..], c, d);
    }
  }

  lemma {:induction false} FirstOfAt(u: string, x: string, c: char, d: char)
    requires forall k :: 0 <= k < |u| ==> u[k] != c && u[k] != d
    requires x != [] && x[0] == c
    ensures FirstOf(u + x, c, d) == |u|
    decreases |u|
  {
    if u != [] {
      assert (u + x)[1..] == u[1..] + x;
      FirstOfAt(u[1..], x, c, d);
    }
  }

  /** An integer text reads as that integer. */
  lemma ParseTruncatedInt(s: string)
    ensures ParseInt(s).Some? ==> ParseTruncated(s) == ParseInt(s)
  {
    if ParseInt(s).Some? {
      var body := if s[0] == '-' || s[0] == '+' then s[1..] else s;
      assert AllDigits(body);
      FirstOfNone(body, 'e', 'E');
      FirstOfNone(body, '.', '.');
      assert body[..|body|] == body;
      assert body + [] == body;
    }
  }

  /** In `d.frac` there is no exponent and the point follows `d`. */
  lemma PointBody(d: string, frac: string)
    requires AllDigits(d) && AllDigits(frac)
    ensures var body := d + "." + frac;
            FirstOf(body, 'e', 'E') == |body| && FirstOf(body, '.', '.') == |d| &&
            body[..|body|] == body && body[..|d|] == d && body[|d| + 1..] == frac
  {
    var body := d + "." + frac;
    assert forall k :: 0 <= k < |body| ==> body[k] == '.' || IsDigit(body[k]);
    FirstOfNone(body, 'e', 'E');
    assert body == d + ("." + frac);
    FirstOfAt(d, "." + frac, '.', '.');
  }

  /** `{n}.{frac}` reads as the digits of `n` followed by `frac`, with the
      point after the digits of `n`. */
  lemma ParseNumeralCut(n: int, frac: string)
    requires AllDigits(frac)
    ensures var m := if n < 0 then -n else n;
            ParseNumeral(IntText(n) + "." + frac) == Some(Numeral(n < 0, NatText(m) + frac, |NatText(m)|))
  {
    var m := if n < 0 then -n else n;
    var d := NatText(m);
    var body := d + "." + frac;
    PointBody(d, frac);
    if n < 0 {
      var s := IntText(n) + "." + frac;
      assert s == "-" + body;
      assert s[1..] == body;
    } else {
      assert IntText(n) + "." + frac == body;
      assert IsDigit(body[0]);
    }
  }

  /** The integer part of `d + frac` cut after `d` is the value of `d`. */
  lemma IntegerPartFront(d: string, frac: string)
    requires AllDigits(d) && AllDigits(frac) && d != []
    ensures AllDigits(d + frac)
    ensures IntegerPart(d + frac, |d|) == DigitsValue(d)
  {
    assert AllDigits(d + frac);
    if frac != [] {
      assert (d + frac)[..|d|] == d;
    } else {
      assert d + frac == d;
    }
  }

  /** `int(float(f'{n}.{frac}'))`: a fraction, however written, is cut off. */
  lemma ParseTruncatedCuts(n: int, frac: string)
    requires AllDigits(frac)
    ensures ParseTruncated(IntText(n) + "." + frac) == Some(n)
  {
    var m := if n < 0 then -n else n;
    NatTextValue(m);
    ParseNumeralCut(n, frac);
    IntegerPartFront(NatText(m), frac);
  }

  // ---------------------------------------------------------------------------
  // The exponent of a numeral

  lemma {:induction false} ShiftTimesTen(v: real, j: int)
    ensures Shift(10.0 * v, j) == 10.0 * Shift(v, j)
    decreases if j < 0 then -j else j
  {
    if j > 0 {
      ShiftTimesTen(v, j - 1);
    } else if j < 0 {
      ShiftTimesTen(v / 10.0, j + 1);
      assert 10.0 * v / 10.0 == v == 10.0 * (v / 10.0);
    }
  }

  /** One more place to the left multiplies by ten, for any exponent. */
  lemma ShiftStep(v: real, k: int)
    ensures Shift(v, k + 1) == 10.0 * Shift(v, k)
  {
    if k < 0 {
      ShiftTimesTen(v / 10.0, k + 1);
      assert 10.0 * (v / 10.0) == v;
    }
  }

  /** Shifting by `a` and then by `b` is shifting by `a + b`. */
  lemma {:induction false} ShiftShift(v: real, a: int, b: int)
    ensures Shift(Shift(v, a), b) == Shift(v, a + b)
    decreases if b < 0 then -b else b
  {
    if b > 0 {
      ShiftShift(v, a, b - 1);
      ShiftStep(v, a + b - 1);
    } else if b < 0 {
      ShiftStep(v, a - 1);
      assert Shift(v, a) / 10.0 == Shift(v, a - 1);
      ShiftShift(v, a - 1, b + 1);
    }
  }

  lemma ShiftNegate(v: real, k: int)
    ensures Shift(-v, k) == -Shift(v, k)
  {
    ShiftAdd(-v, v, k);
    ShiftZero(k);
  }

  /** `str(n)` as a numeral: its digits with the point after the last one,
      denoting `n` itself. */
  lemma ParseNumeralInt(n: int)
    ensures var m := if n < 0 then -n else n;
            ParseNumeral(IntText(n)) == Some(Numeral(n < 0, NatText(m), |NatText(m)|))
    ensures NumeralValue(ParseNumeral(IntText(n)).value) == n as real
  {
    var m := if n < 0 then -n else n;
    var body := NatText(m);
    NatTextValue(m);
    if n < 0 {
      assert IntText(n)[1..] == body;
    } else {
      assert IsDigit(body[0]);
    }
    assert StripSign(IntText(n)) == body;
    DigitsBody(n < 0, body);
  }

  /** Digits alone are a numeral with the point after the last digit. */
  lemma DigitsBody(negative: bool, d: string)
    requires AllDigits(d) && d != []
    ensures ParseBody(negative, d) == Some(Numeral(negative, d, |d|))
  {
    FirstOfNone(d, 'e', 'E');
    FirstOfNone(d, '.', '.');
    assert d[..|d|] == d;
    assert d + [] == d;
  }

  /** In `{b}e{x}`, with no exponent marker in `b`, the exponent starts after
      `b` and is `x`. */
  lemma ExponentSplit(b: string, x: string)
    requires forall i :: 0 <= i < |b| ==> b[i] != 'e' && b[i] != 'E'
    ensures var t := b + ("e" + x);
            FirstOf(t, 'e', 'E') == |b| && t[..|b|] == b && t[|b| + 1..] == x &&
            FirstOf(b, 'e', 'E') == |b| && b[..|b|] == b
  {
    FirstOfNone(b, 'e', 'E');
    FirstOfAt(b, "e" + x, 'e', 'E');
    var t := b + ("e" + x);
    assert t[|b| + 1..] == x;
  }

  /** Removing the sign of `{m}e{x}` leaves the unsigned `m` followed by the
      exponent. */
  lemma SignedExponent(m: string, x: string)
    requires m != []
    ensures var s := m + "e" + x;
            s[0] == m[0] && StripSign(s) == StripSign(m) + ("e" + x)
  {
    var s := m + "e" + x;
    assert s[0] == m[0];
    if m[0] == '-' || m[0] == '+' {
      assert s[1..] == m[1..] + ("e" + x);
    }
  }

  /** An unsigned numeral whose exponent marker is at `e`. */
  lemma BodyAt(negative: bool, t: string, e: nat)
    requires e < |t| && FirstOf(t, 'e', 'E') == e
    ensures ParseBody(negative, t) == Assemble(negative, ParseMantissa(t[..e]), ParseInt(t[e + 1..]))
  {
  }

  /** An unsigned numeral without an exponent. */
  lemma BodyWithout(negative: bool, b: string)
    requires FirstOf(b, 'e', 'E') == |b|
    ensures ParseBody(negative, b) == Assemble(negative, ParseMantissa(b), Some(0))
  {
    assert b[..|b|] == b;
  }

  /** An exponent `x` moves the point of an unsigned numeral. */
  lemma BodyExponent(negative: bool, b: string, x: string)
    requires forall i :: 0 <= i < |b| ==> b[i] != 'e' && b[i] != 'E'
    requires ParseBody(negative, b).Some? && ParseInt(x).Some?
    ensures var n := ParseBody(negative, b).value;
            ParseBody(negative, b + ("e" + x)) == Some(Numeral(negative, n.digits, n.point + ParseInt(x).value))
  {
    var t := b + ("e" + x);
    ExponentSplit(b, x);
    BodyWithout(negative, b);
    BodyAt(negative, t, |b|);
  }

  /** An exponent moves the point: `{m}e{x}` has the digits of `m` with the
      point moved right by the integer `x` denotes. */
  lemma ParseNumeralExponent(m: string, x: string)
    requires forall i :: 0 <= i < |m| ==> m[i] != 'e' && m[i] != 'E'
    requires ParseNumeral(m).Some? && ParseInt(x).Some?
    ensures var n := ParseNumeral(m).value;
            ParseNumeral(m + "e" + x) == Some(Numeral(n.negative, n.digits, n.point + ParseInt(x).value))
  {
    var b := StripSign(m);
    var s := m + "e" + x;
    NoMarkerAfterSign(m);
    SignedExponent(m, x);
    BodyExponent(m[0] == '-', b, x);
    assert ParseNumeral(s) == ParseBody(m[0] == '-', b + ("e" + x));
  }

  lemma NoMarkerAfterSign(m: string)
    requires forall i :: 0 <= i < |m| ==> m[i] != 'e' && m[i] != 'E'
    ensures forall i :: 0 <= i < |StripSign(m)| ==> StripSign(m)[i] != 'e' && StripSign(m)[i] != 'E'
  {
    if m != [] && (m[0] == '-' || m[0] == '+') {
      assert forall i :: 0 <= i < |m[1..]| ==> m[1..][i] == m[i + 1];
    }
  }

  /** Moving the point `k` places right multiplies the value by `10^k`. */
  lemma MovedPointValue(n: Numeral, k: int)
    requires AllDigits(n.digits)
    ensures NumeralValue(Numeral(n.negative, n.digits, n.point + k)) == Shift(NumeralValue(n), k)
  {
    ShiftShift(DigitsValue(n.digits) as real, n.point - |n.digits|, k);
    assert n.point + k - |n.digits| == (n.point - |n.digits|) + k;
    ShiftNegate(Magnitude(n), k);
  }

  /** `int(float(f'{n}e{k}'))`: the integer `n` times `10^k`, cut toward
      zero; with a non-negative `k` that is `n` followed by `k` zeros, and
      `e-1` divides by ten before cutting. */
  lemma ParseTruncatedExponent(n: int, k: int)
    ensures ParseTruncated(IntText(n) + "e" + IntText(k)) == Some(Truncate(Shift(n as real, k)))
    ensures k >= 0 ==>
              ParseTruncated(IntText(n) + "e" + IntText(k)) == Some(if n < 0 then -(Tens(-n, k) as int) else Tens(n, k))
    ensures ParseTruncated(IntText(n) + "e-1") == Some(Truncate(n as real / 10.0))
  {
    ExponentTruncated(n, k);
    if k >= 0 {
      IntShiftTruncate(n, k);
    }
    ExponentMinusOne(n);
  }

  /** `e-1` divides by ten before cutting. */
  lemma ExponentMinusOne(n: int)
    ensures ParseTruncated(IntText(n) + "e-1") == Some(Truncate(n as real / 10.0))
  {
    ExponentTruncated(n, -1);
    MinusOneText(IntText(n));
    ShiftMinusOne(n as real);
  }

  lemma MinusOneText(t: string)
    ensures t + "e" + IntText(-1) == t + "e-1"
  {
    assert IntText(-1) == "-1";
  }

  lemma ShiftMinusOne(v: real)
    ensures Shift(v, -1) == v / 10.0
  {
  }

  /** An integer times `10^k` is an integer: the digits followed by `k` zeros. */
  lemma IntShiftTruncate(n: int, k: nat)
    ensures Truncate(Shift(n as real, k)) == if n < 0 then -(Tens(-n, k) as int) else Tens(n, k)
  {
    var m: nat := if n < 0 then -n else n;
    var t := Tens(m, k);
    ShiftTens(m, k);
    if n < 0 {
      assert n as real == -(m as real);
      ShiftNegate(m as real, k);
      assert Shift(n as real, k) == -(t as real);
      assert (t as real).Floor == t;
    } else {
      assert (t as real).Floor == t;
    }
  }

  lemma IntTextNoMarker(n: int)
    ensures forall i :: 0 <= i < |IntText(n)| ==> IntText(n)[i] != 'e' && IntText(n)[i] != 'E'
  {
    IntTextChars(n);
  }

  /** `int(float(f'{m}e{x}'))` for a mantissa `m` and an exponent text `x`:
      the value of `m` times `10^k`, cut toward zero. */
  lemma ExponentOf(m: string, x: string, num: Numeral, k: int)
    requires forall i :: 0 <= i < |m| ==> m[i] != 'e' && m[i] != 'E'
    requires ParseNumeral(m) == Some(num) && ParseInt(x) == Some(k)
    ensures ParseTruncated(m + "e" + x) == Some(Truncate(Shift(NumeralValue(num), k)))
  {
    var t := m + "e" + x;
    var moved := Numeral(num.negative, num.digits, num.point + k);
    assert ParseNumeral(t) == Some(moved) by {
      ParseNumeralExponent(m, x);
    }
    assert NumeralValue(moved) == Shift(NumeralValue(num), k) by {
      MovedPointValue(num, k);
    }
    ParseTruncatedValue(t);
  }

  lemma ExponentTruncated(n: int, k: int)
    ensures ParseTruncated(IntText(n) + "e" + IntText(k)) == Some(Truncate(Shift(n as real, k)))
  {
    var m := if n < 0 then -n else n;
    var num := Numeral(n < 0, NatText(m), |NatText(m)|);
    ParseNumeralInt(n);
    IntTextNoMarker(n);
    ParseIntText(k);
    ExponentOf(IntText(n), IntText(k), num, k);
  }
}
