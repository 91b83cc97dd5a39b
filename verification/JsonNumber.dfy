/**
 Numbers: what the printer writes for integers, and what reading a number text yields.
 A double is modelled by the real number it approximates; rounding is not modelled.
 */
module JsonNumber {
  import opened Bytes
  import opened Wrappers

  const INT_MAX: int := 2147483647
  const INT_MIN: int := -2147483648
  const MINUS: Byte := 0x2d

  /** The bytes of a number literal that are copied before conversion: at most this many. */
  const NUMBER_LIMIT: nat := 63

  // ----- Decimal text -----

  predicate IsDigit(b: Byte) {
    0x30 <= b <= 0x39
  }

  function Digits(n: nat): (text: ByteString)
    ensures |text| > 0
  {
    if n < 10 then [0x30 + n as Byte] else Digits(n / 10) + [0x30 + (n % 10) as Byte]
  }

  /** The text of "%d". */
  function Decimal(n: int): (text: ByteString)
    ensures |text| > 0
  {
    if n < 0 then [MINUS] + Digits(-n) else Digits(n)
  }

  function DigitValue(text: ByteString): nat
    requires forall i | 0 <= i < |text| :: IsDigit(text[i])
  {
    if text == [] then 0
    else
      var last := text[|text| - 1];
      assert IsDigit(last);
      10 * DigitValue(text[..|text| - 1]) + (last - 0x30) as nat
  }

  // ----- Reading a number: the conversion of strtod, over the reals -----

  predicate NumberByte(b: Byte) {
    IsDigit(b) || b == 0x2b || b == MINUS || b == 0x65 || b == 0x45 || b == 0x2e
  }

  /** The number bytes at the front, cut at the size of the copy buffer. */
  function NumberText(input: ByteString, limit: nat): (text: ByteString)
    ensures |text| <= |input| && text == input[..|text|]
  {
    if limit == 0 || input == [] || !NumberByte(input[0]) then []
    else [input[0]] + NumberText(input[1..], limit - 1)
  }

  function DigitRun(text: ByteString): (n: nat)
    ensures n <= |text| && forall i | 0 <= i < n :: IsDigit(text[i])
  {
    if text == [] || !IsDigit(text[0]) then 0 else 1 + DigitRun(text[1..])
  }

  function Power10(n: nat): (r: real)
    ensures r > 0.0
  {
    if n == 0 then 1.0 else 10.0 * Power10(n - 1)
  }

  predicate IsSign(text: ByteString, at: nat) {
    at < |text| && (text[at] == MINUS || text[at] == 0x2b)
  }

  /** The length and the decimal exponent of an exponent part; an incomplete one counts as absent. */
  function Exponent(text: ByteString): (r: (nat, int))
    ensures r.0 <= |text|
  {
    if text == [] || (text[0] != 0x65 && text[0] != 0x45) then (0, 0)
    else
      var start := if IsSign(text, 1) then 2 else 1;
      var n := DigitRun(text[start..]);
      if n == 0 then (0, 0)
      else
        var value := DigitValue(text[start..start + n]);
        (start + n, if text[1] == MINUS then 0 - value else value)
  }

  function Scale(mantissa: real, exponent: int): real {
    if exponent >= 0 then mantissa * Power10(exponent) else mantissa / Power10(-exponent)
  }

  /** The value and length of the longest unsigned number at the front of the text, if there is one. */
  function Unsigned(text: ByteString): (r: Option<(real, nat)>)
    ensures r.Some? ==> 0 < r.value.1 <= |text|
  {
    var whole := DigitRun(text);
    var hasPoint := whole < |text| && text[whole] == 0x2e;
    var fraction := if hasPoint then DigitRun(text[whole + 1..]) else 0;
    if whole + fraction == 0 then None
    else
      var end := if hasPoint then whole + 1 + fraction else whole;
      var (length, exponent) := Exponent(text[end..]);
      var digits := if hasPoint then text[..whole] + text[whole + 1..end] else text[..whole];
      Some((Scale(DigitValue(digits) as real, exponent - fraction), end + length))
  }

  function Strtod(text: ByteString): (r: Option<(real, nat)>)
    ensures r.Some? ==> 0 < r.value.1 <= |text|
  {
    if !IsSign(text, 0) then Unsigned(text)
    else
      match Unsigned(text[1..])
      case None => None
      case Some((value, length)) => Some((if text[0] == MINUS then -value else value, 1 + length))
  }

  /** Conversion of a number to int: towards zero, saturating at the ends of the range. */
  function ToInt(d: real): (n: int)
    ensures INT_MIN <= n <= INT_MAX
  {
    if d >= INT_MAX as real then INT_MAX
    else if d <= INT_MIN as real then INT_MIN
    else if d >= 0.0 then d.Floor
    else -((-d).Floor)
  }

  /** The numbers printed by "%d": those equal to their int value. */
  predicate IsInteger(d: real) {
    d == ToInt(d) as real
  }

  // ----- Printed integers read back -----

  lemma {:induction false} DigitsAreDigits(n: nat)
    ensures forall i | 0 <= i < |Digits(n)| :: IsDigit(Digits(n)[i])
    ensures DigitValue(Digits(n)) == n
  {
    if n >= 10 {
      DigitsAreDigits(n / 10);
      var text := Digits(n);
      assert text[..|text| - 1] == Digits(n / 10);
    } else {
      assert Digits(n)[..0] == [];
    }
  }

  lemma {:induction false} DigitRunAll(text: ByteString, tail: ByteString)
    requires forall i | 0 <= i < |text| :: IsDigit(text[i])
    requires tail == [] || !IsDigit(tail[0])
    ensures DigitRun(text + tail) == |text|
  {
    if text == [] {
      assert text + tail == tail;
    } else {
      DigitRunAll(text[1..], tail);
      assert (text + tail)[1..] == text[1..] + tail;
    }
  }

  lemma {:induction false} NumberTextAll(text: ByteString, tail: ByteString, limit: nat)
    requires forall i | 0 <= i < |text| :: NumberByte(text[i])
    requires |text| <= limit && (tail == [] || !NumberByte(tail[0]))
    ensures NumberText(text + tail, limit) == text
  {
    if text == [] {
      assert text + tail == tail;
    } else {
      NumberTextAll(text[1..], tail, limit - 1);
      assert (text + tail)[1..] == text[1..] + tail;
    }
  }

  lemma {:induction false} DigitsLength(n: nat, bound: nat)
    requires bound > 0 && n < PowerOf10(bound)
    ensures |Digits(n)| <= bound
  {
    if n >= 10 {
      assert bound > 1;
      DigitsLength(n / 10, bound - 1);
    }
  }

  function PowerOf10(n: nat): nat {
    if n == 0 then 1 else 10 * PowerOf10(n - 1)
  }

  lemma DecimalText(n: int)
    requires INT_MIN <= n <= INT_MAX
    ensures |Decimal(n)| <= 11
    ensures forall i | 0 <= i < |Decimal(n)| :: NumberByte(Decimal(n)[i])
    ensures Decimal(n)[0] == MINUS || IsDigit(Decimal(n)[0])
  {
    var m := if n < 0 then -n else n;
    DigitsAreDigits(m);
    assert PowerOf10(5) == 100000;
    assert PowerOf10(10) == 10000000000;
    DigitsLength(m, 10);
  }

  lemma UnsignedDigits(n: nat)
    ensures Unsigned(Digits(n)) == Some((n as real, |Digits(n)|))
    ensures !IsSign(Digits(n), 0)
  {
    var text := Digits(n);
    DigitsAreDigits(n);
    DigitRunAll(text, []);
    assert IsDigit(text[0]);
    assert text + [] == text && text[..|text|] == text;
    hide Digits, DigitRun, DigitValue;
    assert Exponent(text[|text|..]) == (0, 0);
    assert Scale(n as real, 0) == n as real;
  }

  lemma ToIntWhole(n: int)
    requires INT_MIN <= n <= INT_MAX
    ensures ToInt(n as real) == n
  {
    assert (-(n as real)).Floor == -n;
  }

  /** Reading the printed text of an int gives the int back and stops exactly at its end. */
  lemma DecimalRoundTrip(n: int, tail: ByteString)
    requires INT_MIN <= n <= INT_MAX && (tail == [] || !NumberByte(tail[0]))
    ensures NumberText(Decimal(n) + tail, NUMBER_LIMIT) == Decimal(n)
    ensures Strtod(Decimal(n)) == Some((n as real, |Decimal(n)|))
    ensures ToInt(n as real) == n
  {
    hide Decimal, Strtod, NumberText, NumberByte, ToInt;
    DecimalText(n);
    NumberTextAll(Decimal(n), tail, NUMBER_LIMIT);
    ToIntWhole(n);
    StrtodDecimal(n);
  }

  lemma StrtodDecimal(n: int)
    ensures Strtod(Decimal(n)) == Some((n as real, |Decimal(n)|))
  {
    hide Unsigned, Digits;
    if n < 0 {
      UnsignedDigits(-n);
      assert Decimal(n)[1..] == Digits(-n);
    } else {
      UnsignedDigits(n);
    }
  }

  // ----- The functions in plain terms -----

  lemma DigitMeans(n: nat)
    requires n < 10
    ensures Digits(n) == Ascii(["0123456789"[n]])
  {
  }

  lemma DigitsMean(n: nat)
    requires n >= 10
    ensures Digits(n) == Digits(n / 10) + Digits(n % 10)
  {
    var d := n % 10;
    assert Digits(d) == [0x30 + d as Byte];
  }

  lemma DecimalMeans(n: nat)
    ensures Decimal(n) == Digits(n) && (n > 0 ==> Decimal(0 - n) == Ascii("-") + Digits(n))
  {
    hide Digits;
    assert Ascii("-") == [MINUS];
  }

  lemma NumberByteMeans(b: Byte)
    ensures IsDigit(b) <==> exists i :: 0 <= i < 10 && b as int == "0123456789"[i] as int
    ensures NumberByte(b) <==> exists i :: 0 <= i < 15 && b as int == "0123456789+-eE."[i] as int
  {
    var all := "0123456789+-eE.";
    if IsDigit(b) {
      assert b as int == "0123456789"[b - 0x30] as int && b as int == all[b - 0x30] as int;
    }
    assert b == 0x2b ==> b as int == all[10] as int;
    assert b == 0x2d ==> b as int == all[11] as int;
    assert b == 0x65 ==> b as int == all[12] as int;
    assert b == 0x45 ==> b as int == all[13] as int;
    assert b == 0x2e ==> b as int == all[14] as int;
  }

  /** At most 63 bytes of a number are looked at. */
  lemma {:induction false} NumberTextCut(text: ByteString, tail: ByteString)
    requires |text| == 63 && forall i | 0 <= i < |text| :: NumberByte(text[i])
    ensures NumberText(text + tail, NUMBER_LIMIT) == text
  {
    NumberTextTaken(text, tail);
  }

  lemma {:induction false} NumberTextTaken(text: ByteString, tail: ByteString)
    requires forall i | 0 <= i < |text| :: NumberByte(text[i])
    ensures NumberText(text + tail, |text|) == text
  {
    if text != [] {
      NumberTextTaken(text[1..], tail);
      assert (text + tail)[1..] == text[1..] + tail;
    }
  }

  /** Towards zero, and no further than a 32 bit int reaches. */
  lemma ToIntMeans(d: real)
    ensures d >= 2147483647.0 ==> ToInt(d) == 2147483647
    ensures d <= -2147483648.0 ==> ToInt(d) == -2147483648
    ensures 0.0 <= d < 2147483647.0 ==> ToInt(d) as real <= d < ToInt(d) as real + 1.0
    ensures -2147483648.0 < d <= 0.0 ==> ToInt(d) as real - 1.0 < d <= ToInt(d) as real
  {
  }

  lemma {:induction false} Power10Means(m: nat, n: nat)
    ensures Power10(1) == 10.0 && Power10(m + n) == Power10(m) * Power10(n)
  {
    if n > 0 {
      Power10Means(m, n - 1);
      assert m + n - 1 == m + (n - 1);
      assert Power10(m + n) == 10.0 * (Power10(m) * Power10(n - 1));
    } else {
      assert Power10(1) == 10.0 * Power10(0);
    }
  }

  lemma {:induction false} DigitValueMeans(text: ByteString, n: nat)
    requires (forall i | 0 <= i < |text| :: IsDigit(text[i])) && n < 10
    ensures DigitValue([]) == 0
    ensures forall i | 0 <= i < |text + Digits(n)| :: IsDigit((text + Digits(n))[i])
    ensures DigitValue(text + Digits(n)) == 10 * DigitValue(text) + n
  {
    var longer := text + Digits(n);
    assert longer[..|text|] == text && longer[|text|] == 0x30 + n as Byte;
  }

  /** There is a number exactly when a digit comes first, or a point and a digit, behind the sign. */
  lemma UnsignedExists(text: ByteString)
    ensures Unsigned(text).Some? <==>
            (text != [] && IsDigit(text[0])) || (|text| > 1 && text[0] as int as char == '.' && IsDigit(text[1]))
  {
    hide DigitValue, Scale, Exponent;
  }

  /** How an exponent may be marked and signed. */
  predicate ExponentMark(mark: ByteString, negative: bool) {
    if negative then mark == Ascii("e-") || mark == Ascii("E-")
    else mark == Ascii("e") || mark == Ascii("E") || mark == Ascii("e+") || mark == Ascii("E+")
  }

  predicate AllDigits(text: ByteString) {
    forall i | 0 <= i < |text| :: IsDigit(text[i])
  }

  /**
   A sign, digits, a fraction and an exponent, each but the digits optional, mean the number that they spell in
   base ten, and all of the text is used.
   */
  lemma StrtodMeans(minus: bool, whole: ByteString, fraction: ByteString, mark: ByteString, negative: bool,
                    exponent: ByteString)
    returns (value: real)
    requires AllDigits(whole) && AllDigits(fraction) && whole + fraction != [] && AllDigits(whole + fraction)
    requires AllDigits(exponent) && (mark == exponent == [] || (exponent != [] && ExponentMark(mark, negative)))
    ensures var digits := DigitValue(whole + fraction) as real / Power10(|fraction|);
            var scale := Power10(DigitValue(exponent));
            value == if negative then digits / scale else digits * scale
    ensures var unsigned := whole + (if fraction == [] then [] else Ascii(".") + fraction) + (mark + exponent);
            Strtod((if minus then Ascii("-") else []) + unsigned) ==
            Some((if minus then -value else value, |unsigned| + if minus then 1 else 0))
  {
    hide *;
    DigitsOnly(exponent);
    DigitsOnly(whole + fraction);
    value := ScaledValue(whole + fraction, |fraction|, negative, exponent);
    UnsignedScaled(whole, fraction, mark, negative, exponent, value);
    Signed(minus, whole + (if fraction == [] then [] else Ascii(".") + fraction) + (mark + exponent));
  }

  lemma UnsignedScaled(whole: ByteString, fraction: ByteString, mark: ByteString, negative: bool,
                       exponent: ByteString, value: real)
    requires AllDigits(whole) && AllDigits(fraction) && whole + fraction != [] && AllDigits(whole + fraction)
    requires AllDigits(exponent) && (mark == exponent == [] || (exponent != [] && ExponentMark(mark, negative)))
    requires value == Scale(DigitValue(whole + fraction) as real,
                            (if negative then 0 - DigitValue(exponent) else DigitValue(exponent)) - |fraction|)
    ensures var unsigned := whole + (if fraction == [] then [] else Ascii(".") + fraction) + (mark + exponent);
            Unsigned(unsigned) == Some((value, |unsigned|)) && !IsSign(unsigned, 0)
  {
    hide Strtod, Unsigned, Exponent, DigitValue, Power10, Scale, IsSign, ExponentMark, IsDigit;
    ExponentMeans(mark, negative, exponent);
    UnsignedMeans(whole, fraction, mark + exponent);
  }

  lemma DigitsOnly(text: ByteString)
    requires AllDigits(text)
    ensures forall i | 0 <= i < |text| :: IsDigit(text[i])
  {
    hide IsDigit;
  }

  lemma ScaledValue(digits: ByteString, places: nat, negative: bool, exponent: ByteString) returns (value: real)
    requires AllDigits(digits) && AllDigits(exponent)
    ensures forall i | 0 <= i < |digits| :: IsDigit(digits[i])
    ensures forall i | 0 <= i < |exponent| :: IsDigit(exponent[i])
    ensures value == Scale(DigitValue(digits) as real,
                           (if negative then 0 - DigitValue(exponent) else DigitValue(exponent)) - places)
    ensures var scale := Power10(DigitValue(exponent));
            var mantissa := DigitValue(digits) as real / Power10(places);
            value == if negative then mantissa / scale else mantissa * scale
  {
    hide IsDigit, DigitValue, Power10, Scale;
    value := Scale(DigitValue(digits) as real,
                   (if negative then 0 - DigitValue(exponent) else DigitValue(exponent)) - places);
    ScaleMeans(DigitValue(digits) as real, places, negative, DigitValue(exponent));
  }

  lemma Signed(minus: bool, unsigned: ByteString)
    requires Unsigned(unsigned).Some? && !IsSign(unsigned, 0)
    ensures var (value, length) := Unsigned(unsigned).value;
            Strtod((if minus then Ascii("-") else []) + unsigned) ==
            Some((if minus then -value else value, length + if minus then 1 else 0))
  {
    hide Unsigned;
    assert Ascii("-") == [0x2d];
    assert (Ascii("-") + unsigned)[1..] == unsigned && [] + unsigned == unsigned;
  }

  /** Where the digits of a number text end. */
  lemma NumberParts(whole: ByteString, fraction: ByteString, last: ByteString)
    requires AllDigits(whole) && AllDigits(fraction) && whole + fraction != []
    requires last == [] || last[0] == 0x65 || last[0] == 0x45
    ensures var point := if fraction == [] then [] else [0x2e] + fraction;
            var unsigned, n := whole + point + last, |whole|;
            && DigitRun(unsigned) == n && unsigned[..n] == whole && unsigned[n + |point|..] == last
            && (n < |unsigned| && unsigned[n] == 0x2e <==> fraction != [])
            && (fraction != [] ==>
                  DigitRun(unsigned[n + 1..]) == |fraction| && unsigned[n + 1..n + |point|] == fraction)
            && unsigned != [] && !IsSign(unsigned, 0)
  {
    var point := if fraction == [] then [] else [0x2e] + fraction;
    var unsigned := whole + point + last;
    assert unsigned == whole + (point + last);
    DigitRunAll(whole, point + last);
    if fraction != [] {
      assert unsigned[|whole| + 1..] == fraction + last;
      DigitRunAll(fraction, last);
    }
    hide DigitRun;
  }

  lemma UnsignedMeans(whole: ByteString, fraction: ByteString, last: ByteString)
    requires AllDigits(whole) && AllDigits(fraction) && whole + fraction != []
    requires (last == [] || last[0] == 0x65 || last[0] == 0x45) && Exponent(last).0 == |last|
    ensures AllDigits(whole + fraction)
    ensures var unsigned := whole + (if fraction == [] then [] else Ascii(".") + fraction) + last;
            && unsigned != [] && !IsSign(unsigned, 0)
            && Unsigned(unsigned) ==
               Some((Scale(DigitValue(whole + fraction) as real, Exponent(last).1 - |fraction|), |unsigned|))
  {
    hide DigitRun, Exponent, DigitValue, Scale, IsSign, IsDigit;
    assert Ascii(".") == [0x2e];
    NumberParts(whole, fraction, last);
    assert fraction == [] ==> whole + fraction == whole;
  }

  lemma MarkBytes(mark: ByteString, negative: bool)
    requires ExponentMark(mark, negative)
    ensures |mark| > 0 && (mark[0] == 0x65 || mark[0] == 0x45)
    ensures if negative then |mark| == 2 && mark[1] == 0x2d else |mark| == 1 || (|mark| == 2 && mark[1] == 0x2b)
  {
  }

  lemma ExponentMeans(mark: ByteString, negative: bool, exponent: ByteString)
    requires AllDigits(exponent) && (mark == exponent == [] || (exponent != [] && ExponentMark(mark, negative)))
    ensures Exponent(mark + exponent) ==
            (|mark + exponent|, if negative then 0 - DigitValue(exponent) else DigitValue(exponent))
    ensures mark + exponent == [] || (mark + exponent)[0] == 0x65 || (mark + exponent)[0] == 0x45
  {
    if mark != [] {
      MarkBytes(mark, negative);
      var text := mark + exponent;
      assert text[|mark|..] == exponent && text[|mark|..|mark| + |exponent|] == exponent;
      DigitRunAll(exponent, []);
      assert exponent + [] == exponent;
      hide DigitRun, DigitValue, ExponentMark;
      assert IsDigit(exponent[0]) && IsSign(text, 1) == (|mark| == 2);
    }
  }

  lemma ScaleMeans(mantissa: real, places: nat, negative: bool, exponent: nat)
    ensures Scale(mantissa, (if negative then 0 - exponent else exponent) - places) ==
            if negative then mantissa / Power10(places) / Power10(exponent)
            else mantissa / Power10(places) * Power10(exponent)
  {
    hide Power10, Scale;
    if negative {
      ScaleNegative(mantissa, places, exponent);
    } else if exponent >= places {
      ScaleUp(mantissa, places, exponent);
    } else {
      ScaleDown(mantissa, places, exponent);
    }
  }

  lemma ScaleNegative(mantissa: real, places: nat, exponent: nat)
    ensures Scale(mantissa, 0 - exponent - places) == mantissa / Power10(places) / Power10(exponent)
  {
    hide *;
    var a, b, c := Powers(places, exponent);
    DividedTwice(mantissa, a, b, c);
    ScaleIs(mantissa, exponent + places);
  }

  lemma ScaleUp(mantissa: real, places: nat, exponent: nat)
    requires exponent >= places
    ensures Scale(mantissa, exponent - places) == mantissa / Power10(places) * Power10(exponent)
  {
    hide *;
    var a, b, c := Powers(places, exponent - places);
    DividedBack(mantissa, a, b, c);
    ScaleIs(mantissa, exponent - places);
  }

  lemma ScaleDown(mantissa: real, places: nat, exponent: nat)
    requires exponent < places
    ensures Scale(mantissa, exponent - places) == mantissa / Power10(places) * Power10(exponent)
  {
    hide *;
    var a, b, c := Powers(places - exponent, exponent);
    DividedLess(mantissa, a, b, c);
    ScaleIs(mantissa, places - exponent);
  }

  lemma Powers(m: nat, n: nat) returns (a: real, b: real, c: real)
    ensures a == Power10(m) && b == Power10(n) && c == Power10(m + n) && a > 0.0 && b > 0.0 && c == a * b
  {
    Power10Means(m, n);
    hide Power10;
    a, b, c := Power10(m), Power10(n), Power10(m + n);
  }

  lemma ScaleIs(mantissa: real, exponent: nat)
    ensures Scale(mantissa, exponent) == mantissa * Power10(exponent)
    ensures Scale(mantissa, 0 - exponent) == mantissa / Power10(exponent)
  {
    if exponent == 0 {
      assert Power10(0) == 1.0;
    }
    hide Power10;
  }

  lemma Quotient(m: real, a: real, x: real)
    requires a > 0.0 && x * a == m
    ensures x == m / a
  {
  }

  lemma DividedTwice(m: real, a: real, b: real, c: real)
    requires a > 0.0 && b > 0.0 && c == a * b
    ensures c > 0.0 && m / c == m / a / b
  {
    var x := m / a / b;
    assert x * b == m / a;
    assert x * c == x * b * a == m;
    Quotient(m, c, x);
  }

  lemma DividedBack(m: real, a: real, b: real, c: real)
    requires a > 0.0 && c == a * b
    ensures m / a * c == m * b
  {
    var x := m / a;
    assert x * a == m;
    assert x * c == x * a * b;
  }

  lemma DividedLess(m: real, a: real, b: real, c: real)
    requires a > 0.0 && b > 0.0 && c == a * b
    ensures c > 0.0 && m / c * b == m / a
  {
    DividedTwice(m, a, b, c);
    var x := m / a / b;
    assert x * b == m / a;
  }
}
