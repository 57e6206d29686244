/**
 * What a cell means: the value a text stands for in a column of each type, said
 * without the functions that compute it, and the reason given when it has none.
 */
module CellValues {
  import opened Common
  import CsvText
  import Sanitize
  import opened Cast

  function Zeros(n: nat): (s: string)
    ensures |s| == n
  {
    seq(n, _ => '0')
  }

  function Sign(minus: bool): string {
    if minus then "-" else ""
  }

  /** The ways to write a whole number: its decimal digits, after zeros and perhaps a minus. */
  function Numeral(minus: bool, zeros: nat, n: nat): string {
    Sign(minus) + (Zeros(zeros) + Sanitize.Decimal(n))
  }

  ghost predicate AllDigits(s: string) {
    s != "" && forall i :: 0 <= i < |s| ==> s[i] in "0123456789"
  }

  function Point(minus: bool, whole: string, fraction: string): string {
    Sign(minus) + (whole + (if fraction == "" then "" else "." + fraction))
  }

  function Dashed(year: string, month: string, day: string): string {
    year + "-" + month + "-" + day
  }

  ghost predicate DenotesInt(v: string, n: int) {
    exists minus: bool, zeros: nat, m: nat :: v == Numeral(minus, zeros, m) && n == if minus then 0 - m else m
  }

  ghost predicate WritesNumber(v: string) {
    exists minus, whole, fraction ::
      v == Point(minus, whole, fraction) && AllDigits(whole) && (fraction == "" || AllDigits(fraction))
  }

  ghost predicate DigitsOf(s: string, n: nat) {
    |s| == n && AllDigits(s)
  }

  ghost predicate WritesDate(v: string) {
    exists year, month, day ::
      v == Dashed(year, month, day) && DigitsOf(year, 4) && DigitsOf(month, 2) && DigitsOf(day, 2)
  }

  /** The text stands for this value in a column of this type. Blank text is no value. */
  ghost predicate Means(ops: TextOps, text: string, t: ColType, value: Value) {
    var v := ops.strip(text);
    if v == "" then value == Null
    else
      match t
      case Int8 => value.Int? && DenotesInt(v, value.n)
      case Numeric => value == Value.Number(v) && WritesNumber(v)
      case Boolean =>
        || (value == Bool(true) && ops.lower(v) in {"true", "t", "yes", "y", "1"})
        || (value == Bool(false) && ops.lower(v) in {"false", "f", "no", "n", "0"})
      case DateType => value == Date(v) && WritesDate(v) && ops.realDate(v)
      case TimestampTz => value == Timestamp(ops.utc(v)) && ops.timestamp(v)
      case _ => value == Text(text)
  }

  ghost predicate HasMeaning(ops: TextOps, text: string, t: ColType) {
    exists value :: Means(ops, text, t, value)
  }

  /** The reason given for a text that stands for nothing in a column of this type. */
  function Complaint(text: string, t: ColType): string {
    "\"" + text + "\"" +
    match t
    case Int8 => " is not a whole number"
    case Numeric => " is not a number"
    case Boolean => " is not true/false"
    case DateType => " is not a YYYY-MM-DD date"
    case TimestampTz => " is not a valid timestamp"
    case _ => ""
  }

  // ---------------------------------------------------------------------
  // Numerals
  // ---------------------------------------------------------------------

  lemma DigitsSnoc(front: string, d: nat)
    requires d < 10 && (front == "" || CsvText.Digits(front))
    ensures CsvText.Digits(front + [Sanitize.Digit(d)])
    ensures NatOf(front + [Sanitize.Digit(d)]) == 10 * NatOf(front) + d
  {
    DigitValue(d);
    assert (front + [Sanitize.Digit(d)])[..|front|] == front;
  }

  lemma {:induction false} NatOfDecimal(n: nat)
    ensures CsvText.Digits(Sanitize.Decimal(n)) && NatOf(Sanitize.Decimal(n)) == n
  {
    if n >= 10 {
      NatOfDecimal(n / 10);
      DigitsSnoc(Sanitize.Decimal(n / 10), n % 10);
    } else {
      DigitsSnoc("", n % 10);
    }
  }

  lemma DigitValue(d: nat)
    requires d < 10
    ensures '0' <= Sanitize.Digit(d) <= '9' && Sanitize.Digit(d) as int - '0' as int == d
  {
  }

  lemma DigitOf(c: char) returns (d: nat)
    requires '0' <= c <= '9'
    ensures d < 10 && Sanitize.Digit(d) == c
  {
    d := c as int - '0' as int;
  }

  lemma DigitsAreDigits(s: string)
    ensures CsvText.Digits(s) <==> AllDigits(s)
  {
    forall i | 0 <= i < |s| ensures '0' <= s[i] <= '9' <==> s[i] in "0123456789" {
      OneDigit(s[i]);
    }
  }

  lemma OneDigit(c: char)
    ensures '0' <= c <= '9' <==> c in "0123456789"
  {
    var digits := "0123456789";
    if '0' <= c <= '9' {
      assert digits[c as int - '0' as int] == c;
    }
  }

  lemma DecimalSnoc(n: nat, d: nat)
    requires d < 10
    ensures Sanitize.Decimal(d) == [Sanitize.Digit(d)]
    ensures n > 0 ==> Sanitize.Decimal(10 * n + d) == Sanitize.Decimal(n) + [Sanitize.Digit(d)]
  {
    assert (10 * n + d) / 10 == n && (10 * n + d) % 10 == d;
    hide Sanitize.Digit;
    DecimalOfLarge(10 * n + d);
  }

  lemma DecimalOfLarge(n: nat)
    ensures n >= 10 ==> Sanitize.Decimal(n) == Sanitize.Decimal(n / 10) + [Sanitize.Digit(n % 10)]
  {
  }

  lemma DigitsFront(s: string)
    requires CsvText.Digits(s) && |s| > 1
    ensures CsvText.Digits(s[..|s| - 1])
  {
  }

  /** Digits are the decimal numeral of their number, after zeros. */
  lemma {:induction false} DigitsAreNumeral(s: string) returns (zeros: nat)
    requires CsvText.Digits(s)
    ensures s == Zeros(zeros) + Sanitize.Decimal(NatOf(s))
  {
    var n := |s| - 1;
    var front := s[..n];
    var d := DigitOf(s[n]);
    assert s == front + [Sanitize.Digit(d)];
    hide Sanitize.Decimal, Sanitize.Digit, Zeros;
    if n == 0 {
      DigitsSnoc("", d);
      DecimalSnoc(0, d);
      zeros := 0;
      assert s == [] + [Sanitize.Digit(d)] && NatOf(s) == d && Zeros(0) == [];
    } else {
      DigitsFront(s);
      zeros := DigitsAreNumeral(front);
      DigitsSnoc(front, d);
      zeros := NumeralSnoc(zeros, NatOf(front), d);
    }
  }

  lemma NumeralSnoc(zeros: nat, n: nat, d: nat) returns (zeros': nat)
    requires d < 10
    ensures Zeros(zeros) + Sanitize.Decimal(n) + [Sanitize.Digit(d)] == Zeros(zeros') + Sanitize.Decimal(10 * n + d)
  {
    DecimalSnoc(n, d);
    if n == 0 {
      zeros' := zeros + 1;
      DecimalSnoc(0, 0);
      ZerosSnoc(zeros);
    } else {
      zeros' := zeros;
    }
  }

  lemma ZerosSnoc(zeros: nat)
    ensures Zeros(zeros) + [Sanitize.Digit(0)] == Zeros(zeros + 1)
  {
  }

  lemma {:induction false} NumeralIsDigits(zeros: nat, n: nat)
    ensures CsvText.Digits(Zeros(zeros) + Sanitize.Decimal(n)) && NatOf(Zeros(zeros) + Sanitize.Decimal(n)) == n
  {
    hide Sanitize.Decimal, Sanitize.Digit, Zeros, NatOf, CsvText.Digits;
    var s := Zeros(zeros) + Sanitize.Decimal(n);
    if n < 10 {
      ZerosAreZero(zeros);
      DigitsSnoc(Zeros(zeros), n);
      DecimalSnoc(0, n);
    } else {
      NumeralIsDigits(zeros, n / 10);
      DigitsSnoc(Zeros(zeros) + Sanitize.Decimal(n / 10), n % 10);
      DecimalOfLarge(n);
      assert s == Zeros(zeros) + Sanitize.Decimal(n / 10) + [Sanitize.Digit(n % 10)];
    }
  }

  lemma {:induction false} ZerosAreZero(zeros: nat)
    ensures Zeros(zeros) == "" || CsvText.Digits(Zeros(zeros))
    ensures NatOf(Zeros(zeros)) == 0
  {
    if zeros > 0 {
      ZerosAreZero(zeros - 1);
      assert Zeros(zeros)[..zeros - 1] == Zeros(zeros - 1);
    }
  }

  /** The text after a leading minus. */
  function Unsigned(v: string): string {
    if v != "" && v[0] == '-' then v[1..] else v
  }

  predicate Negative(v: string) {
    v != "" && v[0] == '-'
  }

  lemma UnsignedPart(minus: bool, digits: string)
    requires digits != "" && digits[0] != '-'
    ensures Negative(Sign(minus) + digits) == minus && Unsigned(Sign(minus) + digits) == digits
  {
  }

  lemma SignedPart(v: string)
    ensures v == Sign(Negative(v)) + Unsigned(v)
  {
  }

  lemma IntByParts(v: string)
    ensures IsInt(v) <==> CsvText.Digits(Unsigned(v))
    ensures IsInt(v) ==> IntOf(v) == if Negative(v) then 0 - NatOf(Unsigned(v)) else NatOf(Unsigned(v))
  {
    hide NatOf;
  }

  lemma DigitsStart(s: string)
    requires CsvText.Digits(s)
    ensures s != "" && s[0] != '-'
  {
  }

  /** The test and the conversion for whole numbers are right. */
  lemma IntIsDenoted(v: string, n: int)
    ensures DenotesInt(v, n) <==> IsInt(v) && IntOf(v) == n
  {
    hide IsInt, IntOf, NatOf, Sanitize.Decimal, Zeros, Unsigned, Negative, Sign;
    IntByParts(v);
    if DenotesInt(v, n) {
      var minus: bool, zeros: nat, m: nat :| v == Numeral(minus, zeros, m) && n == if minus then 0 - m else m;
      NumeralIsDigits(zeros, m);
      DigitsStart(Zeros(zeros) + Sanitize.Decimal(m));
      UnsignedPart(minus, Zeros(zeros) + Sanitize.Decimal(m));
    }
    if IsInt(v) && IntOf(v) == n {
      var zeros := DigitsAreNumeral(Unsigned(v));
      SignedPart(v);
      assert v == Numeral(Negative(v), zeros, NatOf(Unsigned(v)));
    }
  }

  lemma NumberByParts(v: string)
    ensures IsNumber(v) <==> CsvText.IsDecimal(Unsigned(v))
  {
    hide CsvText.IsDecimal;
  }

  lemma PointIsDecimal(whole: string, fraction: string)
    requires CsvText.Digits(whole) && (fraction == "" || CsvText.Digits(fraction))
    ensures CsvText.IsDecimal(whole + (if fraction == "" then "" else "." + fraction))
  {
    var s := whole + (if fraction == "" then "" else "." + fraction);
    hide CsvText.Digits;
    if fraction == "" {
      assert s == whole;
    } else {
      assert s[|whole|] == '.' && s[..|whole|] == whole && s[|whole| + 1..] == fraction;
    }
  }

  lemma DecimalIsPoint(s: string) returns (whole: string, fraction: string)
    requires CsvText.IsDecimal(s)
    ensures s == whole + (if fraction == "" then "" else "." + fraction)
    ensures CsvText.Digits(whole) && (fraction == "" || CsvText.Digits(fraction))
  {
    if CsvText.Digits(s) {
      whole, fraction := s, "";
    } else {
      var i :| 0 <= i < |s| && s[i] == '.' && CsvText.Digits(s[..i]) && CsvText.Digits(s[i + 1..]);
      whole, fraction := s[..i], s[i + 1..];
      hide CsvText.Digits;
      assert s[i..] == "." + s[i + 1..];
      assert s == s[..i] + s[i..];
    }
  }

  lemma WrittenIsNumber(minus: bool, whole: string, fraction: string)
    requires AllDigits(whole) && (fraction == "" || AllDigits(fraction))
    ensures IsNumber(Point(minus, whole, fraction))
  {
    DigitsAreDigits(whole);
    DigitsAreDigits(fraction);
    var s := whole + (if fraction == "" then "" else "." + fraction);
    DigitsStart(whole);
    assert s[0] == whole[0];
    hide IsNumber, CsvText.IsDecimal, CsvText.Digits, AllDigits, Unsigned;
    PointIsDecimal(whole, fraction);
    UnsignedPart(minus, s);
    NumberByParts(Point(minus, whole, fraction));
  }

  lemma NumberIsWritten(v: string)
    ensures WritesNumber(v) <==> IsNumber(v)
  {
    hide IsNumber, CsvText.IsDecimal, CsvText.Digits, AllDigits, Unsigned, Sign;
    if WritesNumber(v) {
      var minus, whole, fraction :|
        v == Point(minus, whole, fraction) && AllDigits(whole) && (fraction == "" || AllDigits(fraction));
      WrittenIsNumber(minus, whole, fraction);
    }
    if IsNumber(v) {
      NumberByParts(v);
      var whole, fraction := DecimalIsPoint(Unsigned(v));
      SignedPart(v);
      DigitsAreDigits(whole);
      DigitsAreDigits(fraction);
      assert v == Point(Negative(v), whole, fraction);
    }
  }

  lemma DashedIsDate(year: string, month: string, day: string)
    requires |year| == 4 && |month| == 2 && |day| == 2
    requires CsvText.Digits(year) && CsvText.Digits(month) && CsvText.Digits(day)
    ensures IsDate(Dashed(year, month, day))
  {
    hide CsvText.Digits;
    var v := Dashed(year, month, day);
    assert v[..4] == year;
    assert v[5..7] == month;
    assert v[8..] == day;
  }

  lemma DateIsWritten(v: string)
    ensures WritesDate(v) <==> IsDate(v)
  {
    hide CsvText.Digits, AllDigits;
    if WritesDate(v) {
      var year, month, day :|
        v == Dashed(year, month, day) && DigitsOf(year, 4) && DigitsOf(month, 2) && DigitsOf(day, 2);
      DigitsAreDigits(year);
      DigitsAreDigits(month);
      DigitsAreDigits(day);
      DashedIsDate(year, month, day);
    }
    if IsDate(v) {
      DigitsAreDigits(v[..4]);
      DigitsAreDigits(v[5..7]);
      DigitsAreDigits(v[8..]);
      assert v == Dashed(v[..4], v[5..7], v[8..]);
    }
  }

  // ---------------------------------------------------------------------
  // The export's guard
  // ---------------------------------------------------------------------

  ghost predicate LooksNumeric(s: string) {
    exists sign, whole, fraction ::
      sign in {"", "+", "-"} && s == Written(sign, whole, fraction)
      && AllDigits(whole) && (fraction == "" || AllDigits(fraction))
  }

  function Written(sign: string, whole: string, fraction: string): string {
    sign + (whole + (if fraction == "" then "" else "." + fraction))
  }

  lemma WrittenIsPlain(sign: string, whole: string, fraction: string)
    requires sign in {"", "+", "-"} && AllDigits(whole) && (fraction == "" || AllDigits(fraction))
    ensures CsvText.PlainNumber(Written(sign, whole, fraction))
  {
    DigitsAreDigits(whole);
    DigitsAreDigits(fraction);
    var s := whole + (if fraction == "" then "" else "." + fraction);
    assert s[0] == whole[0] && '0' <= s[0] <= '9';
    hide CsvText.IsDecimal, CsvText.Digits, AllDigits;
    PointIsDecimal(whole, fraction);
    var v := Written(sign, whole, fraction);
    assert if sign == "" then v == s else v[0] == sign[0] && v[1..] == s;
  }

  function SignOf(s: string): string {
    if s != "" && (s[0] == '+' || s[0] == '-') then [s[0]] else ""
  }

  lemma PlainByParts(s: string)
    requires CsvText.PlainNumber(s)
    ensures SignOf(s) in {"", "+", "-"} && s == SignOf(s) + s[|SignOf(s)|..]
    ensures CsvText.IsDecimal(s[|SignOf(s)|..])
  {
    hide CsvText.IsDecimal;
    assert s[0..] == s;
  }

  lemma PlainIsWritten(s: string)
    requires CsvText.PlainNumber(s)
    ensures LooksNumeric(s)
  {
    PlainByParts(s);
    var sign := SignOf(s);
    hide SignOf, CsvText.IsDecimal, CsvText.Digits, AllDigits;
    var whole, fraction := DecimalIsPoint(s[|sign|..]);
    DigitsAreDigits(whole);
    DigitsAreDigits(fraction);
    assert s == Written(sign, whole, fraction);
  }

  /** A cell gets a quote in front exactly if it starts like a formula and is no number. */
  lemma GuardExactly(s: string)
    ensures CsvText.Guard(s)
         == if s != "" && s[0] in {'=', '+', '-', '@', '\t', '\r'} && !LooksNumeric(s) then "'" + s else s
  {
    hide CsvText.PlainNumber, AllDigits;
    if CsvText.PlainNumber(s) {
      PlainIsWritten(s);
    }
    if LooksNumeric(s) {
      var sign, whole, fraction :|
        sign in {"", "+", "-"} && s == Written(sign, whole, fraction)
        && AllDigits(whole) && (fraction == "" || AllDigits(fraction));
      WrittenIsPlain(sign, whole, fraction);
    }
  }

  // ---------------------------------------------------------------------
  // Casting finds the meaning
  // ---------------------------------------------------------------------

  /** A cell casts to a value exactly if that is what its text means. */
  lemma CastFindsMeaning(ops: TextOps, text: string, t: ColType, value: Value)
    ensures CastValue(ops, text, t) == Ok(value) <==> Means(ops, text, t, value)
  {
    hide IsInt, IntOf, IsNumber, IsDate, DenotesInt, WritesNumber, WritesDate;
    var v := ops.strip(text);
    if value.Int? {
      IntIsDenoted(v, value.n);
    }
    NumberIsWritten(v);
    DateIsWritten(v);
  }

  /** It is refused exactly if its text means nothing, with the reason for its type. */
  lemma CastRefuses(ops: TextOps, text: string, t: ColType)
    ensures CastValue(ops, text, t).Bad? <==> !HasMeaning(ops, text, t)
    ensures CastValue(ops, text, t).Bad? ==> CastValue(ops, text, t).reason == Complaint(text, t)
  {
    var r := CastValue(ops, text, t);
    if r.Ok? {
      CastFindsMeaning(ops, text, t, r.value);
    }
    forall value | Means(ops, text, t, value) ensures r.Ok? {
      CastFindsMeaning(ops, text, t, value);
    }
    hide Means, IsInt, IsNumber, IsDate, IntOf;
  }

  // ---------------------------------------------------------------------
  // Cells beyond the header
  // ---------------------------------------------------------------------

  /** Cells beyond the header are blank. */
  ghost predicate NothingBeyond(ops: TextOps, raw: Cells, width: nat) {
    forall c :: width <= c < |raw| ==> ops.strip(raw[c]) == ""
  }

  /** The first cell beyond the header that is not blank, if there is one. */
  lemma ExtraTells(ops: TextOps, raw: Cells, width: nat) returns (c: nat)
    ensures ExtraCells(ops, raw, width) == [] <==> NothingBeyond(ops, raw, width)
    ensures ExtraCells(ops, raw, width) != [] ==>
              width <= c < |raw| && ExtraCells(ops, raw, width)[0] == raw[c] && ops.strip(raw[c]) != ""
              && forall i :: width <= i < c ==> ops.strip(raw[i]) == ""
  {
    c := 0;
    if |raw| > width {
      var n := FilterFirst(x => ops.strip(x) != "", raw[width..]);
      c := width + n;
      assert forall i :: width <= i < c ==> raw[i] == raw[width..][i - width];
      assert n < |raw| - width ==> raw[width..][n] == raw[c];
    }
  }
}
