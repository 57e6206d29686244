/**
 * Casting cells to column types, and the types a preview infers.
 *
 * Trimming, lower-casing and the calendar are parameters: `TextOps`.
 */
module Cast {
  import opened Common
  import CsvText

  type Cells = seq<string>

  datatype TextOps = TextOps(
    strip: string -> string,
    lower: string -> string,
    realDate: string -> bool,        // strptime accepts it as YYYY-MM-DD
    timestamp: string -> bool,       // fromisoformat accepts it
    utc: string -> string)           // its ISO text, in UTC if it names no zone

  /** A column type as a request names it; `Other` is any name that is not allowed. */
  datatype ColType = Int8 | Numeric | Boolean | DateType | TimestampTz | TextType | Other(name: string)

  /** The order in which inference tries the types. */
  function Rank(t: ColType): nat {
    match t
    case Int8 => 0
    case Numeric => 1
    case Boolean => 2
    case DateType => 3
    case TimestampTz => 4
    case TextType => 5
    case Other(_) => 6
  }

  datatype Value = Null | Int(n: int) | Number(text: string) | Bool(b: bool)
                 | Date(text: string) | Timestamp(text: string) | Text(text: string)

  datatype CastResult = Ok(value: Value) | Bad(reason: string)

  predicate IsInt(v: string) {
    CsvText.Digits(if v != "" && v[0] == '-' then v[1..] else v)
  }

  predicate IsNumber(v: string) {
    CsvText.IsDecimal(if v != "" && v[0] == '-' then v[1..] else v)
  }

  /** `\d{4}-\d{2}-\d{2}` */
  predicate IsDate(v: string) {
    |v| == 10 && v[4] == '-' && v[7] == '-'
    && CsvText.Digits(v[..4]) && CsvText.Digits(v[5..7]) && CsvText.Digits(v[8..])
  }

  predicate IsTrue(v: string) {
    v in {"true", "t", "yes", "y", "1"}
  }

  predicate IsFalse(v: string) {
    v in {"false", "f", "no", "n", "0"}
  }

  function NatOf(s: string): nat
    requires forall i :: 0 <= i < |s| ==> '0' <= s[i] <= '9'
  {
    if s == "" then 0 else 10 * NatOf(s[..|s| - 1]) + (s[|s| - 1] as int - '0' as int)
  }

  function IntOf(v: string): int
    requires IsInt(v)
  {
    if v[0] == '-' then 0 - NatOf(v[1..]) else NatOf(v)
  }

  function Quote(raw: string): string {
    "\"" + raw + "\""
  }

  function CastValue(ops: TextOps, raw: string, colType: ColType): CastResult {
    var v := ops.strip(raw);
    if v == "" then Ok(Null)
    else
      match colType
      case Int8 =>
        if IsInt(v) then Ok(Int(IntOf(v))) else Bad(Quote(raw) + " is not a whole number")
      case Numeric =>
        if IsNumber(v) then Ok(Number(v)) else Bad(Quote(raw) + " is not a number")
      case Boolean =>
        if IsTrue(ops.lower(v)) then Ok(Bool(true))
        else if IsFalse(ops.lower(v)) then Ok(Bool(false))
        else Bad(Quote(raw) + " is not true/false")
      case DateType =>
        if IsDate(v) && ops.realDate(v) then Ok(Date(v)) else Bad(Quote(raw) + " is not a YYYY-MM-DD date")
      case TimestampTz =>
        if ops.timestamp(v) then Ok(Timestamp(ops.utc(v))) else Bad(Quote(raw) + " is not a valid timestamp")
      case _ => Ok(Text(raw))
  }

  /** The test holds for every value that is not blank. */
  predicate AllMatch(ops: TextOps, values: seq<string>, test: string -> bool) {
    forall i :: 0 <= i < |values| ==> ops.strip(values[i]) == "" || test(ops.strip(values[i]))
  }

  /** The test that inference and casting make of a trimmed, non-blank value. */
  function TestFor(ops: TextOps, t: ColType): string -> bool {
    match t
    case Int8 => IsInt
    case Numeric => IsNumber
    case Boolean => v => IsTrue(ops.lower(v)) || IsFalse(ops.lower(v))
    case DateType => v => IsDate(v) && ops.realDate(v)
    case TimestampTz => ops.timestamp
    case _ => v => true
  }

  function InferType(ops: TextOps, values: seq<string>): ColType {
    if AllBlank(ops, values) then TextType
    else if AllMatch(ops, values, TestFor(ops, Int8)) then Int8
    else if AllMatch(ops, values, TestFor(ops, Numeric)) then Numeric
    else if AllMatch(ops, values, TestFor(ops, Boolean)) then Boolean
    else if AllMatch(ops, values, TestFor(ops, DateType)) then DateType
    else if AllMatch(ops, values, TestFor(ops, TimestampTz)) then TimestampTz
    else TextType
  }

  predicate CastsAll(ops: TextOps, values: seq<string>, t: ColType) {
    forall i :: 0 <= i < |values| ==> CastValue(ops, values[i], t).Ok?
  }

  predicate AllBlank(ops: TextOps, values: seq<string>) {
    forall i :: 0 <= i < |values| ==> ops.strip(values[i]) == ""
  }

  lemma CastIsTest(ops: TextOps, raw: string, t: ColType)
    ensures CastValue(ops, raw, t).Ok? <==> ops.strip(raw) == "" || TestFor(ops, t)(ops.strip(raw))
  {
    hide IsInt, IsNumber, IsDate, IsTrue, IsFalse, IntOf, Quote;
  }

  lemma CastsAllIsAllMatch(ops: TextOps, values: seq<string>, t: ColType)
    ensures CastsAll(ops, values, t) <==> AllMatch(ops, values, TestFor(ops, t))
  {
    hide CastValue, TestFor;
    forall i | 0 <= i < |values|
      ensures CastValue(ops, values[i], t).Ok? <==> ops.strip(values[i]) == "" || TestFor(ops, t)(ops.strip(values[i]))
    {
      CastIsTest(ops, values[i], t);
    }
  }

  lemma InferredTypeCasts(ops: TextOps, values: seq<string>)
    ensures CastsAll(ops, values, InferType(ops, values))
  {
    hide CastsAll, AllMatch;
    CastsAllIsAllMatch(ops, values, InferType(ops, values));
    BlankMatches(ops, values);
  }

  lemma BlankMatches(ops: TextOps, values: seq<string>)
    ensures AllMatch(ops, values, TestFor(ops, TextType))
  {
  }

  lemma NarrowerTypeDoesNotCast(ops: TextOps, values: seq<string>, t: ColType)
    requires !AllBlank(ops, values) && Rank(t) < Rank(InferType(ops, values))
    ensures !CastsAll(ops, values, t)
  {
    hide CastsAll, AllMatch, AllBlank, TestFor;
    CastsAllIsAllMatch(ops, values, t);
  }

  /** The inferred type is the first, in the order they are tried, to which every value
      casts, and text if all are blank: inference and casting never disagree. */
  lemma InferredTypeIsFirstThatCasts(ops: TextOps, values: seq<string>, t: ColType)
    ensures !InferType(ops, values).Other?
    ensures AllBlank(ops, values) ==> InferType(ops, values) == TextType
    ensures !AllBlank(ops, values) && !t.Other? ==>
              (t == InferType(ops, values)
               <==> CastsAll(ops, values, t) && forall u :: Rank(u) < Rank(t) ==> !CastsAll(ops, values, u))
  {
    hide CastsAll, AllMatch, AllBlank, TestFor;
    InferredTypeCasts(ops, values);
    forall u | !AllBlank(ops, values) && Rank(u) < Rank(InferType(ops, values))
      ensures !CastsAll(ops, values, u)
    {
      NarrowerTypeDoesNotCast(ops, values, u);
    }
    assert !t.Other? ==> (t == InferType(ops, values) <==> Rank(t) == Rank(InferType(ops, values)));
  }

  /** Non-empty cells beyond the header. */
  function ExtraCells(ops: TextOps, raw: Cells, width: nat): Cells {
    if |raw| <= width then [] else Filter(c => ops.strip(c) != "", raw[width..])
  }
}
