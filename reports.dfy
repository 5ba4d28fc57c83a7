/**
 * What the item, creature and table reports share: the inclusive range test
 * on a string ID, the in-range IDs of a record in their order, one decimal
 * ID per line, and the CSV field that leaves `-1` (no string) empty.
 */
module Reports {
  import opened JavaLang

  /** `minInclusive <= id && id <= maxInclusive`. */
  predicate InRange(id: int, lo: int, hi: int)
  {
    lo <= id <= hi
  }

  /** The IDs of `s` inside the range, in the order of `s`. */
  function InRangeOf(s: seq<int>, lo: int, hi: int): (r: seq<int>)
    ensures forall x :: x in r <==> x in s && InRange(x, lo, hi)
    ensures forall i :: 0 <= i < |r| ==> InRange(r[i], lo, hi)
    ensures |r| <= |s|
  {
    if s == [] then []
    else if InRange(s[0], lo, hi) then [s[0]] + InRangeOf(s[1..], lo, hi)
    else InRangeOf(s[1..], lo, hi)
  }

  /** `String.valueOf(id)` for each ID, one per line. */
  function Decimal(s: seq<int>): (lines: seq<string>)
    ensures |lines| == |s|
  {
    if s == [] then [] else [IntToString(s[0])] + Decimal(s[1..])
  }

  /** Every line of `Decimal(s)` reads back, with `Integer.parseInt`, as the ID it was written from. */
  lemma {:induction false} DecimalReadsBack(s: seq<int>)
    requires forall i :: 0 <= i < |s| ==> IsInt32(s[i])
    ensures forall i :: 0 <= i < |s| ==> ParseInt(Decimal(s)[i]) == Some(s[i])
  {
    if s != [] {
      ParseIntOfToString(s[0]);
      DecimalReadsBack(s[1..]);
      assert forall i :: 1 <= i < |s| ==> Decimal(s)[i] == Decimal(s[1..])[i - 1];
    }
  }

  /** The value of a CSV field: `-1`, the "no string" value, is written as the empty field. */
  function CsvField(v: int): string
  {
    if v == -1 then "" else IntToString(v)
  }

  /** A field is empty exactly for `-1`, and any other `int` reads back from its field. */
  lemma CsvFieldMeaning(v: int)
    requires IsInt32(v)
    ensures CsvField(v) == "" <==> v == -1
    ensures v != -1 ==> ParseInt(CsvField(v)) == Some(v)
  {
    if v != -1 {
      ParseIntOfToString(v);
    }
  }

  /** A CSV row: each field in double quotes, separated by commas. */
  function QuotedRow(fields: seq<string>): string
    requires |fields| >= 1
  {
    if |fields| == 1 then "\"" + fields[0] + "\""
    else "\"" + fields[0] + "\"," + QuotedRow(fields[1..])
  }
}
