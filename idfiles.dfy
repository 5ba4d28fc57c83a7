/**
 * How `progress.Mode` and `status_image.ImageMode` read string IDs: from the
 * first quoted column of a CSV export of the translation tool
 * (`getIdsFromCsv`), and from the `StringRef: <digits> ` lines of a TXT
 * export (`getIdsFromTxt`).
 */
module IdFiles {
  import opened JavaLang
  import opened Reports

  /** The separator of two quoted CSV fields, `","`. */
  const FIELD_SEPARATOR: string := "\",\""

  /**
   * One CSV line: the first character (the opening quote) dropped, the text up
   * to the first `","` parsed with `Integer.valueOf`.  An empty line throws
   * `StringIndexOutOfBoundsException` and a field that is not an `int` throws
   * `NumberFormatException`; both skip the line.
   */
  function CsvLineId(line: string): (r: Option<int>)
    ensures r.Some? ==> |line| > 0 && ParseInt(BeforeFirst(line[1..], FIELD_SEPARATOR)) == r
  {
    if line == [] then None else ParseInt(BeforeFirst(line[1..], FIELD_SEPARATOR))
  }

  /** `getIdsFromCsv`: the loop over the lines, adding each ID that reads. */
  method IdsFromCsv(lines: seq<string>) returns (ids: set<int>)
    ensures forall x :: x in ids <==> exists i :: 0 <= i < |lines| && CsvLineId(lines[i]) == Some(x)
  {
    ids := {};
    var k := 0;
    while k < |lines|
      invariant 0 <= k <= |lines|
      invariant forall x :: x in ids <==> exists i :: 0 <= i < k && CsvLineId(lines[i]) == Some(x)
    {
      var r := CsvLineId(lines[k]);
      if r.Some? {
        ids := ids + {r.value};
      }
      k := k + 1;
    }
  }

  /** The characters of `Integer.toString`: digits and the minus sign, never a quote. */
  lemma IntToStringNoQuote(v: int)
    ensures '"' !in IntToString(v)
  {
    var s := IntToString(v);
    if v < 0 {
      assert s == "-" + NatToString(-v);
      forall i | 0 <= i < |s|
        ensures s[i] != '"'
      {
        if i > 0 {
          assert s[i] == NatToString(-v)[i - 1];
        }
      }
    }
  }

  /** The text before the first separator is everything up to an occurrence with none before it. */
  lemma BeforeFirstAt(s: string, sep: string, k: nat)
    requires |sep| > 0 && OccursAt(s, sep, k)
    requires forall i :: 0 <= i < k ==> !OccursAt(s, sep, i)
    ensures BeforeFirst(s, sep) == s[..k]
  {
  }

  /** Text without a quote holds no `","`, not even one that starts in it and runs on past its end. */
  lemma NoSeparatorIn(a: string, t: string)
    requires '"' !in a
    ensures forall i :: 0 <= i < |a| ==> !OccursAt(a + t, FIELD_SEPARATOR, i)
  {
    forall i | 0 <= i < |a|
      ensures !OccursAt(a + t, FIELD_SEPARATOR, i)
    {
      assert (a + t)[i] == a[i];
      assert FIELD_SEPARATOR[0] == '"';
    }
  }

  /**
   * A row whose first field is a decimal `int`, written as the reports write
   * their CSV rows, reads back as that `int`, provided another field follows
   * (a one-field row keeps its closing quote and does not parse).
   */
  lemma CsvRowReadsBack(v: int, rest: seq<string>)
    requires IsInt32(v) && |rest| >= 1
    ensures CsvLineId(QuotedRow([IntToString(v)] + rest)) == Some(v)
  {
    var a := IntToString(v);
    var q := QuotedRow(rest);
    QuotedRowCons(a, rest);
    var s := a + (['"', ','] + q);
    DropFirst('"', s);
    SeparatorAfter(a, q);
    IntToStringNoQuote(v);
    NoSeparatorIn(a, ['"', ','] + q);
    BeforeFirstAt(s, FIELD_SEPARATOR, |a|);
    assert s[..|a|] == a;
    ParseIntOfToString(v);
  }

  /** A row of more than one field: the first one quoted, a comma, then the row of the others, which starts with a quote. */
  lemma QuotedRowCons(a: string, rest: seq<string>)
    requires |rest| >= 1
    ensures QuotedRow([a] + rest) == ['"'] + (a + (['"', ','] + QuotedRow(rest)))
    ensures QuotedRow(rest)[0] == '"'
  {
    assert ([a] + rest)[0] == a && ([a] + rest)[1..] == rest;
    Regroup(a, QuotedRow(rest));
    QuotedRowHead(rest);
  }

  lemma Regroup(a: string, q: string)
    ensures "\"" + a + "\"," + q == ['"'] + (a + (['"', ','] + q))
  {
    assert "\"," == ['"', ','];
    assert "\"" == ['"'];
  }

  lemma QuotedRowHead(fields: seq<string>)
    requires |fields| >= 1
    ensures QuotedRow(fields)[0] == '"'
  {
  }

  /** Dropping the first character. */
  lemma DropFirst(c: char, u: string)
    ensures ([c] + u)[1..] == u
  {
  }

  /** The quote and comma after a field, then the quote opening the next one, are a `","`. */
  lemma SeparatorAfter(a: string, q: string)
    requires |q| > 0 && q[0] == '"'
    ensures OccursAt(a + (['"', ','] + q), FIELD_SEPARATOR, |a|)
  {
    var s := a + (['"', ','] + q);
    assert s[|a|] == '"' && s[|a| + 1] == ',' && s[|a| + 2] == q[0];
  }

  /** A one-field row keeps its closing quote before the parse, so `Integer.valueOf` fails and the line is skipped. */
  lemma CsvSingleFieldSkipped(v: int)
    ensures CsvLineId(QuotedRow([IntToString(v)])) == None
  {
    var a := IntToString(v);
    var s := QuotedRow([a])[1..];
    assert s == a + "\"";
    IntToStringNoQuote(v);
    NoSeparatorIn(a, "\"");
    assert !OccursAt(s, FIELD_SEPARATOR, |a|);
    assert BeforeFirst(s, FIELD_SEPARATOR) == s;
    assert s[|s| - 1] == '"';
    assert !AllDigits(s);
    if s[0] == '-' || s[0] == '+' {
      assert s[1..][|s| - 2] == '"';
    }
  }

  // ---------------------------------------------------------------- TXT

  /** What `StringRef: ` is followed by in a matching line. */
  const STRING_REF: string := "StringRef: "

  /** The longest run of digits `s` starts with: what the greedy `\d+` takes. */
  function DigitRun(s: string): (d: string)
    ensures |d| <= |s| && d == s[..|d|] && AllDigits(d)
    ensures |d| < |s| ==> !IsDigit(s[|d|])
  {
    if s == [] || !IsDigit(s[0]) then "" else [s[0]] + DigitRun(s[1..])
  }

  /**
   * `^StringRef: (\d+) ` found in a line: the line starts with `StringRef: `,
   * then at least one digit, then a space; the group is the digits.  (A
   * shorter digit run would be followed by a digit, not by the space, so the
   * greedy run is the only match.)
   */
  function StringRefDigits(line: string): (r: Option<string>)
    ensures r.Some? ==> (IsDigits(r.value) && |line| > |STRING_REF| + |r.value| &&
      line[..|STRING_REF|] == STRING_REF && line[|STRING_REF|..|STRING_REF| + |r.value|] == r.value &&
      line[|STRING_REF| + |r.value|] == ' ')
  {
    if |line| < |STRING_REF| || line[..|STRING_REF|] != STRING_REF then None
    else
      var rest := line[|STRING_REF|..];
      var d := DigitRun(rest);
      if |d| == 0 || |d| == |rest| || rest[|d|] != ' ' then None else Some(d)
  }

  /** The digit run of digits followed by something else is those digits. */
  lemma {:induction false} DigitRunOf(d: string, c: char, t: string)
    requires AllDigits(d) && !IsDigit(c)
    ensures DigitRun(d + [c] + t) == d
  {
    if d != [] {
      assert (d + [c] + t)[1..] == d[1..] + [c] + t;
      DigitRunOf(d[1..], c, t);
    }
  }

  /** A line written as `StringRef: <n> ...` matches, and its group is the decimal digits of `n`. */
  lemma StringRefOfWritten(n: nat, tail: string)
    ensures StringRefDigits(STRING_REF + NatToString(n) + " " + tail) == Some(NatToString(n))
  {
    var d := NatToString(n);
    var line := STRING_REF + d + " " + tail;
    assert line[..|STRING_REF|] == STRING_REF;
    assert line[|STRING_REF|..] == d + [' '] + tail;
    DigitRunOf(d, ' ', tail);
  }

  /** The ID a matching line holds: `Integer.valueOf` of the digits, which throws (uncaught) above `Integer.MAX_VALUE`. */
  predicate Overflows(line: string)
  {
    StringRefDigits(line).Some? && DigitsValue(StringRefDigits(line).value) > INT_MAX
  }

  /**
   * `getIdsFromTxt`: the IDs of the matching lines.  The `NumberFormatException`
   * of a group above `Integer.MAX_VALUE` is not caught there: no set at all.
   */
  method IdsFromTxt(lines: seq<string>) returns (r: Option<set<int>>)
    ensures r.None? <==> exists i :: 0 <= i < |lines| && Overflows(lines[i])
    ensures r.Some? ==> forall x :: x in r.value <==>
      exists i :: 0 <= i < |lines| && StringRefDigits(lines[i]).Some? && x == DigitsValue(StringRefDigits(lines[i]).value)
  {
    var ids := {};
    var k := 0;
    while k < |lines|
      invariant 0 <= k <= |lines|
      invariant forall i :: 0 <= i < k ==> !Overflows(lines[i])
      invariant forall x :: x in ids <==> RefBefore(lines, k, x)
    {
      RefBeforeStep(lines, k);
      var m := StringRefDigits(lines[k]);
      if m.Some? {
        ParseIntOfDigits(m.value);
        var v := ParseInt(m.value);
        if v.None? {
          return None;
        }
        ids := ids + {v.value};
      }
      k := k + 1;
    }
    return Some(ids);
  }

  /** One of the first `k` lines is a string reference to `x`. */
  ghost predicate RefBefore(lines: seq<string>, k: int, x: int)
    requires 0 <= k <= |lines|
  {
    exists i :: 0 <= i < k && StringRefDigits(lines[i]).Some? && x == DigitsValue(StringRefDigits(lines[i]).value)
  }

  lemma RefBeforeStep(lines: seq<string>, k: int)
    requires 0 <= k < |lines|
    ensures forall x :: RefBefore(lines, k + 1, x) <==> (RefBefore(lines, k, x) ||
      (StringRefDigits(lines[k]).Some? && x == DigitsValue(StringRefDigits(lines[k]).value)))
  {
  }
}
