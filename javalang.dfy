/**
 * The few pieces of `java.lang` the program's behaviour depends on:
 * `Integer.parseInt` / `Integer.valueOf`, `Integer.toString` (string
 * concatenation of an `int`), `String.compareTo`, `String.split` with a
 * literal one-character separator, and `int` division, which truncates
 * toward zero.
 */
module JavaLang {

  datatype Option<T> = None | Some(value: T)

  const INT_MIN: int := -0x8000_0000
  const INT_MAX: int := 0x7fff_ffff

  /** Fits into a Java `int`. */
  predicate IsInt32(x: int)
  {
    INT_MIN <= x <= INT_MAX
  }

  /** Java `/` on `int` by a positive divisor: the quotient truncated toward zero (Dafny's `/` rounds down). */
  function JavaDiv(a: int, b: int): (q: int)
    requires b > 0
    ensures a >= 0 ==> 0 <= a - q * b < b
    ensures a < 0 ==> -b < a - q * b <= 0
  {
    if a < 0 then -((-a) / b) else a / b
  }

  /** An `int` result of `+`, `-` or `*`: the exact value wrapped around into the 32-bit range. */
  function Wrap32(x: int): (r: int)
    ensures IsInt32(r)
    ensures IsInt32(x) ==> r == x
    ensures (x - r) % 0x1_0000_0000 == 0
  {
    (x - INT_MIN) % 0x1_0000_0000 + INT_MIN
  }

  // ---------------------------------------------------------------- digits

  /** An ASCII digit, what the regular expression class `\d` matches. */
  predicate IsDigit(c: char)
  {
    '0' <= c <= '9'
  }

  predicate AllDigits(s: string)
  {
    forall i :: 0 <= i < |s| ==> IsDigit(s[i])
  }

  /** What `\d+` matches. */
  predicate IsDigits(s: string)
  {
    |s| > 0 && AllDigits(s)
  }

  function DigitChar(d: nat): (c: char)
    requires d < 10
    ensures IsDigit(c) && (c as int) - ('0' as int) == d
  {
    ('0' as int + d) as char
  }

  /** The value of a run of decimal digits, most significant first. */
  function DigitsValue(s: string): nat
    requires AllDigits(s)
  {
    if s == [] then 0
    else DigitsValue(s[..|s| - 1]) * 10 + ((s[|s| - 1] as int) - ('0' as int))
  }

  /** The decimal digits of a natural number, without leading zeros. */
  function NatToString(n: nat): (r: string)
    ensures IsDigits(r)
    ensures r[0] != '0' || r == "0"
  {
    if n < 10 then [DigitChar(n)]
    else
      var p := NatToString(n / 10);
      var r := p + [DigitChar(n % 10)];
      assert r[0] == p[0];
      r
  }

  /** `Integer.toString(i)`, also what `"" + i` produces. */
  function IntToString(i: int): string
  {
    if i < 0 then "-" + NatToString(-i) else NatToString(i)
  }

  /** Reading back the digits of a number gives the number. */
  lemma {:induction false} DigitsOfNat(n: nat)
    ensures DigitsValue(NatToString(n)) == n
  {
    if n >= 10 {
      DigitsOfNat(n / 10);
      var r := NatToString(n);
      assert r[..|r| - 1] == NatToString(n / 10);
    }
  }

  /** A digit run is the canonical spelling of its value exactly when it has no leading zero. */
  lemma {:induction false} CanonicalDigits(s: string)
    requires IsDigits(s)
    ensures NatToString(DigitsValue(s)) == s <==> (s[0] != '0' || s == "0")
    decreases |s|
  {
    var v := DigitsValue(s);
    if |s| == 1 {
      assert s[..|s| - 1] == "" && s[|s| - 1] == s[0];
      assert DigitsValue(s) == DigitsValue(s[..|s| - 1]) * 10 + ((s[|s| - 1] as int) - ('0' as int));
      assert v == (s[0] as int) - ('0' as int);
      assert NatToString(v) == [DigitChar(v)];
    } else {
      var p := s[..|s| - 1];
      var last := (s[|s| - 1] as int) - ('0' as int);
      assert AllDigits(p);
      assert v == DigitsValue(p) * 10 + last;
      if s[0] == '0' {
        assert |s| != |"0"|;
      } else {
        CanonicalDigits(p);
        assert p[0] == s[0];
        assert v >= 10 by { PositiveLeadingDigit(p); }
        assert v / 10 == DigitsValue(p) && v % 10 == last;
        assert NatToString(v) == NatToString(DigitsValue(p)) + [DigitChar(last)];
        assert s == p + [s[|s| - 1]];
      }
    }
  }

  lemma {:induction false} PositiveLeadingDigit(s: string)
    requires IsDigits(s) && s[0] != '0'
    ensures DigitsValue(s) >= 1
    decreases |s|
  {
    if |s| > 1 {
      var p := s[..|s| - 1];
      assert p[0] == s[0];
      PositiveLeadingDigit(p);
    }
  }

  /** Different numbers have different decimal spellings. */
  lemma NatToStringInjective(a: nat, b: nat)
    requires NatToString(a) == NatToString(b)
    ensures a == b
  {
    DigitsOfNat(a);
    DigitsOfNat(b);
  }

  /**
   * `Integer.parseInt(s)` (and `Integer.valueOf(s)`): an optional `+` or `-`,
   * then one or more digits, and a value that fits into an `int`; anything
   * else raises `NumberFormatException`, which is `None` here.
   */
  function ParseInt(s: string): (r: Option<int>)
    ensures r.Some? ==> IsInt32(r.value)
  {
    if |s| == 0 then None
    else if s[0] == '-' || s[0] == '+' then
      if |s| == 1 || !AllDigits(s[1..]) then None
      else
        var v: int := if s[0] == '-' then -(DigitsValue(s[1..]) as int) else DigitsValue(s[1..]);
        if IsInt32(v) then Some(v) else None
    else if !AllDigits(s) then None
    else if DigitsValue(s) <= INT_MAX then Some(DigitsValue(s))
    else None
  }

  /** `Integer.parseInt` reads back what `Integer.toString` writes, for every `int`. */
  lemma ParseIntOfToString(i: int)
    requires IsInt32(i)
    ensures ParseInt(IntToString(i)) == Some(i)
  {
    if i < 0 {
      var d := NatToString(-i);
      DigitsOfNat(-i);
      assert IntToString(i)[1..] == d;
    } else {
      DigitsOfNat(i);
    }
  }

  /** On a `\d+` match, `Integer.parseInt` fails exactly when the value is above `Integer.MAX_VALUE`. */
  lemma ParseIntOfDigits(s: string)
    requires IsDigits(s)
    ensures ParseInt(s) == if DigitsValue(s) <= INT_MAX then Some(DigitsValue(s)) else None
  {
  }

  /** A signed number parses, but is not a `\d+` match. */
  lemma ParseIntAcceptsSign()
    ensures ParseInt("+5") == Some(5) && !IsDigits("+5")
  {
    assert "+5"[1..] == "5";
    assert DigitsValue("5") == DigitsValue("") * 10 + 5;
  }

  // ---------------------------------------------------------------- strings

  /**
   * `String.compareTo`: at the first position where the two strings differ,
   * the difference of the two characters; if one is a prefix of the other,
   * the difference of the lengths.
   */
  function CompareStrings(a: string, b: string): int
  {
    if a == [] || b == [] then |a| - |b|
    else if a[0] != b[0] then (a[0] as int) - (b[0] as int)
    else CompareStrings(a[1..], b[1..])
  }

  /** `String.compareTo` is zero exactly on equal strings. */
  lemma {:induction false} CompareStringsZero(a: string, b: string)
    ensures CompareStrings(a, b) == 0 <==> a == b
    decreases |a|
  {
    if a != [] && b != [] && a[0] == b[0] {
      CompareStringsZero(a[1..], b[1..]);
      assert a == [a[0]] + a[1..] && b == [b[0]] + b[1..];
    }
  }

  /** `String.compareTo` is antisymmetric. */
  lemma {:induction false} CompareStringsAntisymmetric(a: string, b: string)
    ensures CompareStrings(a, b) == -CompareStrings(b, a)
    decreases |a|
  {
    if a != [] && b != [] && a[0] == b[0] {
      CompareStringsAntisymmetric(a[1..], b[1..]);
    }
  }

  /** `String.compareTo` orders strings: a string below one below a third is below the third. */
  lemma {:induction false} CompareStringsTransitive(a: string, b: string, c: string)
    requires CompareStrings(a, b) < 0 && CompareStrings(b, c) < 0
    ensures CompareStrings(a, c) < 0
    decreases |a|
  {
    if a != [] && b != [] && c != [] && a[0] == b[0] && b[0] == c[0] {
      CompareStringsTransitive(a[1..], b[1..], c[1..]);
    }
  }

  /** The position of the first occurrence of `c` in `s`. */
  function FirstIndexOf(s: string, c: char): (k: nat)
    requires c in s
    ensures k < |s| && s[k] == c && c !in s[..k]
  {
    if s[0] == c then 0
    else
      var k := FirstIndexOf(s[1..], c);
      assert s[..k + 1] == [s[0]] + s[1..][..k];
      k + 1
  }

  /** The pieces of `s` between the occurrences of `c`, empty pieces included. */
  function Pieces(s: string, c: char): (r: seq<string>)
    ensures |r| >= 1
    ensures forall i :: 0 <= i < |r| ==> c !in r[i]
    decreases |s|
  {
    if c !in s then [s]
    else
      var k := FirstIndexOf(s, c);
      [s[..k]] + Pieces(s[k + 1..], c)
  }

  /** Glues pieces together with `c` between them. */
  function Join(r: seq<string>, c: char): string
    requires |r| >= 1
  {
    if |r| == 1 then r[0] else r[0] + [c] + Join(r[1..], c)
  }

  /** Splitting at `c` and gluing back at `c` restores the string. */
  lemma {:induction false} JoinPieces(s: string, c: char)
    ensures Join(Pieces(s, c), c) == s
    decreases |s|
  {
    if c in s {
      var k := FirstIndexOf(s, c);
      var rest := Pieces(s[k + 1..], c);
      JoinPieces(s[k + 1..], c);
      var r := [s[..k]] + rest;
      assert Pieces(s, c) == r;
      assert r[1..] == rest;
      assert Join(r, c) == s[..k] + [c] + Join(rest, c);
      assert s == s[..k] + [c] + s[k + 1..];
    }
  }

  /** `String.split` with limit 0 drops the empty strings at the end of the result. */
  function DropTrailingEmpty(r: seq<string>): (t: seq<string>)
    ensures |t| <= |r| && t == r[..|t|]
    ensures t != [] ==> t[|t| - 1] != ""
    ensures forall i :: |t| <= i < |r| ==> r[i] == ""
  {
    if r == [] then []
    else if r[|r| - 1] == "" then DropTrailingEmpty(r[..|r| - 1])
    else r
  }

  /**
   * `s.split(sep)` for a one-character literal separator: the whole string when
   * the separator does not occur, otherwise the pieces between separators
   * without the trailing empty ones.
   */
  function Split(s: string, c: char): seq<string>
  {
    if c !in s then [s] else DropTrailingEmpty(Pieces(s, c))
  }

  /** Drops the empty strings from a sequence of pieces. */
  function NonEmpty(r: seq<string>): (t: seq<string>)
    ensures forall i :: 0 <= i < |t| ==> t[i] != "" && t[i] in r
    ensures forall p :: p in r && p != "" ==> p in t
  {
    if r == [] then []
    else if r[0] == "" then NonEmpty(r[1..])
    else [r[0]] + NonEmpty(r[1..])
  }

  /**
   * `s.split(" +")`: runs of spaces separate the tokens; a leading run leaves
   * an empty first token, trailing empty tokens are dropped.
   */
  function SplitSpaces(s: string): seq<string>
  {
    if ' ' !in s then [s]
    else
      var p := Pieces(s, ' ');
      DropTrailingEmpty([p[0]] + NonEmpty(p[1..]))
  }

  /** The occurrences of the separator starting at `i`. */
  predicate OccursAt(s: string, sep: string, i: nat)
  {
    i + |sep| <= |s| && forall j :: 0 <= j < |sep| ==> s[i + j] == sep[j]
  }

  /** `s.split(sep, 2)[0]`: everything before the first occurrence of `sep`, or all of `s`. */
  function BeforeFirst(s: string, sep: string): (r: string)
    requires |sep| > 0
    ensures |r| <= |s| && r == s[..|r|]
    ensures forall i :: 0 <= i < |r| ==> !OccursAt(s, sep, i)
    ensures |r| < |s| ==> OccursAt(s, sep, |r|)
    decreases |s|
  {
    if |s| < |sep| then s
    else if OccursAt(s, sep, 0) then ""
    else
      var t := BeforeFirst(s[1..], sep);
      var r := [s[0]] + t;
      assert forall i :: 1 <= i <= |s| ==> (OccursAt(s, sep, i) <==> OccursAt(s[1..], sep, i - 1)) by {
        forall i | 1 <= i <= |s| ensures OccursAt(s, sep, i) <==> OccursAt(s[1..], sep, i - 1) {
          assert forall j :: 0 <= j < |s| - 1 ==> s[1..][j] == s[j + 1];
        }
      }
      r
  }
}
