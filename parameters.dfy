/**
 * `checkParameters` of the modes.  The command line is read as key/value
 * pairs (every other argument is a key, its leading dashes cut off, and a
 * key without a value gets `""`), then each mode checks the values it needs.
 * The dialog, item and creature modes need an existing `folder` and a
 * `range` of the form `from-to`; the status image mode needs two existing
 * CSV files and an output path.
 *
 * `Paths.get` together with `Files.exists` is the set `existing` of path
 * strings that parse and name an existing file; `Paths.get` alone is the set
 * `parsable`.
 */
module Parameters {
  import opened JavaLang

  /** What `checkParameters` produces: the accepted pairs, `null` (the usage text is printed), or an exception. */
  datatype Checked = Accepted(params: map<string, string>) | Usage | Thrown

  /** `i` is the index of a key: every other argument, starting with the first. */
  predicate IsKeyIndex(args: seq<string>, i: int)
  {
    0 <= i < |args| && i % 2 == 0
  }

  /** `substring(prefix)` throws `StringIndexOutOfBoundsException` on a key shorter than the prefix. */
  ghost predicate KeysReadable(args: seq<string>, prefix: nat)
  {
    forall i :: IsKeyIndex(args, i) ==> prefix <= |args[i]|
  }

  /** The key at index `i` without its leading dashes. */
  function KeyAt(args: seq<string>, prefix: nat, i: int): string
    requires IsKeyIndex(args, i) && prefix <= |args[i]|
  {
    args[i][prefix..]
  }

  /** The value after the key at `i`, or `""` when the key is the last argument. */
  function ValueAt(args: seq<string>, i: int): string
    requires IsKeyIndex(args, i)
  {
    if i + 1 < |args| then args[i + 1] else ""
  }

  /** The first `c` pairs put into the `HashMap`, in argument order; `None` once a key is too short. */
  function PairsUpTo(args: seq<string>, prefix: nat, c: nat): Option<map<string, string>>
    requires 2 * c <= |args| + 1
  {
    if c == 0 then Some(map[])
    else
      match PairsUpTo(args, prefix, c - 1)
      case None => None
      case Some(m) =>
        var i := 2 * (c - 1);
        if |args[i]| < prefix then None else Some(m[args[i][prefix..] := ValueAt(args, i)])
  }

  /** All the pairs of the command line. */
  function Pairs(args: seq<string>, prefix: nat): Option<map<string, string>>
  {
    PairsUpTo(args, prefix, (|args| + 1) / 2)
  }

  /** The key at `i` is not given again further on, so its value is the one the map keeps. */
  ghost predicate LastOccurrence(args: seq<string>, prefix: nat, i: int)
    requires KeysReadable(args, prefix) && IsKeyIndex(args, i)
  {
    forall j :: IsKeyIndex(args, j) && i < j ==> KeyAt(args, prefix, j) != KeyAt(args, prefix, i)
  }

  /**
   * The pairing, stated without the loop: it throws exactly when some key is
   * too short; otherwise the map holds exactly the given keys, and each with
   * the value given at its last occurrence.
   */
  lemma PairsMeaning(args: seq<string>, prefix: nat)
    ensures Pairs(args, prefix).None? <==> !KeysReadable(args, prefix)
    ensures Pairs(args, prefix).Some? ==>
      forall k :: k in Pairs(args, prefix).value <==> exists i :: IsKeyIndex(args, i) && KeyAt(args, prefix, i) == k
    ensures Pairs(args, prefix).Some? ==>
      forall i :: IsKeyIndex(args, i) && LastOccurrence(args, prefix, i) ==>
        Pairs(args, prefix).value[KeyAt(args, prefix, i)] == ValueAt(args, i)
  {
    var n := (|args| + 1) / 2;
    PairsUpToMeaning(args, prefix, n);
    assert forall i :: IsKeyIndex(args, i) ==> i < 2 * n;
    if Pairs(args, prefix).Some? {
      var m := Pairs(args, prefix).value;
      forall i | IsKeyIndex(args, i) && LastOccurrence(args, prefix, i)
        ensures m[KeyAt(args, prefix, i)] == ValueAt(args, i)
      {
        assert forall j :: IsKeyIndex(args, j) && i < j && j < 2 * n ==> KeyAt(args, prefix, j) != KeyAt(args, prefix, i);
      }
    }
  }

  /** The keys of the first `c` pairs are all long enough. */
  ghost predicate ReadableUpTo(args: seq<string>, prefix: nat, c: nat)
  {
    forall i :: IsKeyIndex(args, i) && i < 2 * c ==> prefix <= |args[i]|
  }

  /** No key among the first `c` pairs repeats the key at `i` after it. */
  ghost predicate LastBefore(args: seq<string>, prefix: nat, i: int, c: nat)
    requires ReadableUpTo(args, prefix, c) && IsKeyIndex(args, i) && i < 2 * c
  {
    forall j :: IsKeyIndex(args, j) && i < j < 2 * c ==> KeyAt(args, prefix, j) != KeyAt(args, prefix, i)
  }

  lemma PairsUpToMeaning(args: seq<string>, prefix: nat, c: nat)
    requires 2 * c <= |args| + 1
    ensures PairsUpTo(args, prefix, c).None? <==> !ReadableUpTo(args, prefix, c)
    ensures PairsUpTo(args, prefix, c).Some? ==>
      forall k :: k in PairsUpTo(args, prefix, c).value <==>
        exists i :: IsKeyIndex(args, i) && i < 2 * c && KeyAt(args, prefix, i) == k
    ensures PairsUpTo(args, prefix, c).Some? ==>
      forall i :: IsKeyIndex(args, i) && i < 2 * c && LastBefore(args, prefix, i, c) ==>
        PairsUpTo(args, prefix, c).value[KeyAt(args, prefix, i)] == ValueAt(args, i)
  {
    PairsUpToNone(args, prefix, c);
    if PairsUpTo(args, prefix, c).Some? {
      PairsUpToKeys(args, prefix, c);
      PairsUpToValues(args, prefix, c);
    }
  }

  /** The first `c` pairs throw exactly when one of their keys is too short. */
  lemma {:induction false} PairsUpToNone(args: seq<string>, prefix: nat, c: nat)
    requires 2 * c <= |args| + 1
    ensures PairsUpTo(args, prefix, c).None? <==> !ReadableUpTo(args, prefix, c)
  {
    if c > 0 {
      PairsUpToNone(args, prefix, c - 1);
      assert IsKeyIndex(args, 2 * (c - 1));
    }
  }

  /** The keys of the first `c` pairs are the keys of the map. */
  lemma {:induction false} PairsUpToKeys(args: seq<string>, prefix: nat, c: nat)
    requires 2 * c <= |args| + 1 && ReadableUpTo(args, prefix, c) && PairsUpTo(args, prefix, c).Some?
    ensures forall k :: k in PairsUpTo(args, prefix, c).value <==>
      exists i :: IsKeyIndex(args, i) && i < 2 * c && KeyAt(args, prefix, i) == k
  {
    if c > 0 {
      PairsUpToKeys(args, prefix, c - 1);
      var i := 2 * (c - 1);
      assert IsKeyIndex(args, i);
      var m := PairsUpTo(args, prefix, c - 1).value;
      var r := PairsUpTo(args, prefix, c).value;
      assert r == m[KeyAt(args, prefix, i) := ValueAt(args, i)];
      forall k ensures k in r <==> exists j :: IsKeyIndex(args, j) && j < 2 * c && KeyAt(args, prefix, j) == k {
        if k == KeyAt(args, prefix, i) {
          assert k in r;
        }
      }
    }
  }

  /** Among the first `c` pairs, the last one with a key decides its value. */
  lemma {:induction false} PairsUpToValues(args: seq<string>, prefix: nat, c: nat)
    requires 2 * c <= |args| + 1 && ReadableUpTo(args, prefix, c) && PairsUpTo(args, prefix, c).Some?
    ensures forall i :: IsKeyIndex(args, i) && i < 2 * c && LastBefore(args, prefix, i, c) ==>
      KeyAt(args, prefix, i) in PairsUpTo(args, prefix, c).value &&
      PairsUpTo(args, prefix, c).value[KeyAt(args, prefix, i)] == ValueAt(args, i)
  {
    if c > 0 {
      PairsUpToValues(args, prefix, c - 1);
      var i := 2 * (c - 1);
      assert IsKeyIndex(args, i);
      var m := PairsUpTo(args, prefix, c - 1).value;
      var r := PairsUpTo(args, prefix, c).value;
      assert r == m[KeyAt(args, prefix, i) := ValueAt(args, i)];
      forall j | IsKeyIndex(args, j) && j < 2 * c && LastBefore(args, prefix, j, c)
        ensures KeyAt(args, prefix, j) in r && r[KeyAt(args, prefix, j)] == ValueAt(args, j)
      {
        if j != i {
          assert KeyAt(args, prefix, i) != KeyAt(args, prefix, j);
          assert LastBefore(args, prefix, j, c - 1);
        }
      }
    }
  }

  /** The pairing loop of `checkParameters`. */
  method ReadPairs(args: seq<string>, prefix: nat) returns (r: Option<map<string, string>>)
    ensures r == Pairs(args, prefix)
  {
    var result: map<string, string> := map[];
    var i := 0;
    while i < |args|
      invariant 0 <= i <= |args| + 1 && i % 2 == 0
      invariant PairsUpTo(args, prefix, i / 2) == Some(result)
    {
      if |args[i]| < prefix {
        assert PairsUpTo(args, prefix, i / 2 + 1) == None;
        NoneStaysNone(args, prefix, i / 2 + 1, (|args| + 1) / 2);
        return None;
      }
      var value := if i + 1 < |args| then args[i + 1] else "";
      result := result[args[i][prefix..] := value];
      i := i + 2;
    }
    assert i / 2 == (|args| + 1) / 2;
    r := Some(result);
  }

  /** Once a key has thrown, the later pairs are never read. */
  lemma {:induction false} NoneStaysNone(args: seq<string>, prefix: nat, c: nat, d: nat)
    requires c <= d && 2 * d <= |args| + 1
    requires PairsUpTo(args, prefix, c) == None
    ensures PairsUpTo(args, prefix, d) == None
    decreases d - c
  {
    if c < d {
      NoneStaysNone(args, prefix, c + 1, d);
    }
  }

  // ---------------------------------------------------------------- range

  /**
   * The range check: `range.split("-")` gives exactly two pieces, both
   * `Integer.valueOf` accepts, and the first is not above the second.
   */
  function RangeOf(range: string): (r: Option<(int, int)>)
    ensures r.Some? ==> r.value.0 <= r.value.1
    ensures r.Some? ==> exists a, b :: Split(range, '-') == [a, b] && ParseInt(a) == Some(r.value.0) && ParseInt(b) == Some(r.value.1)
  {
    var numbers := Split(range, '-');
    if |numbers| != 2 then None
    else
      match (ParseInt(numbers[0]), ParseInt(numbers[1]))
      case (Some(from), Some(to)) =>
        assert numbers == [numbers[0], numbers[1]];
        if from > to then None else Some((from, to))
      case _ => None
  }

  /** `checkParameters` of the dialog, item and creature modes, for the key prefix `-` (1) or `--` (2). */
  function RangeParameters(args: seq<string>, prefix: nat, existing: set<string>): Checked
  {
    match Pairs(args, prefix)
    case None => Thrown
    case Some(m) =>
      if "folder" !in m || m["folder"] == "" || m["folder"] !in existing then Usage
      else if "range" !in m || m["range"] == "" || RangeOf(m["range"]).None? then Usage
      else Accepted(m)
  }

  /** `checkParameters` with its pairing loop. */
  method CheckRangeParameters(args: seq<string>, prefix: nat, existing: set<string>) returns (r: Checked)
    ensures r == RangeParameters(args, prefix, existing)
  {
    var pairs := ReadPairs(args, prefix);
    if pairs.None? {
      return Thrown;
    }
    var m := pairs.value;
    if "folder" !in m || m["folder"] == "" || m["folder"] !in existing {
      return Usage;
    }
    if "range" !in m || m["range"] == "" {
      return Usage;
    }
    var numbers := Split(m["range"], '-');
    if |numbers| != 2 {
      return Usage;
    }
    var from := ParseInt(numbers[0]);
    var to := ParseInt(numbers[1]);
    if from.None? || to.None? || from.value > to.value {
      return Usage;
    }
    r := Accepted(m);
  }

  /** What an accepted command line guarantees: an existing folder and a range of two ordered `int`s. */
  lemma AcceptedRange(args: seq<string>, prefix: nat, existing: set<string>)
    requires RangeParameters(args, prefix, existing).Accepted?
    ensures var m := RangeParameters(args, prefix, existing).params;
      "folder" in m && m["folder"] in existing && m["folder"] != "" &&
      "range" in m && RangeOf(m["range"]).Some? &&
      IsInt32(RangeOf(m["range"]).value.0) && IsInt32(RangeOf(m["range"]).value.1)
    ensures KeysReadable(args, prefix)
  {
    PairsMeaning(args, prefix);
  }

  /** A key of one character cannot lose the two dashes of `--`: the whole call throws. */
  lemma ShortKeyThrows(existing: set<string>)
    ensures RangeParameters(["-folder", "d", "-", "1-2"], 2, existing) == Thrown
  {
    PairsMeaning(["-folder", "d", "-", "1-2"], 2);
    assert IsKeyIndex(["-folder", "d", "-", "1-2"], 2);
  }

  /** A trailing key gets the empty value, so a trailing `-range` is refused. */
  lemma MissingValueIsEmpty(existing: set<string>)
    requires "d" in existing
    ensures Pairs(["-folder", "d", "-range"], 1) == Some(map["folder" := "d", "range" := ""])
    ensures RangeParameters(["-folder", "d", "-range"], 1, existing) == Usage
  {
    assert "-folder"[1..] == "folder";
    assert "-range"[1..] == "range";
  }

  // ------------------------------------------------------- invoke's regex

  /**
   * `^(\d+)-(\d+)$` as `invoke` applies it to the accepted range: the two
   * groups when it matches, `None` when it does not, after which `group(1)`
   * throws `IllegalStateException`.
   */
  function RangeMatch(range: string): (r: Option<(string, string)>)
    ensures r.Some? ==> IsDigits(r.value.0) && IsDigits(r.value.1) && range == r.value.0 + "-" + r.value.1
  {
    var p := Pieces(range, '-');
    if |p| == 2 && IsDigits(p[0]) && IsDigits(p[1]) then
      JoinPieces(range, '-');
      assert Join(p, '-') == p[0] + ['-'] + Join(p[1..], '-');
      Some((p[0], p[1]))
    else None
  }

  /** The match succeeds on every `digits-digits` string. */
  lemma RangeMatchComplete(a: string, b: string)
    requires IsDigits(a) && IsDigits(b)
    ensures RangeMatch(a + "-" + b) == Some((a, b))
  {
    var s := a + "-" + b;
    assert '-' !in a by {
      forall i | 0 <= i < |a| ensures a[i] != '-' { assert IsDigit(a[i]); }
    }
    assert '-' !in b by {
      forall i | 0 <= i < |b| ensures b[i] != '-' { assert IsDigit(b[i]); }
    }
    assert s[|a|] == '-';
    assert '-' in s;
    var k := FirstIndexOf(s, '-');
    assert k == |a|;
    assert s[..k] == a;
    assert s[k + 1..] == b;
    assert Pieces(s, '-') == [a] + Pieces(b, '-');
  }

  /** The range `invoke` reads: the two groups through `Integer.valueOf`, or `None` where it throws. */
  function InvokeRange(range: string): Option<(int, int)>
  {
    match RangeMatch(range)
    case None => None
    case Some((a, b)) =>
      match (ParseInt(a), ParseInt(b))
      case (Some(from), Some(to)) => Some((from, to))
      case _ => None
  }

  /**
   * `checkParameters` accepts a range `Integer.valueOf` reads but the regular
   * expression of `invoke` refuses: a sign, or a trailing `-` that
   * `String.split` drops.  `invoke` then throws.
   */
  lemma SignedRangeSlipsThrough(existing: set<string>)
    requires "d" in existing
    ensures RangeParameters(["-folder", "d", "-range", "+1-2"], 1, existing).Accepted?
    ensures RangeParameters(["-folder", "d", "-range", "1-2-"], 1, existing).Accepted?
    ensures InvokeRange("+1-2") == None && InvokeRange("1-2-") == None
  {
    SignedPieces();
    TrailingDashPieces();
    FolderAndRange("+1-2", existing);
    FolderAndRange("1-2-", existing);
  }

  /** `-folder d -range <range>` is accepted when the folder exists and the range passes the check. */
  lemma FolderAndRange(range: string, existing: set<string>)
    requires "d" in existing && range != "" && RangeOf(range).Some?
    ensures RangeParameters(["-folder", "d", "-range", range], 1, existing).Accepted?
  {
    assert "-folder"[1..] == "folder";
    assert "-range"[1..] == "range";
    var m := map["folder" := "d", "range" := range];
    assert PairsUpTo(["-folder", "d", "-range", range], 1, 1) == Some(map["folder" := "d"]);
    assert Pairs(["-folder", "d", "-range", range], 1) == Some(m);
    assert m["folder"] == "d" && m["range"] == range;
  }

  lemma SignedPieces()
    ensures Pieces("+1-2", '-') == ["+1", "2"] && Split("+1-2", '-') == ["+1", "2"]
    ensures RangeOf("+1-2") == Some((1, 2)) && RangeMatch("+1-2") == None
  {
    assert "+1-2"[2] == '-';
    assert FirstIndexOf("+1-2", '-') == 2;
    assert "+1-2"[..2] == "+1" && "+1-2"[3..] == "2";
    assert "+1"[1..] == "1";
    SmallDigits();
    assert !IsDigits("+1");
  }

  lemma TrailingDashPieces()
    ensures Pieces("1-2-", '-') == ["1", "2", ""] && Split("1-2-", '-') == ["1", "2"]
    ensures RangeOf("1-2-") == Some((1, 2)) && RangeMatch("1-2-") == None
  {
    assert "1-2-"[1] == '-';
    assert FirstIndexOf("1-2-", '-') == 1;
    assert "1-2-"[..1] == "1" && "1-2-"[2..] == "2-";
    assert "2-"[1] == '-';
    assert FirstIndexOf("2-", '-') == 1;
    assert "2-"[..1] == "2" && "2-"[2..] == "";
    assert Pieces("2-", '-') == ["2", ""];
    assert DropTrailingEmpty(["1", "2", ""]) == ["1", "2"];
    SmallDigits();
  }

  lemma SmallDigits()
    ensures ParseInt("1") == Some(1) && ParseInt("2") == Some(2) && ParseInt("+1") == Some(1)
  {
    assert DigitsValue("1") == DigitsValue("") * 10 + 1;
    assert DigitsValue("2") == DigitsValue("") * 10 + 2;
    assert "+1"[1..] == "1";
  }

  /**
   * The range check `invoke` evidently relies on: both pieces are runs of
   * digits, which is what the regular expression matches.
   */
  function DigitRangeOf(range: string): (r: Option<(int, int)>)
    ensures r.Some? ==> r.value.0 <= r.value.1
  {
    var p := Pieces(range, '-');
    if |p| != 2 || !IsDigits(p[0]) || !IsDigits(p[1]) then None
    else
      match (ParseInt(p[0]), ParseInt(p[1]))
      case (Some(from), Some(to)) => if from > to then None else Some((from, to))
      case _ => None
  }

  /** `checkParameters` with the digit-only range check. */
  function DigitRangeParameters(args: seq<string>, prefix: nat, existing: set<string>): Checked
  {
    match Pairs(args, prefix)
    case None => Thrown
    case Some(m) =>
      if "folder" !in m || m["folder"] == "" || m["folder"] !in existing then Usage
      else if "range" !in m || m["range"] == "" || DigitRangeOf(m["range"]).None? then Usage
      else Accepted(m)
  }

  /** With the digit-only check, `invoke` reads back exactly the range that was checked. */
  lemma DigitRangeReadsBack(args: seq<string>, prefix: nat, existing: set<string>)
    requires DigitRangeParameters(args, prefix, existing).Accepted?
    ensures var m := DigitRangeParameters(args, prefix, existing).params;
      "range" in m && InvokeRange(m["range"]) == DigitRangeOf(m["range"]) && InvokeRange(m["range"]).Some?
  {
    var m := DigitRangeParameters(args, prefix, existing).params;
    var range := m["range"];
    var p := Pieces(range, '-');
    assert RangeMatch(range) == Some((p[0], p[1]));
  }

  /** Every command line the digit-only check accepts, the original check accepts too. */
  lemma DigitRangeNarrows(range: string)
    requires DigitRangeOf(range).Some?
    ensures RangeOf(range) == DigitRangeOf(range)
  {
    var p := Pieces(range, '-');
    assert '-' in range by {
      JoinPieces(range, '-');
      assert Join(p, '-') == p[0] + ['-'] + Join(p[1..], '-');
      assert range[|p[0]|] == '-';
    }
    assert p[1] != "";
    assert DropTrailingEmpty(p) == p;
  }

  // ------------------------------------------------------- status image

  /** `checkParameters` of the status image mode: existing `ccsv` and `ocsv` files and a parsable `out` path. */
  function ImageParameters(args: seq<string>, existing: set<string>, parsable: set<string>): (r: Checked)
    ensures r.Accepted? ==> forall k :: k in {"ccsv", "ocsv", "out"} ==> k in r.params && r.params[k] != ""
  {
    match Pairs(args, 1)
    case None => Thrown
    case Some(m) =>
      if "ccsv" !in m || m["ccsv"] == "" || m["ccsv"] !in existing then Usage
      else if "ocsv" !in m || m["ocsv"] == "" || m["ocsv"] !in existing then Usage
      else if "out" !in m || m["out"] == "" || m["out"] !in parsable then Usage
      else Accepted(m)
  }

  /** The status image mode's `checkParameters` with its pairing loop. */
  method CheckImageParameters(args: seq<string>, existing: set<string>, parsable: set<string>) returns (r: Checked)
    ensures r == ImageParameters(args, existing, parsable)
  {
    var pairs := ReadPairs(args, 1);
    if pairs.None? {
      return Thrown;
    }
    var m := pairs.value;
    if "ccsv" !in m || m["ccsv"] == "" || m["ccsv"] !in existing {
      return Usage;
    }
    if "ocsv" !in m || m["ocsv"] == "" || m["ocsv"] !in existing {
      return Usage;
    }
    if "out" !in m || m["out"] == "" || m["out"] !in parsable {
      return Usage;
    }
    r := Accepted(m);
  }

  /** An accepted status image command line names two existing files and a parsable output path. */
  lemma AcceptedImage(args: seq<string>, existing: set<string>, parsable: set<string>)
    requires ImageParameters(args, existing, parsable).Accepted?
    ensures var m := ImageParameters(args, existing, parsable).params;
      m["ccsv"] in existing && m["ocsv"] in existing && m["out"] in parsable
    ensures KeysReadable(args, 1)
  {
    PairsMeaning(args, 1);
  }
}
