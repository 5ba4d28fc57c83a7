/**
 * `creature.Creature` and the pure parts of `creature.Mode` /
 * `dialog.creature.CreatureMode`: the short and long name of a CRE file and
 * its 100 pertaining string IDs, kept as a set, the range tests, the order
 * of creatures, the reading of the IDs from the file's bytes, the chop to
 * the range and the lines of the TXT and CSV reports.
 */
module Creatures {
  import opened JavaLang
  import opened Collections
  import opened LittleEndian
  import opened IdCompare
  import opened Reports

  datatype Creature = Creature(fileName: string, shortName: int, longName: int, pertaining: set<int>)

  /** The number of pertaining string IDs a CRE file holds. */
  const PERTAINING_COUNT: nat := 100

  /** `new Creature(...)`: the pertaining IDs go into a set, so repeats and order are lost. */
  function NewCreature(fileName: string, shortName: int, longName: int, pertaining: seq<int>): (c: Creature)
    ensures c.fileName == fileName && c.shortName == shortName && c.longName == longName
    ensures forall x :: x in c.pertaining <==> x in pertaining
  {
    Creature(fileName, shortName, longName, set x | x in pertaining)
  }

  /** Every ID of the creature: what `compareTo` puts into its `TreeSet`. */
  function AllIds(c: Creature): set<int>
  {
    {c.shortName, c.longName} + c.pertaining
  }

  /** `getPertainingStringsinRange`. */
  function PertainingInRange(c: Creature, lo: int, hi: int): (r: set<int>)
    ensures forall x :: x in r <==> x in c.pertaining && InRange(x, lo, hi)
  {
    set x | x in c.pertaining && InRange(x, lo, hi)
  }

  /** `isPertainingStringsInRange`: the `for` loop over the set that returns at the first ID in the range. */
  method IsPertainingInRange(c: Creature, lo: int, hi: int) returns (r: bool)
    ensures r <==> PertainingInRange(c, lo, hi) != {}
  {
    var todo := c.pertaining;
    while todo != {}
      invariant todo <= c.pertaining
      invariant forall x :: x in c.pertaining && x !in todo ==> !InRange(x, lo, hi)
      decreases |todo|
    {
      NonEmptyHasElement(todo);
      var p :| p in todo;
      if InRange(p, lo, hi) {
        assert p in PertainingInRange(c, lo, hi);
        return true;
      }
      todo := todo - {p};
    }
    assert forall x :: x in PertainingInRange(c, lo, hi) ==> false;
    return false;
  }

  /** `isInRange`: the short name, the long name or a pertaining ID is in the range. */
  method IsInRange(c: Creature, lo: int, hi: int) returns (r: bool)
    ensures r <==> exists x :: x in AllIds(c) && InRange(x, lo, hi)
  {
    if InRange(c.shortName, lo, hi) {
      return true;
    }
    if InRange(c.longName, lo, hi) {
      return true;
    }
    r := IsPertainingInRange(c, lo, hi);
    if r {
      var x :| x in PertainingInRange(c, lo, hi);
      assert x in AllIds(c);
    }
  }

  /** The range test `chopCreaturesToRange` keeps a creature by. */
  ghost predicate Pertains(c: Creature, lo: int, hi: int)
  {
    exists x :: x in AllIds(c) && InRange(x, lo, hi)
  }

  /** `chopCreaturesToRange`: `removeIf` of every creature without an ID in the range; the others keep their order. */
  method ChopCreaturesToRange(creatures: seq<Creature>, lo: int, hi: int) returns (r: seq<Creature>)
    ensures forall c :: c in r <==> c in creatures && Pertains(c, lo, hi)
    ensures forall c :: multiset(r)[c] == if Pertains(c, lo, hi) then multiset(creatures)[c] else 0
    ensures Subsequence(r, creatures)
    ensures |r| <= |creatures|
  {
    r := [];
    var i := 0;
    while i < |creatures|
      invariant 0 <= i <= |creatures| && |r| <= i
      invariant forall c :: c in r <==> c in creatures[..i] && Pertains(c, lo, hi)
      invariant forall c :: multiset(r)[c] == if Pertains(c, lo, hi) then multiset(creatures[..i])[c] else 0
      invariant Subsequence(r, creatures[..i])
    {
      var keep := IsInRange(creatures[i], lo, hi);
      assert creatures[..i + 1] == creatures[..i] + [creatures[i]];
      SubsequenceSnoc(r, creatures[..i], creatures[i]);
      if keep {
        r := r + [creatures[i]];
      }
      i := i + 1;
    }
    assert creatures[..i] == creatures;
  }

  /** `compareTo`: the ID sets compared in step, then the file names. */
  method CompareTo(a: Creature, b: Creature) returns (c: int)
    ensures c == CompareSorted(SortedSeq(AllIds(a)), SortedSeq(AllIds(b)), a.fileName, b.fileName)
  {
    c := CompareIdSets(AllIds(a), AllIds(b), a.fileName, b.fileName);
  }

  /** The pertaining ID at position `i` of a CRE file: the `int` at byte 164 + 4i. */
  function PertainingAt(content: seq<byte>, i: nat): (v: int)
    requires i < PERTAINING_COUNT && |content| >= 564
  {
    GetInt(content, 164 + 4 * i)
  }

  /** The 408 bytes `parseCreature` copies out of a CRE file: the two names, then the 100 pertaining IDs. */
  function CreatureBytes(content: seq<byte>): (b: seq<byte>)
    requires |content| >= 564
    ensures |b| == 408
  {
    content[8..16] + content[164..564]
  }

  /** The buffer's `int`s are the file's: at 0 and 4 the names, at 8 + 4i the pertaining ID i. */
  lemma CreatureBytesAt(content: seq<byte>, i: nat)
    requires |content| >= 564 && i < PERTAINING_COUNT
    ensures GetInt(CreatureBytes(content), 0) == GetInt(content, 8)
    ensures GetInt(CreatureBytes(content), 4) == GetInt(content, 12)
    ensures GetInt(CreatureBytes(content), 8 + 4 * i) == PertainingAt(content, i)
  {
    var b := CreatureBytes(content);
    var j := 8 + 4 * i;
    assert b[j] == content[156 + j] && b[j + 1] == content[157 + j];
    assert b[j + 2] == content[158 + j] && b[j + 3] == content[159 + j];
  }

  /** The `put` calls of `parseCreature`: two names, then a loop over the 100 pertaining IDs. */
  method FillBuffer(content: seq<byte>) returns (buffer: array<byte>)
    requires |content| >= 564
    ensures fresh(buffer) && buffer[..] == CreatureBytes(content)
  {
    buffer := new byte[408];
    buffer[0], buffer[1], buffer[2], buffer[3] := content[8], content[9], content[10], content[11];
    buffer[4], buffer[5], buffer[6], buffer[7] := content[12], content[13], content[14], content[15];
    CopyPertaining(content, buffer);
    assert forall j :: 0 <= j < 408 ==> buffer[..][j] == CreatureBytes(content)[j];
  }

  /** The loop of `put` calls for the 100 pertaining IDs: bytes 164 to 564 go to 8 to 408. */
  method CopyPertaining(content: seq<byte>, buffer: array<byte>)
    requires |content| >= 564 && buffer.Length == 408
    modifies buffer
    ensures forall j :: 0 <= j < 8 ==> buffer[j] == old(buffer[j])
    ensures forall j :: 8 <= j < 408 ==> buffer[j] == content[156 + j]
  {
    var i := 0;
    while i < 100
      invariant 0 <= i <= 100
      invariant forall j :: 0 <= j < 8 ==> buffer[j] == old(buffer[j])
      invariant forall j :: 8 <= j < 8 + 4 * i ==> buffer[j] == content[156 + j]
    {
      var from := 164 + 4 * i;
      var to := 8 + 4 * i;
      buffer[to], buffer[to + 1], buffer[to + 2], buffer[to + 3] := content[from], content[from + 1], content[from + 2], content[from + 3];
      i := i + 1;
    }
  }

  /** The `getInt` loop of `parseCreature` filling the 100-element `pertainingStrings` array. */
  method ReadPertaining(content: seq<byte>, bytes: seq<byte>) returns (pertaining: array<int>)
    requires |content| >= 564 && bytes == CreatureBytes(content)
    ensures fresh(pertaining) && pertaining.Length == PERTAINING_COUNT
    ensures forall k :: 0 <= k < PERTAINING_COUNT ==> pertaining[k] == PertainingAt(content, k)
  {
    pertaining := new int[100];
    var i := 0;
    while i < 100
      invariant 0 <= i <= 100
      invariant forall k :: 0 <= k < i ==> pertaining[k] == PertainingAt(content, k)
    {
      CreatureBytesAt(content, i);
      pertaining[i] := GetInt(bytes, 8 + i * 4);
      i := i + 1;
    }
  }

  /**
   * `parseCreature`: the `int`s at bytes 8 and 12 and the 100 at bytes 164,
   * 168, ..., 560, copied one after the other into a 408-byte buffer and read
   * back with `getInt`.  A file shorter than 564 bytes makes
   * `ByteBuffer.put` throw.
   */
  method ParseCreature(fileName: string, content: seq<byte>) returns (r: Option<Creature>)
    ensures r.Some? <==> |content| >= 564
    ensures r.Some? ==> (r.value.fileName == fileName &&
      r.value.shortName == GetInt(content, 8) && r.value.longName == GetInt(content, 12) &&
      forall x :: x in r.value.pertaining <==> exists i :: 0 <= i < PERTAINING_COUNT && x == PertainingAt(content, i))
    ensures r.Some? ==> r.value == CreatureOf(fileName, content)
  {
    if |content| < 564 {
      return None;
    }
    var buffer := FillBuffer(content);
    var bytes := buffer[..];
    CreatureBytesAt(content, 0);
    var shortName := GetInt(bytes, 0);
    var longName := GetInt(bytes, 4);
    var pertaining := ReadPertaining(content, bytes);
    var c := NewCreature(fileName, shortName, longName, pertaining[..]);
    forall x | x in pertaining[..]
      ensures exists k :: 0 <= k < PERTAINING_COUNT && x == PertainingAt(content, k)
    {
      var k :| 0 <= k < 100 && pertaining[k] == x;
    }
    forall k | 0 <= k < PERTAINING_COUNT
      ensures PertainingAt(content, k) in pertaining[..]
    {
      assert pertaining[..][k] == pertaining[k];
    }
    assert c == CreatureOf(fileName, content);
    return Some(c);
  }

  /** The creature a CRE file of at least 564 bytes holds. */
  function CreatureOf(fileName: string, content: seq<byte>): (c: Creature)
    requires |content| >= 564
    ensures c.fileName == fileName && c.shortName == GetInt(content, 8) && c.longName == GetInt(content, 12)
    ensures forall x :: x in c.pertaining <==> exists i :: 0 <= i < PERTAINING_COUNT && x == PertainingAt(content, i)
  {
    Creature(fileName, GetInt(content, 8), GetInt(content, 12), set i | 0 <= i < PERTAINING_COUNT :: PertainingAt(content, i))
  }

  /** What `compareTo` looks at: the set of all IDs and the file name. */
  function CreatureKey(c: Creature): Key
  {
    Key(AllIds(c), c.fileName)
  }

  /** `compareTo` of two creatures, as the `TreeSet` of creatures uses it. */
  function CompareCreatures(a: Creature, b: Creature): int
  {
    Compare(CreatureKey(a), CreatureKey(b))
  }

  /** `parseCreature` on each file in turn; `None` when one of them throws. */
  function ParsedCreatures(files: seq<(string, seq<byte>)>): (r: Option<seq<Creature>>)
    ensures r.Some? <==> forall k :: 0 <= k < |files| ==> |files[k].1| >= 564
    ensures r.Some? ==> (|r.value| == |files| &&
      forall k :: 0 <= k < |files| ==> |files[k].1| >= 564 && r.value[k] == CreatureOf(files[k].0, files[k].1))
    decreases |files|
  {
    if files == [] then Some([])
    else
      var n := |files| - 1;
      var front := ParsedCreatures(files[..n]);
      assert forall k :: 0 <= k < n ==> files[..n][k] == files[k];
      if front.None? || |files[n].1| < 564 then None
      else Some(front.value + [CreatureOf(files[n].0, files[n].1)])
  }

  /**
   * `parseCreatures`: each file, in the order given (the listing sorted by
   * path), parsed and added to a `TreeSet` ordered by `compareTo`.  The
   * first file too short for `parseCreature` ends the run.
   */
  method ParseCreatures(files: seq<(string, seq<byte>)>) returns (r: Option<seq<Creature>>)
    ensures r.Some? <==> ParsedCreatures(files).Some?
    ensures r.Some? ==> r.value == CollectByKey(ParsedCreatures(files).value, CompareCreatures)
  {
    var result: seq<Creature> := [];
    var k := 0;
    while k < |files|
      invariant 0 <= k <= |files|
      invariant ParsedCreatures(files[..k]).Some?
      invariant result == CollectByKey(ParsedCreatures(files[..k]).value, CompareCreatures)
    {
      var c := ParseCreature(files[k].0, files[k].1);
      if c.None? {
        return None;
      }
      var before := ParsedCreatures(files[..k]).value;
      assert files[..k + 1][..k] == files[..k];
      assert ParsedCreatures(files[..k + 1]).value == before + [c.value];
      assert (before + [c.value])[..|before|] == before;
      result := InsertByKey(result, c.value, CompareCreatures);
      k := k + 1;
    }
    assert files[..k] == files;
    return Some(result);
  }

  /**
   * Where no ID subtraction overflows, the `TreeSet` of creatures is in
   * `compareTo` order, holds for every creature parsed one with the same ID
   * set and file name, and holds only creatures parsed first with their ID
   * set and file name.
   */
  lemma CreatureSetMeaning(creatures: seq<Creature>)
    requires Comparable(creatures, CreatureKey)
    ensures var r := CollectByKey(creatures, CompareCreatures);
      Ordered(r, CompareCreatures) &&
      (forall a :: a in creatures ==> exists y :: y in r && CreatureKey(y) == CreatureKey(a)) &&
      forall y :: y in r ==> exists i :: (0 <= i < |creatures| && creatures[i] == y &&
        forall j :: 0 <= j < i ==> CreatureKey(creatures[j]) != CreatureKey(y))
  {
    KeyedTotal(creatures, CreatureKey, CompareCreatures);
    CollectByKeyMeaning(creatures, CompareCreatures);
    KeyedMeaning(creatures, CreatureKey, CompareCreatures, CollectByKey(creatures, CompareCreatures));
  }

  /** The in-range pertaining IDs in the order the reports write them (a `HashSet` of `Integer`s: ascending here). */
  function PertainingLines(c: Creature, lo: int, hi: int): seq<string>
  {
    Decimal(SortedSeq(PertainingInRange(c, lo, hi)))
  }

  /**
   * The TXT report's lines for one creature: the short and the long name if
   * in range, the in-range pertaining IDs, then an empty line.
   */
  function TxtBlock(c: Creature, lo: int, hi: int): seq<string>
  {
    Decimal(InRangeOf([c.shortName, c.longName], lo, hi)) + PertainingLines(c, lo, hi) + [""]
  }

  /** The lines of a block before its empty last line read back as exactly the creature's in-range IDs. */
  lemma TxtBlockReadsBack(c: Creature, lo: int, hi: int)
    requires forall x :: x in AllIds(c) ==> IsInt32(x)
    ensures var lines := TxtBlock(c, lo, hi);
      var ids := InRangeOf([c.shortName, c.longName], lo, hi) + SortedSeq(PertainingInRange(c, lo, hi));
      |lines| == |ids| + 1 && lines[|ids|] == "" &&
      (forall i :: 0 <= i < |ids| ==> ParseInt(lines[i]) == Some(ids[i])) &&
      forall x :: x in ids <==> x in AllIds(c) && InRange(x, lo, hi) && (x in c.pertaining || x == c.shortName || x == c.longName)
  {
    var names := InRangeOf([c.shortName, c.longName], lo, hi);
    var per := SortedSeq(PertainingInRange(c, lo, hi));
    var ids := names + per;
    forall i | 0 <= i < |ids|
      ensures IsInt32(ids[i])
    {
      assert ids[i] in names || ids[i] in per;
    }
    DecimalReadsBack(ids);
    DecimalConcat(names, per);
    assert TxtBlock(c, lo, hi) == Decimal(ids) + [""];
    BlockIdsMeaning(c, lo, hi);
  }

  lemma BlockIdsMeaning(c: Creature, lo: int, hi: int)
    ensures var ids := InRangeOf([c.shortName, c.longName], lo, hi) + SortedSeq(PertainingInRange(c, lo, hi));
      forall x :: x in ids <==> x in AllIds(c) && InRange(x, lo, hi) && (x in c.pertaining || x == c.shortName || x == c.longName)
  {
    var names := InRangeOf([c.shortName, c.longName], lo, hi);
    assert forall x :: x in names <==> (x == c.shortName || x == c.longName) && InRange(x, lo, hi);
  }

  lemma {:induction false} DecimalConcat(s: seq<int>, t: seq<int>)
    ensures Decimal(s + t) == Decimal(s) + Decimal(t)
  {
    if s != [] {
      assert (s + t)[1..] == s[1..] + t;
      DecimalConcat(s[1..], t);
    } else {
      assert s + t == t;
    }
  }

  /** The three header lines of the CSV report. */
  function CsvHeader(lo: int, hi: int): seq<string>
  {
    [ QuotedRow(["The file can include string IDs out of the user-defined string range " + IntToString(lo) + "-" + IntToString(hi)]),
      QuotedRow([""]),
      QuotedRow(["CRE File", "Short Name", "Long Name", "Pertaining Strings"]) ]
  }

  /** One CSV row: the file name, the two names with `-1` left empty, then one field per in-range pertaining ID. */
  function CsvRow(c: Creature, lo: int, hi: int): string
  {
    QuotedRow([c.fileName, CsvField(c.shortName), CsvField(c.longName)] + PertainingLines(c, lo, hi))
  }
}
