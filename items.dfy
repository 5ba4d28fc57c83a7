/**
 * `item.Item` and the pure parts of `item.Mode` / `item.ItemMode`: the four
 * string IDs an ITM file holds, the range tests, the order of items, the
 * reading of the IDs from the file's bytes, the chop to the range and the
 * lines of the TXT and CSV reports.
 */
module Items {
  import opened JavaLang
  import opened Collections
  import opened LittleEndian
  import opened IdCompare
  import opened Reports

  datatype Item = Item(
    fileName: string,
    generalName: int,
    identifiedName: int,
    generalDescription: int,
    identifiedDescription: int)

  /** The four string IDs in the order the TXT and CSV reports write them. */
  function Fields(item: Item): seq<int>
  {
    [item.generalName, item.identifiedName, item.generalDescription, item.identifiedDescription]
  }

  /** The four IDs are Java `int`s, as every item read from a file has. */
  predicate Int32Fields(item: Item)
  {
    IsInt32(item.generalName) && IsInt32(item.identifiedName) &&
    IsInt32(item.generalDescription) && IsInt32(item.identifiedDescription)
  }

  /** The `TreeSet` of the four IDs that `compareTo` builds: equal IDs count once. */
  function Ids(item: Item): set<int>
  {
    {item.generalName, item.identifiedName, item.generalDescription, item.identifiedDescription}
  }

  /** `isGeneralNameInRange` ... `isIdentifiedDescriptionInRange`: the range test on field `i`. */
  predicate FieldInRange(item: Item, i: int, lo: int, hi: int)
    requires 0 <= i < 4
  {
    InRange(Fields(item)[i], lo, hi)
  }

  /** `isInRange`: some ID of the item is in the range (any, not all of them). */
  function IsInRange(item: Item, lo: int, hi: int): (r: bool)
    ensures r <==> exists x :: x in Ids(item) && InRange(x, lo, hi)
    ensures r <==> InRangeOf(Fields(item), lo, hi) != []
  {
    var r := FieldInRange(item, 0, lo, hi) || FieldInRange(item, 1, lo, hi) ||
      FieldInRange(item, 2, lo, hi) || FieldInRange(item, 3, lo, hi);
    assert r ==> exists i :: 0 <= i < 4 && Fields(item)[i] in InRangeOf(Fields(item), lo, hi);
    assert InRangeOf(Fields(item), lo, hi) != [] ==> InRangeOf(Fields(item), lo, hi)[0] in Fields(item);
    r
  }

  /**
   * `parseItem`: the four little-endian `int`s at bytes 8, 12, 80 and 84,
   * copied into a 16-byte buffer and read back with `getInt`.  A file
   * shorter than 88 bytes makes `ByteBuffer.put` throw.
   */
  function ParseItem(fileName: string, content: seq<byte>): (r: Option<Item>)
    ensures r.Some? <==> |content| >= 88
    ensures r.Some? ==> (Int32Fields(r.value) && r.value.fileName == fileName &&
      r.value.generalName == GetInt(content, 8) && r.value.identifiedName == GetInt(content, 12) &&
      r.value.generalDescription == GetInt(content, 80) && r.value.identifiedDescription == GetInt(content, 84))
  {
    if |content| < 88 then None
    else
      var buffer := content[8..12] + content[12..16] + content[80..84] + content[84..88];
      Some(Item(fileName, GetInt(buffer, 0), GetInt(buffer, 4), GetInt(buffer, 8), GetInt(buffer, 12)))
  }

  /** A file with an item's four IDs written at their offsets parses back as that item. */
  lemma ParseItemReadsBack(item: Item, content: seq<byte>)
    requires Int32Fields(item) && |content| >= 88
    requires content[8..12] == PutInt(item.generalName) && content[12..16] == PutInt(item.identifiedName)
    requires content[80..84] == PutInt(item.generalDescription) && content[84..88] == PutInt(item.identifiedDescription)
    ensures ParseItem(item.fileName, content) == Some(item)
  {
    GetPutInt(item.generalName);
    GetPutInt(item.identifiedName);
    GetPutInt(item.generalDescription);
    GetPutInt(item.identifiedDescription);
    assert GetInt(content, 8) == GetInt(content[8..12], 0);
    assert GetInt(content, 12) == GetInt(content[12..16], 0);
    assert GetInt(content, 80) == GetInt(content[80..84], 0);
    assert GetInt(content, 84) == GetInt(content[84..88], 0);
  }

  /** `compareTo`: the ID sets compared in step, then the file names. */
  method CompareTo(a: Item, b: Item) returns (c: int)
    ensures c == CompareSorted(SortedSeq(Ids(a)), SortedSeq(Ids(b)), a.fileName, b.fileName)
  {
    c := CompareIdSets(Ids(a), Ids(b), a.fileName, b.fileName);
  }

  /**
   * Two items compare equal exactly when they have the same ID set and the
   * same file name, so the `TreeSet` of items keeps one item per such pair.
   */
  lemma CompareToZero(a: Item, b: Item)
    requires Int32Fields(a) && Int32Fields(b)
    ensures CompareSorted(SortedSeq(Ids(a)), SortedSeq(Ids(b)), a.fileName, b.fileName) == 0 <==>
      Ids(a) == Ids(b) && a.fileName == b.fileName
  {
    var s := SortedSeq(Ids(a));
    var t := SortedSeq(Ids(b));
    SortedIdsInt32(a);
    SortedIdsInt32(b);
    CompareSortedZero(s, t, a.fileName, b.fileName);
    if s == t {
      SortedSeqInjective(Ids(a), Ids(b));
    }
  }

  lemma SortedIdsInt32(a: Item)
    requires Int32Fields(a)
    ensures AllInt32(SortedSeq(Ids(a)))
  {
    var s := SortedSeq(Ids(a));
    assert forall x :: x in Ids(a) ==> IsInt32(x);
    forall i | 0 <= i < |s|
      ensures IsInt32(s[i])
    {
      assert s[i] in Ids(a);
    }
  }

  /** Two items the comparison as written orders both ways round: {-2147483648} and {0} below each other. */
  lemma ItemsBelowEachOther()
    ensures var a := Item("A.ITM", INT_MIN, INT_MIN, INT_MIN, INT_MIN);
      var b := Item("B.ITM", 0, 0, 0, 0);
      CompareSorted(SortedSeq(Ids(a)), SortedSeq(Ids(b)), "A.ITM", "B.ITM") < 0 &&
      CompareSorted(SortedSeq(Ids(b)), SortedSeq(Ids(a)), "B.ITM", "A.ITM") < 0
  {
    var a := Item("A.ITM", INT_MIN, INT_MIN, INT_MIN, INT_MIN);
    var b := Item("B.ITM", 0, 0, 0, 0);
    assert Ids(a) == {INT_MIN} && Ids(b) == {0};
    SingletonSorted(INT_MIN);
    SingletonSorted(0);
    WrapBreaksAntisymmetry();
  }

  lemma SingletonSorted(x: int)
    ensures SortedSeq({x}) == [x]
  {
    assert SetMin({x}) == x;
    assert {x} - {x} == {};
  }

  /** What `compareTo` looks at: the ID set and the file name. */
  function ItemKey(item: Item): Key
  {
    Key(Ids(item), item.fileName)
  }

  /** `compareTo` of two items, as the `TreeSet` of items uses it. */
  function CompareItems(a: Item, b: Item): int
  {
    Compare(ItemKey(a), ItemKey(b))
  }

  /** `parseItem` on each file in turn; `None` when one of them throws. */
  function ParsedItems(files: seq<(string, seq<byte>)>): (r: Option<seq<Item>>)
    ensures r.Some? <==> forall k :: 0 <= k < |files| ==> |files[k].1| >= 88
    ensures r.Some? ==> (|r.value| == |files| &&
      forall k :: 0 <= k < |files| ==> ParseItem(files[k].0, files[k].1) == Some(r.value[k]))
    decreases |files|
  {
    if files == [] then Some([])
    else
      var n := |files| - 1;
      var front := ParsedItems(files[..n]);
      var last := ParseItem(files[n].0, files[n].1);
      assert forall k :: 0 <= k < n ==> files[..n][k] == files[k];
      if front.None? || last.None? then None else Some(front.value + [last.value])
  }

  /**
   * `parseItems`: each file, in the order given (the listing sorted by
   * path), parsed and added to a `TreeSet` ordered by `compareTo`.  The
   * first file too short for `parseItem` ends the run.
   */
  method ParseItems(files: seq<(string, seq<byte>)>) returns (r: Option<seq<Item>>)
    ensures r.Some? <==> ParsedItems(files).Some?
    ensures r.Some? ==> r.value == CollectByKey(ParsedItems(files).value, CompareItems)
  {
    var result: seq<Item> := [];
    var k := 0;
    while k < |files|
      invariant 0 <= k <= |files|
      invariant ParsedItems(files[..k]).Some?
      invariant result == CollectByKey(ParsedItems(files[..k]).value, CompareItems)
    {
      var item := ParseItem(files[k].0, files[k].1);
      if item.None? {
        return None;
      }
      var before := ParsedItems(files[..k]).value;
      assert files[..k + 1][..k] == files[..k];
      assert ParsedItems(files[..k + 1]).value == before + [item.value];
      assert (before + [item.value])[..|before|] == before;
      result := InsertByKey(result, item.value, CompareItems);
      k := k + 1;
    }
    assert files[..k] == files;
    return Some(result);
  }

  /**
   * Where no ID subtraction overflows, the `TreeSet` of items is in
   * `compareTo` order, holds for every item parsed one with the same ID set
   * and file name, and holds only items parsed first with their ID set and
   * file name.
   */
  lemma ItemSetMeaning(items: seq<Item>)
    requires Comparable(items, ItemKey)
    ensures var r := CollectByKey(items, CompareItems);
      Ordered(r, CompareItems) &&
      (forall a :: a in items ==> exists y :: y in r && ItemKey(y) == ItemKey(a)) &&
      forall y :: y in r ==> exists i :: (0 <= i < |items| && items[i] == y &&
        forall j :: 0 <= j < i ==> ItemKey(items[j]) != ItemKey(y))
  {
    KeyedTotal(items, ItemKey, CompareItems);
    CollectByKeyMeaning(items, CompareItems);
    KeyedMeaning(items, ItemKey, CompareItems, CollectByKey(items, CompareItems));
  }

  /** `chopItemsToRange`: `removeIf` of every item without an ID in the range; the others keep their order. */
  function ChopItemsToRange(items: seq<Item>, lo: int, hi: int): (r: seq<Item>)
    ensures forall x :: x in r <==> x in items && IsInRange(x, lo, hi)
    ensures forall x :: multiset(r)[x] == if IsInRange(x, lo, hi) then multiset(items)[x] else 0
    ensures Subsequence(r, items)
    ensures |r| <= |items|
  {
    if items == [] then []
    else
      assert items == [items[0]] + items[1..];
      var t := ChopItemsToRange(items[1..], lo, hi);
      if IsInRange(items[0], lo, hi) then
        assert ([items[0]] + t)[1..] == t;
        [items[0]] + t
      else t
  }

  /** The TXT report's lines for one item: its in-range IDs in field order, then an empty line. */
  function TxtBlock(item: Item, lo: int, hi: int): (lines: seq<string>)
  {
    Decimal(InRangeOf(Fields(item), lo, hi)) + [""]
  }

  /**
   * The block of an item ends with its only empty line, and the lines
   * before it read back as exactly the item's in-range IDs, in field order.
   */
  lemma TxtBlockReadsBack(item: Item, lo: int, hi: int)
    requires Int32Fields(item)
    ensures var lines := TxtBlock(item, lo, hi); var ids := InRangeOf(Fields(item), lo, hi);
      |lines| == |ids| + 1 && lines[|ids|] == "" &&
      forall i :: 0 <= i < |ids| ==> ParseInt(lines[i]) == Some(ids[i]) && lines[i] != ""
  {
    var ids := InRangeOf(Fields(item), lo, hi);
    forall i | 0 <= i < |ids|
      ensures IsInt32(ids[i])
    {
      assert ids[i] in Fields(item);
    }
    DecimalReadsBack(ids);
  }

  /** The TXT report: the blocks of the items in their order. */
  function Txt(items: seq<Item>, lo: int, hi: int): (lines: seq<string>)
  {
    if items == [] then [] else TxtBlock(items[0], lo, hi) + Txt(items[1..], lo, hi)
  }

  /** The three header lines of the CSV report. */
  function CsvHeader(lo: int, hi: int): (h: seq<string>)
    ensures |h| == 3
  {
    [ QuotedRow(["The file can include string IDs out of the user-defined string range " + IntToString(lo) + "-" + IntToString(hi), "", "", "", ""]),
      QuotedRow(["", "", "", "", ""]),
      QuotedRow(["ITM File", "General Name", "Identified Name", "General Description", "Identified Description"]) ]
  }

  /** One CSV row: the file name and the four IDs, `-1` left empty and out-of-range IDs written too. */
  function CsvRow(item: Item): string
  {
    QuotedRow([item.fileName, CsvField(item.generalName), CsvField(item.identifiedName),
      CsvField(item.generalDescription), CsvField(item.identifiedDescription)])
  }

  /** The CSV report: the header, then one row per item. */
  function Csv(items: seq<Item>, lo: int, hi: int): (lines: seq<string>)
    ensures |lines| == 3 + |items|
    ensures forall i :: 0 <= i < |items| ==> lines[3 + i] == CsvRow(items[i])
  {
    var h := CsvHeader(lo, hi);
    var rows := CsvRows(items);
    assert forall i :: 0 <= i < |items| ==> (h + rows)[3 + i] == rows[i];
    h + rows
  }

  function CsvRows(items: seq<Item>): (rows: seq<string>)
    ensures |rows| == |items|
    ensures forall i :: 0 <= i < |items| ==> rows[i] == CsvRow(items[i])
  {
    if items == [] then [] else [CsvRow(items[0])] + CsvRows(items[1..])
  }
}
