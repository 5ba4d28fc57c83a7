/**
 * `table.Table` and the pure parts of `table.Mode`: a 2DA table is a file
 * name and the `TreeSet` of every integer found among its space-separated
 * words; a table is kept when one of its IDs is in the range, and the TXT
 * report lists its in-range IDs in ascending order.
 */
module Tables {
  import opened JavaLang
  import opened Collections
  import opened Reports

  /** A 2DA table: its file name and the string IDs collected from its words. */
  class Table {
    const fileName: string
    var stringIds: set<int>

    /** `new Table(fileName)`: no IDs yet. */
    constructor(fileName: string)
      ensures this.fileName == fileName && stringIds == {}
    {
      this.fileName := fileName;
      stringIds := {};
    }

    /** `add`: the ID joins the set. */
    method Add(id: int)
      modifies this
      ensures stringIds == old(stringIds) + {id}
    {
      stringIds := stringIds + {id};
    }

    /** Some ID of the table lies in the range. */
    ghost predicate Pertains(lo: int, hi: int)
      reads this
    {
      exists x :: x in stringIds && InRange(x, lo, hi)
    }

    /**
     * `isInRange`: the loop over the IDs that returns at the first one in the
     * range.  Its Javadoc says "all string IDs are in the given range"; the
     * code tests for one.
     */
    method IsInRange(lo: int, hi: int) returns (r: bool)
      ensures r <==> Pertains(lo, hi)
    {
      var todo := stringIds;
      while todo != {}
        invariant todo <= stringIds
        invariant forall x :: x in stringIds && x !in todo ==> !InRange(x, lo, hi)
        decreases |todo|
      {
        NonEmptyHasElement(todo);
        var id :| id in todo;
        if InRange(id, lo, hi) {
          return true;
        }
        todo := todo - {id};
      }
      return false;
    }

    /** `compareTo`: tables are ordered by file name. */
    function CompareTo(o: Table): (c: int)
    {
      CompareStrings(fileName, o.fileName)
    }
  }

  /** Two tables compare as equal exactly when their file names are equal, and swapping them flips the sign. */
  lemma CompareToMeaning(t: Table, o: Table)
    ensures t.CompareTo(o) == 0 <==> t.fileName == o.fileName
    ensures t.CompareTo(o) == -o.CompareTo(t)
  {
    CompareStringsZero(t.fileName, o.fileName);
    CompareStringsAntisymmetric(t.fileName, o.fileName);
  }

  /** The value of a word `Integer.parseInt` accepts, none for the others. */
  function WordId(word: string): set<int>
  {
    match ParseInt(word)
    case Some(v) => {v}
    case None => {}
  }

  /** The integers among some words, in the order the loop adds them. */
  function WordIds(words: seq<string>): set<int>
  {
    if words == [] then {} else WordIds(words[..|words| - 1]) + WordId(words[|words| - 1])
  }

  /** An ID comes from a word that parses to it, and every word that parses contributes its value. */
  lemma {:induction false} WordIdsMeaning(words: seq<string>)
    ensures forall x :: x in WordIds(words) <==> exists i :: 0 <= i < |words| && ParseInt(words[i]) == Some(x)
  {
    if words != [] {
      var init := words[..|words| - 1];
      WordIdsMeaning(init);
      forall x | x in WordIds(words)
        ensures exists i :: 0 <= i < |words| && ParseInt(words[i]) == Some(x)
      {
        if x in WordIds(init) {
          var i :| 0 <= i < |init| && ParseInt(init[i]) == Some(x);
          assert words[i] == init[i];
        } else {
          assert ParseInt(words[|words| - 1]) == Some(x);
        }
      }
      forall i | 0 <= i < |words| && ParseInt(words[i]).Some?
        ensures ParseInt(words[i]).value in WordIds(words)
      {
        if i < |init| {
          assert words[i] == init[i];
        }
      }
    }
  }

  /** The IDs one line of a 2DA file contributes: the integers among `line.split(" +")`. */
  function LineIds(line: string): set<int>
  {
    WordIds(SplitSpaces(line))
  }

  /** The IDs of a whole 2DA file, line by line. */
  function FileIds(lines: seq<string>): set<int>
  {
    if lines == [] then {} else FileIds(lines[..|lines| - 1]) + LineIds(lines[|lines| - 1])
  }

  /**
   * How the words are split does not matter beyond the single spaces: an ID
   * of a line is exactly a piece between two spaces (or an end of the line)
   * that parses as an `int`, since the empty pieces the runs of spaces leave
   * never parse.
   */
  lemma LineIdsMeaning(line: string)
    ensures forall x :: x in LineIds(line) <==> exists p :: p in Pieces(line, ' ') && ParseInt(p) == Some(x)
  {
    var p := Pieces(line, ' ');
    var words := SplitSpaces(line);
    WordIdsMeaning(words);
    if ' ' !in line {
      PiecesWithout(line);
    } else {
      var q := [p[0]] + NonEmpty(p[1..]);
      forall x ensures (exists i :: 0 <= i < |words| && ParseInt(words[i]) == Some(x)) <==> (exists w :: w in p && ParseInt(w) == Some(x))
      {
        if i :| 0 <= i < |words| && ParseInt(words[i]) == Some(x) {
          assert words[i] == q[i];
          if i > 0 {
            assert q[i] in NonEmpty(p[1..]);
          }
          assert words[i] in p;
        }
        if w :| w in p && ParseInt(w) == Some(x) {
          assert w != "";
          assert w in q by {
            var k :| 0 <= k < |p| && p[k] == w;
            if k > 0 {
              assert w in p[1..];
            }
          }
          var k :| 0 <= k < |q| && q[k] == w;
          assert k < |words|;
          assert words[k] == w;
        }
      }
    }
  }

  /** Without a space the line is its only piece. */
  lemma PiecesWithout(line: string)
    requires ' ' !in line
    ensures Pieces(line, ' ') == [line]
  {
  }

  /** Every ID of a file comes from one of its lines, and every line's IDs are the file's. */
  lemma {:induction false} FileIdsMeaning(lines: seq<string>)
    ensures forall x :: x in FileIds(lines) <==> exists i :: 0 <= i < |lines| && x in LineIds(lines[i])
  {
    if lines != [] {
      var n := |lines| - 1;
      var init := lines[..n];
      FileIdsMeaning(init);
      forall x | x in FileIds(lines)
        ensures exists i :: 0 <= i < |lines| && x in LineIds(lines[i])
      {
        if x in FileIds(init) {
          var i :| 0 <= i < |init| && x in LineIds(init[i]);
          assert lines[i] == init[i];
        } else {
          assert x in LineIds(lines[n]);
        }
      }
      forall i, x | 0 <= i < |lines| && x in LineIds(lines[i])
        ensures x in FileIds(lines)
      {
        if i < |init| {
          assert lines[i] == init[i];
        }
      }
    }
  }

  /** The inner loop of `parseTable`: every word of one line, added if it parses. */
  method AddLine(t: Table, line: string)
    modifies t
    ensures t.stringIds == old(t.stringIds) + LineIds(line)
  {
    var words := SplitSpaces(line);
    var i := 0;
    while i < |words|
      invariant 0 <= i <= |words|
      invariant t.stringIds == old(t.stringIds) + WordIds(words[..i])
    {
      var v := ParseInt(words[i]);
      assert words[..i + 1][..i] == words[..i];
      if v.Some? {
        t.Add(v.value);
      }
      i := i + 1;
    }
    assert words[..i] == words;
  }

  /** `parseTable`: a new table named after the file, with the IDs of all its lines. */
  method ParseTable(fileName: string, lines: seq<string>) returns (t: Table)
    ensures fresh(t) && t.fileName == fileName && t.stringIds == FileIds(lines)
  {
    t := new Table(fileName);
    var i := 0;
    while i < |lines|
      invariant 0 <= i <= |lines|
      invariant t.fileName == fileName && t.stringIds == FileIds(lines[..i])
    {
      AddLine(t, lines[i]);
      assert lines[..i + 1][..i] == lines[..i];
      i := i + 1;
    }
    assert lines[..i] == lines;
  }

  /** The order of the `TreeSet` the tables are collected in: ascending file names, none twice. */
  predicate SortedByName(ts: seq<Table>)
  {
    forall i, j :: 0 <= i < j < |ts| ==> CompareStrings(ts[i].fileName, ts[j].fileName) < 0
  }

  /** Some table of `ts` has this file name. */
  predicate HasName(ts: seq<Table>, name: string)
  {
    exists i :: 0 <= i < |ts| && ts[i].fileName == name
  }

  /** `TreeSet.add`: the table goes before the first one whose name is above its own, unless one compares equal to it. */
  function InsertByName(ts: seq<Table>, t: Table): (r: seq<Table>)
  {
    if ts == [] then [t]
    else if CompareStrings(t.fileName, ts[0].fileName) == 0 then ts
    else if CompareStrings(t.fileName, ts[0].fileName) < 0 then [t] + ts
    else [ts[0]] + InsertByName(ts[1..], t)
  }

  /**
   * Adding keeps the set ordered, loses no table, brings in no table but the
   * new one, and the names are the old ones plus the new table's.
   */
  lemma InsertByNameMeaning(ts: seq<Table>, t: Table)
    requires SortedByName(ts)
    ensures var r := InsertByName(ts, t);
      SortedByName(r) &&
      (forall i :: 0 <= i < |r| ==> r[i] in ts || r[i] == t) &&
      (forall i :: 0 <= i < |ts| ==> ts[i] in r) &&
      (!HasName(ts, t.fileName) ==> t in r) &&
      forall name :: HasName(r, name) <==> HasName(ts, name) || name == t.fileName
  {
    InsertElems(ts, t);
    InsertSorted(ts, t);
    var r := InsertByName(ts, t);
    forall name
      ensures HasName(r, name) <==> HasName(ts, name) || name == t.fileName
    {
      if HasName(r, name) {
        var i :| 0 <= i < |r| && r[i].fileName == name;
        if r[i] != t {
          var k :| 0 <= k < |ts| && ts[k] == r[i];
        }
      }
      if HasName(ts, name) {
        var i :| 0 <= i < |ts| && ts[i].fileName == name;
        var k :| 0 <= k < |r| && r[k] == ts[i];
      }
      if name == t.fileName && !HasName(ts, name) {
        var k :| 0 <= k < |r| && r[k] == t;
      }
    }
  }

  /** Adding loses no table and brings in none but the new one, which comes in unless its name is taken. */
  lemma {:induction false} InsertElems(ts: seq<Table>, t: Table)
    ensures var r := InsertByName(ts, t);
      (forall i :: 0 <= i < |r| ==> r[i] in ts || r[i] == t) &&
      (forall i :: 0 <= i < |ts| ==> ts[i] in r) &&
      (!HasName(ts, t.fileName) ==> t in r)
  {
    var r := InsertByName(ts, t);
    if ts == [] {
      assert r[0] == t;
    } else {
      var c := CompareStrings(t.fileName, ts[0].fileName);
      CompareStringsZero(t.fileName, ts[0].fileName);
      if c == 0 {
      } else if c < 0 {
        assert r[0] == t;
        forall i | 0 <= i < |ts|
          ensures ts[i] in r
        {
          assert r[i + 1] == ts[i];
        }
      } else {
        var tail := ts[1..];
        InsertElems(tail, t);
        var rest := InsertByName(tail, t);
        assert r == [ts[0]] + rest;
        forall i | 0 <= i < |r|
          ensures r[i] in ts || r[i] == t
        {
          if i > 0 {
            assert r[i] == rest[i - 1];
          }
        }
        forall i | 0 <= i < |ts|
          ensures ts[i] in r
        {
          if i > 0 {
            assert ts[i] == tail[i - 1];
          }
        }
        if !HasName(ts, t.fileName) {
          forall k | 0 <= k < |tail|
            ensures tail[k].fileName != t.fileName
          {
            assert ts[k + 1] == tail[k];
          }
        }
      }
    }
  }

  /** Adding keeps the set in ascending order of names. */
  lemma {:induction false} InsertSorted(ts: seq<Table>, t: Table)
    requires SortedByName(ts)
    ensures SortedByName(InsertByName(ts, t))
  {
    if ts != [] {
      var c := CompareStrings(t.fileName, ts[0].fileName);
      if c < 0 {
        forall j | 0 <= j < |ts|
          ensures CompareStrings(t.fileName, ts[j].fileName) < 0
        {
          if j > 0 {
            CompareStringsTransitive(t.fileName, ts[0].fileName, ts[j].fileName);
          }
        }
        HeadPlusSorted(t, ts);
      } else if c > 0 {
        var tail := ts[1..];
        assert SortedByName(tail) by {
          forall i, j | 0 <= i < j < |tail|
            ensures CompareStrings(tail[i].fileName, tail[j].fileName) < 0
          {
            assert tail[i] == ts[i + 1] && tail[j] == ts[j + 1];
          }
        }
        InsertSorted(tail, t);
        InsertElems(tail, t);
        var rest := InsertByName(tail, t);
        CompareStringsAntisymmetric(t.fileName, ts[0].fileName);
        forall j | 0 <= j < |rest|
          ensures CompareStrings(ts[0].fileName, rest[j].fileName) < 0
        {
          if rest[j] != t {
            var k :| 0 <= k < |tail| && tail[k] == rest[j];
            assert tail[k] == ts[k + 1];
          }
        }
        HeadPlusSorted(ts[0], rest);
      }
    }
  }

  /** An ordered set stays ordered with a table in front that is below all of it. */
  lemma HeadPlusSorted(h: Table, rest: seq<Table>)
    requires SortedByName(rest)
    requires forall j :: 0 <= j < |rest| ==> CompareStrings(h.fileName, rest[j].fileName) < 0
    ensures SortedByName([h] + rest)
  {
    var r := [h] + rest;
    forall i, j | 0 <= i < j < |r|
      ensures CompareStrings(r[i].fileName, r[j].fileName) < 0
    {
      assert r[j] == rest[j - 1];
      if i > 0 {
        assert r[i] == rest[i - 1];
      }
    }
  }

  /** Some file has this name. */
  predicate NameAmong(files: seq<(string, seq<string>)>, name: string)
  {
    exists i :: 0 <= i < |files| && files[i].0 == name
  }

  /** One more file: the names in the set are still exactly the names of the files added so far. */
  lemma NamesStep(before: seq<Table>, t: Table, files: seq<(string, seq<string>)>, k: nat)
    requires k < |files| && t.fileName == files[k].0 && SortedByName(before)
    requires forall name :: HasName(before, name) <==> NameAmong(files[..k], name)
    ensures forall name :: HasName(InsertByName(before, t), name) <==> NameAmong(files[..k + 1], name)
  {
    InsertByNameMeaning(before, t);
    forall name
      ensures NameAmong(files[..k + 1], name) <==> NameAmong(files[..k], name) || name == t.fileName
    {
      NameAmongSnoc(files, k, name);
    }
  }

  /** The names of the first `k + 1` files: those of the first `k`, and the name of file `k`. */
  lemma NameAmongSnoc(files: seq<(string, seq<string>)>, k: nat, name: string)
    requires k < |files|
    ensures NameAmong(files[..k + 1], name) <==> NameAmong(files[..k], name) || name == files[k].0
  {
    var a, b := files[..k], files[..k + 1];
    assert forall i :: 0 <= i < k ==> a[i] == b[i];
    assert b[k] == files[k];
    if NameAmong(b, name) {
      var i :| 0 <= i < |b| && b[i].0 == name;
      assert i < k ==> a[i].0 == name;
    }
    if NameAmong(a, name) {
      var i :| 0 <= i < |a| && a[i].0 == name;
      assert b[i].0 == name;
    }
  }

  /**
   * `parseTables`: every file parsed into a table and added to the `TreeSet`;
   * of two files with one name, the first stays.  The files come in the
   * order they were sorted in, as (name, lines) pairs.
   */
  method ParseTables(files: seq<(string, seq<string>)>) returns (r: seq<Table>)
    ensures SortedByName(r)
    ensures forall name :: HasName(r, name) <==> NameAmong(files, name)
    ensures FromFiles(r, files, |files|)
  {
    r := [];
    var k := 0;
    while k < |files|
      invariant 0 <= k <= |files|
      invariant SortedByName(r)
      invariant forall name :: HasName(r, name) <==> NameAmong(files[..k], name)
      invariant FromFiles(r, files, k)
    {
      var t := ParseTable(files[k].0, files[k].1);
      ParseTablesStep(r, t, files, k);
      r := InsertByName(r, t);
      k := k + 1;
    }
    assert files[..k] == files;
  }

  /** The invariants of the loop of `parseTables` survive adding the table of file `k`. */
  lemma ParseTablesStep(r: seq<Table>, t: Table, files: seq<(string, seq<string>)>, k: nat)
    requires k < |files| && SortedByName(r) && FromFiles(r, files, k)
    requires forall name :: HasName(r, name) <==> NameAmong(files[..k], name)
    requires t.fileName == files[k].0 && t.stringIds == FileIds(files[k].1)
    ensures var r1 := InsertByName(r, t);
      SortedByName(r1) && FromFiles(r1, files, k + 1) &&
      forall name :: HasName(r1, name) <==> NameAmong(files[..k + 1], name)
  {
    NamesStep(r, t, files, k);
    InsertByNameMeaning(r, t);
    FromFilesStep(r, t, files, k);
  }

  /** Every table of `r` holds the IDs of one of the first `k` files, and is named after it. */
  ghost predicate FromFiles(r: seq<Table>, files: seq<(string, seq<string>)>, k: nat)
    reads r
  {
    forall j :: 0 <= j < |r| ==>
      exists i :: 0 <= i < k && i < |files| && files[i].0 == r[j].fileName && r[j].stringIds == FileIds(files[i].1)
  }

  /** Adding the table parsed from file `k` keeps every table in the set one parsed from a file. */
  lemma FromFilesStep(r: seq<Table>, t: Table, files: seq<(string, seq<string>)>, k: nat)
    requires k < |files| && SortedByName(r) && FromFiles(r, files, k)
    requires t.fileName == files[k].0 && t.stringIds == FileIds(files[k].1)
    ensures FromFiles(InsertByName(r, t), files, k + 1)
  {
    InsertByNameMeaning(r, t);
    var r' := InsertByName(r, t);
    forall j | 0 <= j < |r'|
      ensures exists i :: 0 <= i < k + 1 && i < |files| && files[i].0 == r'[j].fileName && r'[j].stringIds == FileIds(files[i].1)
    {
      if r'[j] != t {
        var m :| 0 <= m < |r| && r[m] == r'[j];
      }
    }
  }

  /** `chopTablesToRange`: `removeIf` of every table without an ID in the range; the others keep their order. */
  method ChopTablesToRange(tables: seq<Table>, lo: int, hi: int) returns (r: seq<Table>)
    ensures forall t :: t in r <==> t in tables && t.Pertains(lo, hi)
    ensures forall t: Table :: multiset(r)[t] == if t.Pertains(lo, hi) then multiset(tables)[t] else 0
    ensures Subsequence(r, tables)
    ensures |r| <= |tables|
  {
    r := [];
    var i := 0;
    while i < |tables|
      invariant 0 <= i <= |tables| && |r| <= i
      invariant forall t :: t in r <==> t in tables[..i] && t.Pertains(lo, hi)
      invariant forall t: Table :: multiset(r)[t] == if t.Pertains(lo, hi) then multiset(tables[..i])[t] else 0
      invariant Subsequence(r, tables[..i])
    {
      var keep := tables[i].IsInRange(lo, hi);
      assert tables[..i + 1] == tables[..i] + [tables[i]];
      SubsequenceSnoc(r, tables[..i], tables[i]);
      if keep {
        r := r + [tables[i]];
      }
      i := i + 1;
    }
    assert tables[..i] == tables;
  }

  /** The in-range IDs of a table, ascending as the `TreeSet` iterates them. */
  function InRangeIds(ids: set<int>, lo: int, hi: int): (r: seq<int>)
    ensures Increasing(r)
    ensures forall x :: x in r <==> x in ids && InRange(x, lo, hi)
  {
    SortedSeq(set x | x in ids && InRange(x, lo, hi))
  }

  /** The lines `writeTableStringIdsTxt` writes for one table: a `//` comment naming the file, an empty line, the IDs, an empty line. */
  function TxtBlock(fileName: string, ids: set<int>, lo: int, hi: int): seq<string>
  {
    ["// " + fileName, ""] + Decimal(InRangeIds(ids, lo, hi)) + [""]
  }

  /** A block reads back: its name line, then exactly the in-range IDs in ascending order, between two empty lines. */
  lemma TxtBlockReadsBack(fileName: string, ids: set<int>, lo: int, hi: int)
    requires forall x :: x in ids ==> IsInt32(x)
    ensures var lines := TxtBlock(fileName, ids, lo, hi);
      var r := InRangeIds(ids, lo, hi);
      |lines| == |r| + 3 && lines[0] == "// " + fileName && lines[1] == "" && lines[|lines| - 1] == "" &&
      forall i :: 0 <= i < |r| ==> ParseInt(lines[i + 2]) == Some(r[i])
  {
    var r := InRangeIds(ids, lo, hi);
    forall i | 0 <= i < |r|
      ensures IsInt32(r[i])
    {
      assert r[i] in r;
    }
    DecimalReadsBack(r);
    MiddleAt(["// " + fileName, ""], Decimal(r), [""]);
  }

  lemma MiddleAt(a: seq<string>, d: seq<string>, b: seq<string>)
    ensures forall i :: 0 <= i < |d| ==> (a + d + b)[|a| + i] == d[i]
  {
  }
}
