/**
 * The two parsers of decompiled scripts (`dialog.parser.ScriptContentParser`
 * and `dialog.parser.ScriptStructureParser`).  The content parser registers
 * the strings of `AddJournalEntry`, `DisplayStringHead` and
 * `DisplayStringWait` calls that no dialog file registered before; the
 * structure parser makes the script strings of one file pairwise neighbours.
 *
 * The regular expressions are not modelled: each call arrives as the groups
 * of its match, the string ID as the digits `Integer.valueOf` reads.
 */
module ScriptParsing {
  import opened Collections
  import opened JavaLang
  import opened DialogString
  import opened StringGraph

  /** The groups of an `AddJournalEntry(<id>,…)  // <comment>` match. */
  datatype JournalCall = JournalCall(digits: string, comment: string)

  /** The groups of a `DisplayStringHead("<name>",<id>)  // <comment>` or `DisplayStringWait` match. */
  datatype DisplayCall = DisplayCall(name: string, digits: string, comment: string)

  /** One match, as the loop body uses it: the ID's digits, the record's text and its type. */
  datatype ScriptMatch = ScriptMatch(digits: string, text: string, kind: StringType)

  /** `AddJournalEntry`: a SCRIPT_JOURNAL record whose text is the trailing comment. */
  function JournalMatches(calls: seq<JournalCall>): (r: seq<ScriptMatch>)
    ensures |r| == |calls|
    ensures forall i :: 0 <= i < |r| ==> r[i].digits == calls[i].digits && r[i].text == calls[i].comment && r[i].kind == ScriptJournal
  {
    seq(|calls|, i requires 0 <= i < |calls| => ScriptMatch(calls[i].digits, calls[i].comment, ScriptJournal))
  }

  /** `DisplayStringHead` and `DisplayStringWait`: a SCRIPT_HEAD record with text `(<name>) <comment>`. */
  function DisplayMatches(calls: seq<DisplayCall>): (r: seq<ScriptMatch>)
    ensures |r| == |calls|
    ensures forall i :: 0 <= i < |r| ==>
      r[i].digits == calls[i].digits && r[i].text == "(" + calls[i].name + ") " + calls[i].comment && r[i].kind == ScriptHead
  {
    seq(|calls|, i requires 0 <= i < |calls| => ScriptMatch(calls[i].digits, "(" + calls[i].name + ") " + calls[i].comment, ScriptHead))
  }

  predicate ScriptMatches(ms: seq<ScriptMatch>)
  {
    forall i :: 0 <= i < |ms| ==> IsScript(ms[i].kind)
  }

  // ------------------------------------------------------------ sorting

  predicate Ascending(s: seq<int>)
  {
    forall i, j :: 0 <= i < j < |s| ==> s[i] <= s[j]
  }

  /** One step of an insertion sort. */
  function InsertSorted(s: seq<int>, x: int): (r: seq<int>)
    requires Ascending(s)
    ensures Ascending(r) && multiset(r) == multiset(s) + multiset{x}
    ensures |r| == |s| + 1 && (r[0] == x || (s != [] && r[0] == s[0]))
  {
    if s == [] || x <= s[0] then
      ConsAscending(x, s);
      [x] + s
    else
      AscendingTail(s);
      var t := InsertSorted(s[1..], x);
      assert s == [s[0]] + s[1..];
      assert s[1..] != [] ==> s[0] <= s[1..][0];
      ConsAscending(s[0], t);
      [s[0]] + t
  }

  lemma AscendingTail(s: seq<int>)
    requires Ascending(s) && s != []
    ensures Ascending(s[1..])
  {
    forall i, j | 0 <= i < j < |s[1..]|
      ensures s[1..][i] <= s[1..][j]
    {
      assert s[1..][i] == s[i + 1] && s[1..][j] == s[j + 1];
    }
  }

  lemma ConsAscending(a: int, t: seq<int>)
    requires Ascending(t) && (t == [] || a <= t[0])
    ensures Ascending([a] + t)
  {
    var r := [a] + t;
    forall i, j | 0 <= i < j < |r|
      ensures r[i] <= r[j]
    {
      assert r[j] == t[j - 1];
      if i > 0 {
        assert r[i] == t[i - 1];
      } else if j > 1 {
        assert t[0] <= t[j - 1];
      }
    }
  }

  /** `Collections.sort`: the same elements, in ascending order. */
  function Sort(s: seq<int>): (r: seq<int>)
    ensures Ascending(r) && multiset(r) == multiset(s)
  {
    if s == [] then []
    else
      assert s == s[..|s| - 1] + [s[|s| - 1]];
      InsertSorted(Sort(s[..|s| - 1]), s[|s| - 1])
  }

  /** Sorting a duplicate-free list gives a strictly increasing one with the same elements. */
  lemma SortNoDup(s: seq<int>)
    requires NoDup(s)
    ensures Increasing(Sort(s)) && Elems(Sort(s)) == Elems(s) && |Sort(s)| == |s|
  {
    var r := Sort(s);
    SameMultiset(r, s);
    AscendingNoDup(r, s);
  }

  /** Two lists with the same multiset have the same length and the same elements. */
  lemma SameMultiset(r: seq<int>, s: seq<int>)
    requires multiset(r) == multiset(s)
    ensures Elems(r) == Elems(s) && |r| == |s|
  {
    assert |r| == |multiset(r)| == |multiset(s)| == |s|;
    forall x | x in r ensures x in s {
      assert x in multiset(r);
    }
    forall x | x in s ensures x in r {
      assert x in multiset(s);
    }
  }

  /** An ascending list with the multiset of a duplicate-free one is strictly increasing. */
  lemma AscendingNoDup(r: seq<int>, s: seq<int>)
    requires Ascending(r) && multiset(r) == multiset(s) && NoDup(s)
    ensures Increasing(r)
  {
    forall i, j | 0 <= i < j < |r| ensures r[i] < r[j] {
      if r[i] == r[j] {
        TwiceInMultiset(r, i, j);
        MultisetNoDup(s, r[i]);
      }
    }
  }

  // ------------------------------------------------------------ the content parser

  /** The state the three loops carry: the strings, the new IDs in order found, the static counter. */
  datatype Scan = Scan(g: Graph, ids: seq<int>, counter: int)

  /** One loop body: an unparsable ID throws; a registered one is skipped; a new one is created, put and listed. */
  function ScanStep(s: Scan, m: ScriptMatch, fileName: string): Option<Scan>
  {
    match ParseInt(m.digits)
    case None => None
    case Some(id) =>
      if id in s.g then Some(s)
      else Some(Scan(s.g[id := TranslationString(s.counter, fileName, m.text, m.kind, [], [], [])], s.ids + [id], s.counter + 1))
  }

  /** One of the three loops, over its matches in order. */
  function ScanAll(s: Scan, ms: seq<ScriptMatch>, fileName: string): Option<Scan>
    decreases |ms|
  {
    if ms == [] then Some(s)
    else
      match ScanAll(s, ms[..|ms| - 1], fileName)
      case None => None
      case Some(t) => ScanStep(t, ms[|ms| - 1], fileName)
  }

  function Then(o: Option<Scan>, ms: seq<ScriptMatch>, fileName: string): Option<Scan>
  {
    if o.None? then None else ScanAll(o.value, ms, fileName)
  }

  /** The three loops of `parse`: `AddJournalEntry`, then `DisplayStringHead`, then `DisplayStringWait`. */
  function Scanned(g: Graph, counter: int, fileName: string, journals: seq<JournalCall>, heads: seq<DisplayCall>, waits: seq<DisplayCall>): Option<Scan>
  {
    Then(Then(ScanAll(Scan(g, [], counter), JournalMatches(journals), fileName), DisplayMatches(heads), fileName), DisplayMatches(waits), fileName)
  }

  /** The file entry, under the full file name, only when the sorted list is not empty. */
  function ScriptFiles(files: map<string, seq<int>>, fileName: string, ids: seq<int>): (r: map<string, seq<int>>)
    ensures ids != [] ==> r == files[fileName := ids]
    ensures ids == [] ==> r == files
  {
    if ids == [] then files else files[fileName := ids]
  }

  /** The IDs the matches name, where `Integer.valueOf` reads one. */
  function MatchIds(ms: seq<ScriptMatch>): set<int>
    decreases |ms|
  {
    if ms == [] then {}
    else
      MatchIds(ms[..|ms| - 1]) + (match ParseInt(ms[|ms| - 1].digits) case None => {} case Some(id) => {id})
  }

  /**
   * What the loops keep from the state `g0`/`c0` they started on: the old
   * records untouched, the new IDs listed once each, and every new record
   * a bare script string of this file with a fresh internal ID.
   */
  predicate ScanInv(g0: Graph, c0: int, fileName: string, s: Scan)
  {
    c0 <= s.counter &&
    (forall k :: k in g0 ==> k in s.g && s.g[k] == g0[k]) &&
    s.g.Keys == g0.Keys + Elems(s.ids) &&
    NoDup(s.ids) && (forall i :: 0 <= i < |s.ids| ==> s.ids[i] !in g0) &&
    (forall k :: k in s.g && k !in g0 ==>
      Bare(s.g[k]) && IsScript(s.g[k].kind) && s.g[k].filename == fileName && c0 <= s.g[k].internalId < s.counter)
  }

  lemma ScanStepKeeps(g0: Graph, c0: int, fileName: string, s: Scan, m: ScriptMatch)
    requires ScanInv(g0, c0, fileName, s) && IsScript(m.kind) && ScanStep(s, m, fileName).Some?
    ensures ScanInv(g0, c0, fileName, ScanStep(s, m, fileName).value)
  {
    var id := ParseInt(m.digits).value;
    if id !in s.g {
      NoDupSnoc(s.ids, id);
    }
  }

  /** A loop keeps `ScanInv`. */
  lemma {:induction false} ScanAllKeeps(g0: Graph, c0: int, fileName: string, s: Scan, ms: seq<ScriptMatch>)
    requires ScanInv(g0, c0, fileName, s) && ScriptMatches(ms) && ScanAll(s, ms, fileName).Some?
    ensures ScanInv(g0, c0, fileName, ScanAll(s, ms, fileName).value)
    decreases |ms|
  {
    if ms != [] {
      var n := |ms| - 1;
      assert ScriptMatches(ms[..n]);
      ScanAllKeeps(g0, c0, fileName, s, ms[..n]);
      ScanStepKeeps(g0, c0, fileName, ScanAll(s, ms[..n], fileName).value, ms[n]);
    }
  }

  /** A loop throws exactly when one of its IDs does not fit an `int`. */
  lemma {:induction false} ScanAllSucceeds(s: Scan, ms: seq<ScriptMatch>, fileName: string)
    ensures ScanAll(s, ms, fileName).Some? <==> forall i :: 0 <= i < |ms| ==> ParseInt(ms[i].digits).Some?
    decreases |ms|
  {
    if ms != [] {
      var n := |ms| - 1;
      ScanAllSucceeds(s, ms[..n], fileName);
      assert forall i :: 0 <= i < n ==> ms[..n][i] == ms[i];
    }
  }

  /** After a loop, every ID it names is registered, and nothing else was added. */
  lemma {:induction false} ScanAllKeys(s: Scan, ms: seq<ScriptMatch>, fileName: string)
    requires ScanAll(s, ms, fileName).Some?
    ensures ScanAll(s, ms, fileName).value.g.Keys == s.g.Keys + MatchIds(ms)
    decreases |ms|
  {
    if ms != [] {
      ScanAllKeys(s, ms[..|ms| - 1], fileName);
    }
  }

  lemma ThenKeeps(g0: Graph, c0: int, fileName: string, o: Option<Scan>, ms: seq<ScriptMatch>)
    requires o.Some? && ScanInv(g0, c0, fileName, o.value) && ScriptMatches(ms) && Then(o, ms, fileName).Some?
    ensures ScanInv(g0, c0, fileName, Then(o, ms, fileName).value)
    ensures Then(o, ms, fileName).value.g.Keys == o.value.g.Keys + MatchIds(ms)
  {
    ScanAllKeeps(g0, c0, fileName, o.value, ms);
    ScanAllKeys(o.value, ms, fileName);
  }

  /**
   * `parse` on a script: the records registered before (by the dialog
   * files) are never replaced; the new keys are exactly the IDs the calls
   * name that were not registered; each new record is a bare script string
   * of this file; and the file's list holds every new ID once, in ascending
   * order.
   */
  lemma ScriptContentMeaning(g: Graph, counter: int, fileName: string, journals: seq<JournalCall>, heads: seq<DisplayCall>, waits: seq<DisplayCall>)
    requires Scanned(g, counter, fileName, journals, heads, waits).Some?
    ensures var s := Scanned(g, counter, fileName, journals, heads, waits).value;
      (forall k :: k in g ==> k in s.g && s.g[k] == g[k]) &&
      s.g.Keys == g.Keys + MatchIds(JournalMatches(journals)) + MatchIds(DisplayMatches(heads)) + MatchIds(DisplayMatches(waits)) &&
      Elems(Sort(s.ids)) == s.g.Keys - g.Keys && Increasing(Sort(s.ids)) &&
      (forall k :: k in s.g && k !in g ==> Bare(s.g[k]) && IsScript(s.g[k].kind) && s.g[k].filename == fileName)
  {
    var s0 := Scan(g, [], counter);
    var j, h, w := JournalMatches(journals), DisplayMatches(heads), DisplayMatches(waits);
    assert ScriptMatches(j) && ScriptMatches(h) && ScriptMatches(w);
    var o1 := ScanAll(s0, j, fileName);
    ThenKeeps(g, counter, fileName, Some(s0), j);
    var o2 := Then(o1, h, fileName);
    ThenKeeps(g, counter, fileName, o1, h);
    ThenKeeps(g, counter, fileName, o2, w);
    SortNoDup(Scanned(g, counter, fileName, journals, heads, waits).value.ids);
  }

  /** Every call's ID fits an `int` exactly when `parse` does not throw. */
  lemma ScriptContentSucceeds(g: Graph, counter: int, fileName: string, journals: seq<JournalCall>, heads: seq<DisplayCall>, waits: seq<DisplayCall>)
    ensures Scanned(g, counter, fileName, journals, heads, waits).Some? <==>
      (forall i :: 0 <= i < |journals| ==> ParseInt(journals[i].digits).Some?) &&
      (forall i :: 0 <= i < |heads| ==> ParseInt(heads[i].digits).Some?) &&
      (forall i :: 0 <= i < |waits| ==> ParseInt(waits[i].digits).Some?)
  {
    var j, h, w := JournalMatches(journals), DisplayMatches(heads), DisplayMatches(waits);
    var o1 := ScanAll(Scan(g, [], counter), j, fileName);
    ScanAllSucceeds(Scan(g, [], counter), j, fileName);
    if o1.Some? {
      ScanAllSucceeds(o1.value, h, fileName);
      var o2 := Then(o1, h, fileName);
      if o2.Some? {
        ScanAllSucceeds(o2.value, w, fileName);
      }
    }
  }

  lemma {:induction false} ScanAllCrash(s: Scan, ms: seq<ScriptMatch>, fileName: string, i: nat)
    requires i <= |ms| && ScanAll(s, ms[..i], fileName).None?
    ensures ScanAll(s, ms, fileName).None?
    decreases |ms| - i
  {
    if i < |ms| {
      assert ms[..i + 1][..i] == ms[..i];
      ScanAllCrash(s, ms, fileName, i + 1);
    } else {
      assert ms[..i] == ms;
    }
  }

  /** `ScriptContentParser`, sharing the maps of its mode and the record counter. */
  class ScriptContentParser {
    const maps: Registry
    const factory: StringFactory

    constructor (maps: Registry, factory: StringFactory)
      ensures this.maps == maps && this.factory == factory
    {
      this.maps := maps;
      this.factory := factory;
    }

    /** `parse(file)`: the three loops, `Collections.sort`, and the file entry when something was new. */
    method Parse(fileName: string, journals: seq<JournalCall>, heads: seq<DisplayCall>, waits: seq<DisplayCall>) returns (parsed: bool)
      modifies maps, factory
      ensures parsed <==> Scanned(old(maps.idsToDialogs), old(factory.counter), fileName, journals, heads, waits).Some?
      ensures parsed ==> var s := Scanned(old(maps.idsToDialogs), old(factory.counter), fileName, journals, heads, waits).value;
        maps.idsToDialogs == s.g && factory.counter == s.counter &&
        maps.fileNamesToIds == ScriptFiles(old(maps.fileNamesToIds), fileName, Sort(s.ids))
      ensures maps.internalIdsToIds == old(maps.internalIdsToIds)
    {
      var ids: seq<int> := [];
      parsed, ids := Register(fileName, JournalMatches(journals), ids);
      if !parsed {
        return;
      }
      parsed, ids := Register(fileName, DisplayMatches(heads), ids);
      if !parsed {
        return;
      }
      parsed, ids := Register(fileName, DisplayMatches(waits), ids);
      if !parsed {
        return;
      }
      ids := Sort(ids);
      if ids != [] {
        maps.fileNamesToIds := maps.fileNamesToIds[fileName := ids];
      }
    }

    /** One of the three `while (matcher.find())` loops. */
    method Register(fileName: string, ms: seq<ScriptMatch>, ids0: seq<int>) returns (ok: bool, ids: seq<int>)
      modifies maps, factory
      ensures ok <==> ScanAll(Scan(old(maps.idsToDialogs), ids0, old(factory.counter)), ms, fileName).Some?
      ensures ok ==> Scan(maps.idsToDialogs, ids, factory.counter) == ScanAll(Scan(old(maps.idsToDialogs), ids0, old(factory.counter)), ms, fileName).value
      ensures maps.internalIdsToIds == old(maps.internalIdsToIds) && maps.fileNamesToIds == old(maps.fileNamesToIds)
    {
      ghost var s0 := Scan(maps.idsToDialogs, ids0, factory.counter);
      ids := ids0;
      var i := 0;
      while i < |ms|
        invariant 0 <= i <= |ms|
        invariant ScanAll(s0, ms[..i], fileName) == Some(Scan(maps.idsToDialogs, ids, factory.counter))
        invariant maps.internalIdsToIds == old(maps.internalIdsToIds) && maps.fileNamesToIds == old(maps.fileNamesToIds)
      {
        assert ms[..i + 1][..i] == ms[..i];
        var n := ParseInt(ms[i].digits);
        if n.None? {
          ScanAllCrash(s0, ms, fileName, i + 1);
          return false, ids;
        }
        var id := n.value;
        if id !in maps.idsToDialogs {
          var r := factory.Create(ms[i].text, ms[i].kind, fileName);
          maps.idsToDialogs := maps.idsToDialogs[id := r];
          ids := ids + [id];
        }
        i := i + 1;
      }
      assert ms[..i] == ms;
      ok := true;
    }
  }

  // ------------------------------------------------------------ the structure parser

  /**
   * The filter `parse` means to apply: the listed IDs whose record is a
   * script string, in order; `None` when one is not registered (`get`
   * returns null).
   */
  function ScriptIds(g: Graph, ids: seq<int>): (r: Option<seq<int>>)
    ensures r.Some? <==> Elems(ids) <= g.Keys
    ensures r.Some? ==> forall x :: x in r.value <==> x in ids && IsScript(g[x].kind)
    ensures r.Some? && NoDup(ids) ==> NoDup(r.value)
    decreases |ids|
  {
    if ids == [] then Some([])
    else
      var n := |ids| - 1;
      var x := ids[n];
      assert ids == ids[..n] + [x];
      NoDupSnoc(ids[..n], x);
      match ScriptIds(g, ids[..n])
      case None => None
      case Some(t) =>
        if x !in g then None
        else if IsScript(g[x].kind) then
          NoDupSnoc(t, x);
          Some(t + [x])
        else Some(t)
  }

  /**
   * The filter as written: `ids.remove(each)` inside the for-each over the
   * same `HashSet`.  After a removal the iterator's next `next()` throws
   * `ConcurrentModificationException`; only when the removed ID was the
   * last one does `hasNext()` end the loop first.
   */
  function FilterAsWritten(g: Graph, ids: seq<int>, i: nat, kept: seq<int>): Option<seq<int>>
    requires i <= |ids|
    decreases |ids| - i
  {
    if i == |ids| then Some(kept)
    else if ids[i] !in g then None
    else if IsScript(g[ids[i]].kind) then FilterAsWritten(g, ids, i + 1, kept + [ids[i]])
    else if i + 1 < |ids| then None
    else Some(kept)
  }

  /** Where the filter as written does not throw, it keeps what the intended filter keeps. */
  lemma {:induction false} FilterAsWrittenAgrees(g: Graph, ids: seq<int>, i: nat, kept: seq<int>)
    requires i <= |ids| && ScriptIds(g, ids[..i]) == Some(kept)
    requires FilterAsWritten(g, ids, i, kept).Some?
    ensures FilterAsWritten(g, ids, i, kept) == ScriptIds(g, ids)
    decreases |ids| - i
  {
    if i == |ids| {
      assert ids[..i] == ids;
    } else {
      assert ids[..i + 1][..i] == ids[..i];
      if IsScript(g[ids[i]].kind) {
        FilterAsWrittenAgrees(g, ids, i + 1, kept + [ids[i]]);
      } else {
        assert ids[..i + 1] == ids;
      }
    }
  }

  /** A dialog string listed before a script string makes the filter as written throw. */
  lemma FilterAsWrittenThrows()
    ensures var g := map[1 := TranslationString(0, "a.baf", "hello", Dialog, [], [], []),
                         2 := TranslationString(1, "a.baf", "(Imoen) bye", ScriptHead, [], [], [])];
      FilterAsWritten(g, [1, 2], 0, []) == None && ScriptIds(g, [1, 2]) == Some([2])
  {
    var g := map[1 := TranslationString(0, "a.baf", "hello", Dialog, [], [], []),
                 2 := TranslationString(1, "a.baf", "(Imoen) bye", ScriptHead, [], [], [])];
    assert [1, 2][..1] == [1];
    assert [1][..0] == [];
    assert ScriptIds(g, []) == Some([]);
    assert ScriptIds(g, [1]) == Some([]);
    assert g[1].kind == Dialog && g[2].kind == ScriptHead;
    assert FilterAsWritten(g, [1, 2], 0, []) == None;
    assert [] + [2] == [2];
    assert ScriptIds(g, [1, 2]) == Some([2]);
  }

  /** Record `k` once it has gained every other listed ID as a neighbour, in list order. */
  function Befriended(t: TranslationString, keep: seq<int>, k: int): TranslationString
  {
    t.(neighbors := AddAll(t.neighbors, FilterOut(keep, {k})))
  }

  /** The nested loops, once the outer one has visited `done`. */
  function Clique(g: Graph, keep: seq<int>, done: seq<int>): Graph
  {
    map k | k in g :: if k in done then Befriended(g[k], keep, k) else g[k]
  }

  /**
   * `parse(file)`: no change for a file without an entry; otherwise the
   * file's distinct IDs (in the ascending order the model gives a
   * `HashSet`), filtered to script strings, become pairwise neighbours.
   */
  function ScriptStructure(g: Graph, files: map<string, seq<int>>, fileName: string): Option<Graph>
  {
    if fileName !in files then Some(g)
    else
      match ScriptIds(g, Sort(Dedup(files[fileName])))
      case None => None
      case Some(keep) => Some(Clique(g, keep, keep))
  }

  lemma CliqueStep(g: Graph, keep: seq<int>, j: int)
    requires 0 <= j < |keep| && NoDup(keep) && keep[j] in g
    ensures Clique(g, keep, keep[..j + 1]) == Clique(g, keep, keep[..j])[keep[j] := Befriended(g[keep[j]], keep, keep[j])]
  {
    var a := keep[j];
    assert keep[..j + 1] == keep[..j] + [a];
    assert a !in keep[..j];
    var u := Clique(g, keep, keep[..j + 1]);
    var t := Clique(g, keep, keep[..j])[a := Befriended(g[a], keep, a)];
    assert u.Keys == t.Keys;
    assert forall k :: k in u ==> u[k] == t[k];
  }

  /** One record of the clique: only its neighbour set changes, and it gains exactly the other listed IDs. */
  lemma CliqueAt(g: Graph, keep: seq<int>, k: int)
    requires k in g
    ensures var h := Clique(g, keep, keep);
      k in h && (k !in keep ==> h[k] == g[k]) &&
      h[k].internalId == g[k].internalId && h[k].text == g[k].text && h[k].kind == g[k].kind &&
      h[k].filename == g[k].filename && h[k].parents == g[k].parents && h[k].children == g[k].children &&
      (forall b :: b in h[k].neighbors <==> b in g[k].neighbors || (k in keep && b in keep && k != b))
    ensures g[k].Valid() ==> Clique(g, keep, keep)[k].Valid()
  {
  }

  /** Only neighbour sets change: each listed record gains the other listed IDs and nothing else. */
  lemma CliqueMeaning(g: Graph, keep: seq<int>)
    ensures var h := Clique(g, keep, keep);
      h.Keys == g.Keys &&
      (forall k :: k in g && k !in keep ==> h[k] == g[k]) &&
      (forall k :: k in g ==>
        h[k].internalId == g[k].internalId && h[k].text == g[k].text && h[k].kind == g[k].kind &&
        h[k].filename == g[k].filename && h[k].parents == g[k].parents && h[k].children == g[k].children) &&
      (forall a, b :: a in g ==> (b in h[a].neighbors <==> b in g[a].neighbors || (a in keep && b in keep && a != b)))
  {
    forall k | k in g {
      CliqueAt(g, keep, k);
    }
  }

  /** The clique keeps the graph invariant: the new neighbour edges come in pairs, between registered strings. */
  lemma CliqueConsistent(g: Graph, keep: seq<int>)
    requires Consistent(g) && Elems(keep) <= g.Keys
    ensures Consistent(Clique(g, keep, keep))
  {
    var h := Clique(g, keep, keep);
    assert h.Keys == g.Keys;
    forall a, side, x | a in h && x in h[a].Edges(side)
      ensures x in h && a in h[x].Edges(Opposite(side))
    {
      CliqueAt(g, keep, a);
      if side == NeighborSide {
        if x in g[a].neighbors {
          assert x in g[a].Edges(NeighborSide);
        } else {
          assert x in Elems(keep);
        }
        CliqueAt(g, keep, x);
        assert a in g[x].neighbors || (x in keep && a in keep && x != a) by {
          if x in g[a].neighbors {
            assert a in g[x].Edges(Opposite(NeighborSide));
          }
        }
      } else {
        assert h[a].Edges(side) == g[a].Edges(side);
        assert x in g;
        CliqueAt(g, keep, x);
        assert h[x].Edges(Opposite(side)) == g[x].Edges(Opposite(side));
      }
    }
    forall k | k in h
      ensures h[k].Valid()
    {
      CliqueAt(g, keep, k);
    }
  }

  /**
   * What `parse` makes of a script file: it throws exactly when the file's
   * list names an unregistered ID; otherwise every two distinct script strings
   * of the file become neighbours, and no other edge appears.
   */
  lemma ScriptStructureMeaning(g: Graph, files: map<string, seq<int>>, fileName: string)
    ensures ScriptStructure(g, files, fileName).Some? <==> (fileName in files ==> Elems(files[fileName]) <= g.Keys)
    ensures ScriptStructure(g, files, fileName).Some? && fileName !in files ==> ScriptStructure(g, files, fileName).value == g
    ensures ScriptStructure(g, files, fileName).Some? && fileName in files ==>
      var h := ScriptStructure(g, files, fileName).value; var l := files[fileName];
      h.Keys == g.Keys &&
      (forall a, b :: a in g ==>
        (b in h[a].neighbors <==> b in g[a].neighbors || (a != b && a in l && b in l && IsScript(g[a].kind) && IsScript(g[b].kind))))
    ensures Consistent(g) && ScriptStructure(g, files, fileName).Some? ==> Consistent(ScriptStructure(g, files, fileName).value)
  {
    if fileName in files {
      var ids := Sort(Dedup(files[fileName]));
      SortNoDup(Dedup(files[fileName]));
      if ScriptIds(g, ids).Some? {
        var keep := ScriptIds(g, ids).value;
        CliqueMeaning(g, keep);
        if Consistent(g) {
          CliqueConsistent(g, keep);
        }
      }
    }
  }

  /** `ScriptStructureParser`, sharing the maps of its mode; it writes neighbour edges only. */
  class ScriptStructureParser {
    const maps: Registry

    constructor (maps: Registry)
      ensures this.maps == maps
    {
      this.maps := maps;
    }

    /** `parse(file)`: the early return, the filter, then the nested loops over ordered pairs. */
    method Parse(fileName: string) returns (ok: bool)
      modifies maps
      ensures ok <==> ScriptStructure(old(maps.idsToDialogs), maps.fileNamesToIds, fileName).Some?
      ensures ok ==> maps.idsToDialogs == ScriptStructure(old(maps.idsToDialogs), maps.fileNamesToIds, fileName).value
      ensures maps.internalIdsToIds == old(maps.internalIdsToIds) && maps.fileNamesToIds == old(maps.fileNamesToIds)
    {
      if fileName !in maps.fileNamesToIds {
        return true;
      }
      var ids := Sort(Dedup(maps.fileNamesToIds[fileName]));
      SortNoDup(Dedup(maps.fileNamesToIds[fileName]));
      IncreasingNoDup(ids);
      var keep;
      ok, keep := FilterScripts(ids);
      if !ok {
        return;
      }
      Befriend(keep);
    }

    /** The filter loop, as meant: the IDs whose record is a script string; `false` where `get` returns null. */
    method FilterScripts(ids: seq<int>) returns (ok: bool, keep: seq<int>)
      ensures ok <==> ScriptIds(maps.idsToDialogs, ids).Some?
      ensures ok ==> keep == ScriptIds(maps.idsToDialogs, ids).value
    {
      keep := [];
      var i := 0;
      while i < |ids|
        invariant 0 <= i <= |ids|
        invariant ScriptIds(maps.idsToDialogs, ids[..i]) == Some(keep)
      {
        var each := ids[i];
        assert ids[..i + 1] == ids[..i] + [each];
        if each !in maps.idsToDialogs {
          assert each in Elems(ids);
          return false, keep;
        }
        if IsScript(maps.idsToDialogs[each].kind) {
          keep := keep + [each];
        }
        i := i + 1;
      }
      assert ids[..i] == ids;
      ok := true;
    }

    /** The nested loops: every listed string gains every other listed string as a neighbour. */
    method Befriend(keep: seq<int>)
      requires NoDup(keep) && Elems(keep) <= maps.idsToDialogs.Keys
      modifies maps
      ensures maps.idsToDialogs == Clique(old(maps.idsToDialogs), keep, keep)
      ensures maps.internalIdsToIds == old(maps.internalIdsToIds) && maps.fileNamesToIds == old(maps.fileNamesToIds)
    {
      ghost var g := maps.idsToDialogs;
      var j := 0;
      while j < |keep|
        invariant 0 <= j <= |keep|
        invariant maps.idsToDialogs == Clique(g, keep, keep[..j])
        invariant maps.internalIdsToIds == old(maps.internalIdsToIds) && maps.fileNamesToIds == old(maps.fileNamesToIds)
      {
        assert keep[j] in Elems(keep);
        CliqueStep(g, keep, j);
        CliqueUntouched(g, keep, j);
        LinkNeighbors(keep[j], keep);
        j := j + 1;
      }
      assert keep[..j] == keep;
    }

    /** The inner loop: `get(a).addNeighbor(b)` for every listed `b` other than `a`. */
    method LinkNeighbors(a: int, keep: seq<int>)
      requires a in maps.idsToDialogs
      modifies maps
      ensures maps.idsToDialogs == old(maps.idsToDialogs)[a := Befriended(old(maps.idsToDialogs)[a], keep, a)]
      ensures maps.internalIdsToIds == old(maps.internalIdsToIds) && maps.fileNamesToIds == old(maps.fileNamesToIds)
    {
      ghost var g := maps.idsToDialogs;
      ghost var r := g[a];
      var j := 0;
      while j < |keep|
        invariant 0 <= j <= |keep|
        invariant maps.idsToDialogs == g[a := Befriending(r, keep, a, j)]
        invariant maps.internalIdsToIds == old(maps.internalIdsToIds) && maps.fileNamesToIds == old(maps.fileNamesToIds)
      {
        VisitNeighbor(a, keep, j, g, r);
        j := j + 1;
      }
      assert keep[..j] == keep;
    }

    /** One turn of the inner loop: `addNeighbor(keep[j])` unless it is `a` itself. */
    method VisitNeighbor(a: int, keep: seq<int>, j: int, ghost g: Graph, ghost r: TranslationString)
      requires 0 <= j < |keep| && maps.idsToDialogs == g[a := Befriending(r, keep, a, j)]
      modifies maps
      ensures maps.idsToDialogs == g[a := Befriending(r, keep, a, j + 1)]
      ensures maps.internalIdsToIds == old(maps.internalIdsToIds) && maps.fileNamesToIds == old(maps.fileNamesToIds)
    {
      BefriendingStep(r, keep, a, j);
      if a != keep[j] {
        PutTwice(g, a, Befriending(r, keep, a, j), Befriending(r, keep, a, j + 1));
        maps.AddEdge(a, NeighborSide, keep[j]);
      }
    }
  }

  /** Record `r` after the inner loop for `a` has visited the first `j` listed IDs. */
  function Befriending(r: TranslationString, keep: seq<int>, a: int, j: int): TranslationString
    requires 0 <= j <= |keep|
  {
    r.(neighbors := AddAll(r.neighbors, FilterOut(keep[..j], {a})))
  }

  lemma BefriendingStep(r: TranslationString, keep: seq<int>, a: int, j: int)
    requires 0 <= j < |keep|
    ensures Befriending(r, keep, a, j + 1) ==
      if a == keep[j] then Befriending(r, keep, a, j) else Befriending(r, keep, a, j).Add(NeighborSide, keep[j])
  {
    var b := keep[j];
    assert keep[..j + 1] == keep[..j] + [b];
    FilterOutSnoc(keep[..j], b, {a});
    var f := FilterOut(keep[..j], {a});
    if a != b {
      AddAllSnoc(r.neighbors, f, b);
    } else {
      assert f + [] == f;
    }
  }

  /** The record the outer loop visits next is still the original one. */
  lemma CliqueUntouched(g: Graph, keep: seq<int>, j: int)
    requires 0 <= j < |keep| && NoDup(keep) && keep[j] in g
    ensures keep[j] in Clique(g, keep, keep[..j]) && Clique(g, keep, keep[..j])[keep[j]] == g[keep[j]]
  {
    assert keep[j] !in keep[..j];
  }
}
