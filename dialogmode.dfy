/**
 * What `dialog.Mode.invoke` hands from one parser to the next.  Its order is
 * `prepareMappings`, the content parser on every dialog file, the structure
 * parser on every dialog file, then the script content and script structure
 * parsers (on the script files, then again on the dialog files), and last
 * the chop and the group creator.
 *
 * Each phase keeps an invariant, and the last one is `Drainable`, which the
 * dialog group creator needs.  The dialog parsers write parent and child
 * edges only, and they run while there is no script string.  The script
 * parsers write neighbour edges only, and only between script strings.
 */
module DialogMode {
  import opened Collections
  import opened DialogString
  import opened StringGraph
  import opened ContentParsing
  import opened StructureParsing
  import opened ScriptParsing
  import opened Grouping

  predicate NoScripts(g: Graph)
  {
    forall k :: k in g ==> !IsScript(g[k].kind)
  }

  /** While the content parser runs: every record bare, none a script string, every internal ID a key. */
  predicate ContentPhase(g: Graph, m: map<string, int>)
  {
    AllBare(g) && NoScripts(g) && Resolves(m, g)
  }

  /** While the structure parser runs: the graph invariant and the separation hold, still no script string. */
  predicate StructurePhase(g: Graph, m: map<string, int>)
  {
    Drainable(g) && NoScripts(g) && Resolves(m, g)
  }

  /** The maps right after `prepareMappings` on the empty maps. */
  function Prepared(counter: int): Graph
  {
    map[INVALID_ID := TranslationString(counter, "", "INVALID REFERENCE", Error, [], [], [])]
  }

  /** `prepareMappings` starts the content phase, whatever the counter. */
  lemma PreparedPhase(counter: int)
    ensures ContentPhase(Prepared(counter), map[])
    ensures INVALID_ID in Prepared(counter) && Prepared(counter)[INVALID_ID].kind == Error
  {
  }

  /** A dialog file registers DIALOG and JOURNAL strings only. */
  lemma {:induction false} FileRegistrationsKinds(fileName: string, blocks: seq<ContentBlock>, placeholder: string)
    requires AllSaid(blocks)
    ensures forall i :: 0 <= i < |FileRegistrations(fileName, blocks, placeholder)| ==>
      FileRegistrations(fileName, blocks, placeholder)[i].kind == Dialog || FileRegistrations(fileName, blocks, placeholder)[i].kind == Journal
    decreases |blocks|
  {
    if blocks != [] {
      var n := |blocks| - 1;
      assert AllSaid(blocks[..n]);
      FileRegistrationsKinds(fileName, blocks[..n], placeholder);
      var b := blocks[n];
      var bid := BlockId(fileName, b.begin);
      var regs := BlockRegistrations(bid, b.say.value, b, placeholder);
      forall i | 0 <= i < |regs|
        ensures regs[i].kind == Dialog || regs[i].kind == Journal
      {
        if i == 0 {
          SayAt(bid, b.say.value, b, placeholder);
        } else if i < 1 + |b.replies| {
          ReplyAt(bid, b.say.value, b, placeholder, i - 1);
        } else if i < 1 + |b.replies| + |b.addJournals| {
          AddJournalAt(bid, b.say.value, b, placeholder, i - 1 - |b.replies|);
        } else {
          JournalAt(bid, b.say.value, b, placeholder, i - 1 - |b.replies| - |b.addJournals|);
        }
      }
    }
  }

  /** Registering strings that are not script strings adds no script string. */
  lemma {:induction false} RegisteredNoScripts(g: Graph, regs: seq<Registration>, fileName: string, counter: int)
    requires NoScripts(g) && forall i :: 0 <= i < |regs| ==> !IsScript(regs[i].kind)
    ensures NoScripts(Registered(g, regs, fileName, counter))
    decreases |regs|
  {
    if regs != [] {
      RegisteredNoScripts(g, regs[..|regs| - 1], fileName, counter);
    }
  }

  /** The content parser of one dialog file keeps the content phase. */
  lemma ContentKeepsPhase(g: Graph, m: map<string, int>, fileName: string, blocks: seq<ContentBlock>, placeholder: string, counter: int)
    requires ContentPhase(g, m) && AllSaid(blocks)
    ensures var regs := FileRegistrations(fileName, blocks, placeholder);
      ContentPhase(Registered(g, regs, fileName, counter), Internals(m, regs))
  {
    var regs := FileRegistrations(fileName, blocks, placeholder);
    FileRegistrationsKinds(fileName, blocks, placeholder);
    RegisteredKeeps(g, m, regs, fileName, counter);
    RegisteredNoScripts(g, regs, fileName, counter);
  }

  /** Bare records satisfy the graph invariant and the separation: the structure phase can start. */
  lemma ContentEndsPhase(g: Graph, m: map<string, int>)
    requires ContentPhase(g, m)
    ensures StructurePhase(g, m)
  {
    forall id, side, x | id in g
      ensures x !in g[id].Edges(side)
    {
      assert Bare(g[id]);
    }
    forall id | id in g
      ensures g[id].Valid()
    {
      assert Bare(g[id]);
    }
  }

  /** The structure parser of one dialog file keeps the structure phase. */
  lemma StructureKeepsPhase(g: Graph, m: map<string, int>, name: string, blocks: seq<StructureBlock>)
    requires StructurePhase(g, m) && FileResult(g, m, name, blocks).Some?
    ensures StructurePhase(FileResult(g, m, name, blocks).value, m)
  {
    FileKeeps(g, m, name, blocks);
    var h := FileResult(g, m, name, blocks).value;
    assert Grows(g, h);
    forall k | k in h
      ensures !IsScript(h[k].kind) && h[k].neighbors == []
    {
      assert k in g;
    }
  }

  /** Adding bare script strings beside the records of a graph keeps the graph invariant and the separation. */
  lemma BareScriptsKeepDrainable(g: Graph, h: Graph)
    requires Drainable(g) && forall k :: k in g ==> k in h && h[k] == g[k]
    requires forall k :: k in h && k !in g ==> Bare(h[k]) && IsScript(h[k].kind)
    ensures Drainable(h)
  {
    forall a, side, b | a in h && b in h[a].Edges(side)
      ensures a in g
    {
      if a !in g {
        assert false;
      }
    }
    forall id | id in h && id !in g
      ensures h[id].Valid()
    {
      assert Bare(h[id]);
    }
  }

  /** The script content parser keeps the graph invariant and the separation: its new records are bare script strings. */
  lemma ScriptContentKeepsDrainable(g: Graph, counter: int, fileName: string, journals: seq<JournalCall>, heads: seq<DisplayCall>, waits: seq<DisplayCall>)
    requires Drainable(g) && Scanned(g, counter, fileName, journals, heads, waits).Some?
    ensures Drainable(Scanned(g, counter, fileName, journals, heads, waits).value.g)
  {
    ScriptContentMeaning(g, counter, fileName, journals, heads, waits);
    BareScriptsKeepDrainable(g, Scanned(g, counter, fileName, journals, heads, waits).value.g);
  }

  /** The script structure parser keeps the graph invariant and the separation: only listed script strings gain neighbours. */
  lemma ScriptStructureKeepsDrainable(g: Graph, files: map<string, seq<int>>, fileName: string)
    requires Drainable(g) && ScriptStructure(g, files, fileName).Some?
    ensures Drainable(ScriptStructure(g, files, fileName).value)
  {
    ScriptStructureMeaning(g, files, fileName);
    if fileName in files {
      var keep := ScriptIds(g, Sort(Dedup(files[fileName]))).value;
      var h := Clique(g, keep, keep);
      CliqueMeaning(g, keep);
      forall k | k in h
        ensures if IsScript(h[k].kind) then h[k].parents == [] && h[k].children == [] else h[k].neighbors == []
      {
        if !IsScript(g[k].kind) {
          assert k !in keep;
        }
      }
    }
  }
}
