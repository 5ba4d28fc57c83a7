/**
 * The structure parser of the dialog files (`dialog.parser.DialogStructureParser`):
 * once the content parser has registered every string, each line of each
 * block links the block's SAY (or the line's REPLY) to the strings the line
 * leads to, writing every edge on both ends.  References by internal ID
 * (`GOTO n`, `EXTERN ~F~ n`) that do not resolve are linked to the sentinel -1.
 *
 * The regular expressions are not modelled: a line arrives as the first
 * match of each of its five patterns, every group as written.  The parser
 * first turns the numeric groups of REPLY, JOURNAL, `AddJournalEntry` and
 * SAY into the numbers `Integer.parseInt` makes of them (`ReadStructure`).
 * The GOTO group stays as written, because `Integer.valueOf` normalises it
 * into an internal ID where it is used.  Reading the numbers first changes
 * nothing that can be observed, because a throw ends the run either way.
 *
 * A `NullPointerException` or a failed parse that nothing catches ends the
 * run; the model answers `None` (the functions) or `false` (the methods).
 */
module StructureParsing {
  import opened Collections
  import opened JavaLang
  import opened DialogString
  import opened StringGraph
  import opened ContentParsing

  /** The two groups of an `EXTERN ~F~ n` match. */
  datatype Extern = Extern(file: string, target: string)

  /** The first match, if any, of each pattern `parseLine` looks for, in the order it looks. */
  datatype Line = Line(reply: Option<int>, gotoTarget: Option<string>, journal: Option<int>, addJournal: Option<int>, extern: Option<Extern>)

  /** A block: the ID of its first SAY (if any) and its lines. */
  datatype StructureBlock = StructureBlock(say: Option<int>, lines: seq<Line>)

  /** A line as captured: the REPLY, JOURNAL and `AddJournalEntry` groups are still the digits `\d+` matched. */
  datatype CapturedLine = CapturedLine(reply: Option<string>, gotoTarget: Option<string>, journal: Option<string>, addJournal: Option<string>, extern: Option<Extern>)

  /** A block as captured: the digits of its first SAY (if any) and its lines. */
  datatype CapturedStructure = CapturedStructure(say: Option<string>, lines: seq<CapturedLine>)

  /** A group that is absent, or one `Integer.parseInt` accepts. */
  predicate Parses(group: Option<string>)
  {
    group.Some? ==> ParseInt(group.value).Some?
  }

  /** `Integer.parseInt(group(1))` of the match, if there is one. */
  function Parsed(group: Option<string>): (r: Option<int>)
    requires Parses(group)
  {
    if group.None? then None else ParseInt(group.value)
  }

  predicate LineIdsParse(l: CapturedLine)
  {
    Parses(l.reply) && Parses(l.journal) && Parses(l.addJournal)
  }

  function ReadLine(l: CapturedLine): Line
    requires LineIdsParse(l)
  {
    Line(Parsed(l.reply), l.gotoTarget, Parsed(l.journal), Parsed(l.addJournal), l.extern)
  }

  /** Every ID group of every block is absent or one `Integer.parseInt` accepts. */
  predicate StructureIdsParse(blocks: seq<CapturedStructure>)
  {
    forall j :: 0 <= j < |blocks| ==> (Parses(blocks[j].say) && forall i :: 0 <= i < |blocks[j].lines| ==> LineIdsParse(blocks[j].lines[i]))
  }

  /** The blocks with every ID group parsed. */
  function ReadStructure(blocks: seq<CapturedStructure>): (r: seq<StructureBlock>)
    requires StructureIdsParse(blocks)
    ensures |r| == |blocks|
  {
    seq(|blocks|, j requires 0 <= j < |blocks| && StructureIdsParse(blocks) =>
      StructureBlock(Parsed(blocks[j].say),
        seq(|blocks[j].lines|, i requires 0 <= i < |blocks[j].lines| && StructureIdsParse(blocks) && j < |blocks| => ReadLine(blocks[j].lines[i]))))
  }

  /** What the patterns capture: every numeric group present is a run of decimal digits. */
  predicate DigitGroup(group: Option<string>)
  {
    group.Some? ==> IsDigits(group.value)
  }

  /** A numeric group present is at most `Integer.MAX_VALUE`. */
  predicate InIntRange(group: Option<string>)
    requires DigitGroup(group)
  {
    group.Some? ==> DigitsValue(group.value) <= INT_MAX
  }

  /**
   * On a group the pattern captured, `parseInt` throws exactly when the group
   * is above `Integer.MAX_VALUE`, and otherwise it reads the decimal value of
   * the digits.
   */
  lemma ParsedMeaning(group: Option<string>)
    requires DigitGroup(group)
    ensures Parses(group) <==> InIntRange(group)
    ensures Parses(group) ==> (Parsed(group).Some? <==> group.Some?) && (group.Some? ==> Parsed(group).value == DigitsValue(group.value))
  {
    if group.Some? {
      ParseIntOfDigits(group.value);
    }
  }

  predicate LineDigits(l: CapturedLine)
  {
    DigitGroup(l.reply) && DigitGroup(l.journal) && DigitGroup(l.addJournal)
  }

  /**
   * On a line the patterns captured, its IDs parse exactly when no REPLY,
   * JOURNAL or `AddJournalEntry` number is above `Integer.MAX_VALUE`; the
   * line read then keeps its GOTO and EXTERN groups and has each number as
   * the value of its digits.
   */
  lemma ReadLineMeaning(l: CapturedLine)
    requires LineDigits(l)
    ensures LineIdsParse(l) <==> InIntRange(l.reply) && InIntRange(l.journal) && InIntRange(l.addJournal)
    ensures LineIdsParse(l) ==> var r := ReadLine(l);
      r.gotoTarget == l.gotoTarget && r.extern == l.extern &&
      (r.reply.Some? <==> l.reply.Some?) && (l.reply.Some? ==> r.reply.value == DigitsValue(l.reply.value)) &&
      (r.journal.Some? <==> l.journal.Some?) && (l.journal.Some? ==> r.journal.value == DigitsValue(l.journal.value)) &&
      (r.addJournal.Some? <==> l.addJournal.Some?) && (l.addJournal.Some? ==> r.addJournal.value == DigitsValue(l.addJournal.value))
  {
    ParsedMeaning(l.reply);
    ParsedMeaning(l.journal);
    ParsedMeaning(l.addJournal);
  }

  predicate BlockDigits(b: CapturedStructure)
  {
    DigitGroup(b.say) && forall i :: 0 <= i < |b.lines| ==> LineDigits(b.lines[i])
  }

  /** The SAY and every line of the block are within `int` range. */
  predicate BlockInIntRange(b: CapturedStructure)
    requires BlockDigits(b)
  {
    InIntRange(b.say) &&
    forall i :: 0 <= i < |b.lines| ==> InIntRange(b.lines[i].reply) && InIntRange(b.lines[i].journal) && InIntRange(b.lines[i].addJournal)
  }

  /**
   * On blocks the patterns captured, the structure parser reads every ID
   * without a throw exactly when every block is within `int` range, and then
   * each block becomes its SAY and its lines read one by one.
   */
  lemma ReadStructureMeaning(blocks: seq<CapturedStructure>)
    requires forall j :: 0 <= j < |blocks| ==> BlockDigits(blocks[j])
    ensures StructureIdsParse(blocks) <==> forall j :: 0 <= j < |blocks| ==> BlockInIntRange(blocks[j])
    ensures StructureIdsParse(blocks) ==> forall j :: 0 <= j < |blocks| ==>
      ReadStructure(blocks)[j].say == Parsed(blocks[j].say) &&
      |ReadStructure(blocks)[j].lines| == |blocks[j].lines| &&
      forall i :: 0 <= i < |blocks[j].lines| ==> ReadStructure(blocks)[j].lines[i] == ReadLine(blocks[j].lines[i])
  {
    forall j | 0 <= j < |blocks|
      ensures (Parses(blocks[j].say) && forall i :: 0 <= i < |blocks[j].lines| ==> LineIdsParse(blocks[j].lines[i])) <==> BlockInIntRange(blocks[j])
    {
      ParsedMeaning(blocks[j].say);
      forall i | 0 <= i < |blocks[j].lines|
        ensures LineIdsParse(blocks[j].lines[i]) <==> InIntRange(blocks[j].lines[i].reply) && InIntRange(blocks[j].lines[i].journal) && InIntRange(blocks[j].lines[i].addJournal)
      {
        ReadLineMeaning(blocks[j].lines[i]);
      }
    }
  }

  /** `file + ':' + Integer.valueOf(n)`; `None` where `valueOf` throws. */
  function GotoId(fileName: string, digits: string): Option<string>
  {
    match ParseInt(digits)
    case None => None
    case Some(n) => Some(fileName + ":" + IntToString(n))
  }

  /** `F + ':' + n`, taken verbatim. */
  function ExternId(e: Extern): string
  {
    e.file + ":" + e.target
  }

  /** The string a resolved reference links to: the one the internal ID names, or -1. */
  function Target(g: Graph, m: map<string, int>, internalId: string): int
  {
    if internalId in m && m[internalId] in g then m[internalId] else INVALID_ID
  }

  /** `get(parent).addChild(child); get(child).addParent(parent)`; `None` where a `get` returns null. */
  function Linking(g: Graph, parent: int, child: int): Option<Graph>
  {
    if parent in g && child in g then Some(Linked(g, parent, child, ChildSide)) else None
  }

  /**
   * The `try`/`catch` around a reference by internal ID.  An unknown
   * internal ID fails the unboxing before anything is added; a known one
   * whose string is not registered is added to the parent before the second
   * `get` fails.  Either way the `catch` links the parent to -1, and throws
   * itself when -1 or the parent is not registered.
   */
  function Resolving(g: Graph, m: map<string, int>, parent: int, internalId: string): Option<Graph>
  {
    if parent !in g then None
    else if internalId in m && m[internalId] in g then Some(Linked(g, parent, m[internalId], ChildSide))
    else
      var g1 := if internalId in m then g[parent := g[parent].Add(ChildSide, m[internalId])] else g;
      Linking(g1, parent, INVALID_ID)
  }

  function LinkAfter(o: Option<Graph>, parent: int, child: Option<int>): Option<Graph>
  {
    if child.None? then o else if o.None? then None else Linking(o.value, parent, child.value)
  }

  function ResolveAfter(o: Option<Graph>, m: map<string, int>, parent: int, internalId: Option<string>): Option<Graph>
  {
    if o.None? || internalId.None? then None else Resolving(o.value, m, parent, internalId.value)
  }

  /** The parent of everything after the REPLY of a line: the REPLY, or else the block's SAY. */
  function LineParent(say: int, line: Line): int
  {
    if line.reply.Some? then line.reply.value else say
  }

  function GotoStep(o: Option<Graph>, m: map<string, int>, fileName: string, parent: int, line: Line): Option<Graph>
  {
    if line.gotoTarget.None? then o else ResolveAfter(o, m, parent, GotoId(fileName, line.gotoTarget.value))
  }

  function ExternStep(o: Option<Graph>, m: map<string, int>, parent: int, line: Line): Option<Graph>
  {
    if line.extern.None? then o else ResolveAfter(o, m, parent, Some(ExternId(line.extern.value)))
  }

  function AfterReply(g: Graph, say: int, line: Line): Option<Graph>
  {
    LinkAfter(Some(g), say, line.reply)
  }

  function AfterGoto(g: Graph, m: map<string, int>, fileName: string, say: int, line: Line): Option<Graph>
  {
    GotoStep(AfterReply(g, say, line), m, fileName, LineParent(say, line), line)
  }

  function AfterJournal(g: Graph, m: map<string, int>, fileName: string, say: int, line: Line): Option<Graph>
  {
    LinkAfter(AfterGoto(g, m, fileName, say, line), LineParent(say, line), line.journal)
  }

  function AfterAdd(g: Graph, m: map<string, int>, fileName: string, say: int, line: Line): Option<Graph>
  {
    LinkAfter(AfterJournal(g, m, fileName, say, line), LineParent(say, line), line.addJournal)
  }

  /** `parseLine(file, say, line)`: REPLY, GOTO, JOURNAL, `AddJournalEntry`, EXTERN, in that order. */
  function LineResult(g: Graph, m: map<string, int>, fileName: string, say: int, line: Line): Option<Graph>
  {
    ExternStep(AfterAdd(g, m, fileName, say, line), m, LineParent(say, line), line)
  }

  /** The lines of a block in turn, each starting again from the block's SAY. */
  function LinesResult(g: Graph, m: map<string, int>, fileName: string, say: int, lines: seq<Line>): Option<Graph>
  {
    if lines == [] then Some(g)
    else
      match LinesResult(g, m, fileName, say, lines[..|lines| - 1])
      case None => None
      case Some(h) => LineResult(h, m, fileName, say, lines[|lines| - 1])
  }

  /** `parseBlock`: a block without a SAY makes `group` throw. */
  function BlockResult(g: Graph, m: map<string, int>, fileName: string, b: StructureBlock): Option<Graph>
  {
    if b.say.None? then None else LinesResult(g, m, fileName, b.say.value, b.lines)
  }

  /** `parseBegin`: the blocks in turn. */
  function BlocksResult(g: Graph, m: map<string, int>, fileName: string, blocks: seq<StructureBlock>): Option<Graph>
  {
    if blocks == [] then Some(g)
    else
      match BlocksResult(g, m, fileName, blocks[..|blocks| - 1])
      case None => None
      case Some(h) => BlockResult(h, m, fileName, blocks[|blocks| - 1])
  }

  /** `parse(file)`: internal IDs use the file name without its extension; a name without a dot throws. */
  function FileResult(g: Graph, m: map<string, int>, name: string, blocks: seq<StructureBlock>): Option<Graph>
  {
    match StripExtension(name)
    case None => None
    case Some(f) => BlocksResult(g, m, f, blocks)
  }

  // ------------------------------------------------------------ growth

  /** `h` has the keys of `g`, and every record of `g` with its identity and at least its edges. */
  predicate Grows(g: Graph, h: Graph)
  {
    g.Keys == h.Keys &&
    (forall k :: k in g ==>
      h[k].internalId == g[k].internalId && h[k].text == g[k].text && h[k].kind == g[k].kind && h[k].filename == g[k].filename &&
      h[k].neighbors == g[k].neighbors) &&
    (forall k, side, x :: k in g && x in g[k].Edges(side) ==> x in h[k].Edges(side))
  }

  lemma GrowsTrans(a: Graph, b: Graph, c: Graph)
    requires Grows(a, b) && Grows(b, c)
    ensures Grows(a, c)
  {
  }

  /** Adding one end of an edge only grows the graph, and the edge is there. */
  lemma AddGrows(g: Graph, a: int, side: Side, b: int)
    requires a in g && side != NeighborSide
    ensures Grows(g, g[a := g[a].Add(side, b)])
    ensures b in g[a := g[a].Add(side, b)][a].Edges(side)
  {
    var h := g[a := g[a].Add(side, b)];
    forall k, s, x | k in g && x in g[k].Edges(s)
      ensures x in h[k].Edges(s)
    {
      if k == a {
        assert Elems(h[k].Edges(side)) == Elems(g[k].Edges(side)) + {b};
      }
    }
  }

  /** Linking only grows the graph, and the edge is on both ends. */
  lemma LinkGrows(g: Graph, a: int, b: int)
    requires a in g && b in g
    ensures Grows(g, Linked(g, a, b, ChildSide))
    ensures b in Linked(g, a, b, ChildSide)[a].children && a in Linked(g, a, b, ChildSide)[b].parents
  {
    var h := Linked(g, a, b, ChildSide);
    LinkEdgesAt(g, a, b, ChildSide, a);
    LinkEdgesAt(g, a, b, ChildSide, b);
    assert h[a].Edges(ChildSide) == h[a].children && h[b].Edges(ParentSide) == h[b].parents;
    forall k | k in g
      ensures h[k].internalId == g[k].internalId && h[k].text == g[k].text
      ensures h[k].kind == g[k].kind && h[k].filename == g[k].filename && h[k].neighbors == g[k].neighbors
      ensures forall s, x :: x in g[k].Edges(s) ==> x in h[k].Edges(s)
    {
      LinkEdgesAt(g, a, b, ChildSide, k);
    }
  }

  /** The outcome of one step, seen from before it: a crash stays a crash, and a success grows the graph. */
  predicate Keeps(o1: Option<Graph>, o2: Option<Graph>)
  {
    o2.Some? ==> o1.Some? && Grows(o1.value, o2.value)
  }

  /** The same, with the graph invariant carried along when the internal IDs resolve. */
  predicate KeepsConsistent(o1: Option<Graph>, o2: Option<Graph>, m: map<string, int>)
  {
    Keeps(o1, o2) && (o2.Some? && Consistent(o1.value) && Resolves(m, o1.value) ==> Consistent(o2.value))
  }

  lemma KeepsTrans(a: Option<Graph>, b: Option<Graph>, c: Option<Graph>, m: map<string, int>)
    requires KeepsConsistent(a, b, m) && KeepsConsistent(b, c, m)
    ensures KeepsConsistent(a, c, m)
  {
    if c.Some? {
      GrowsTrans(a.value, b.value, c.value);
      if Consistent(a.value) && Resolves(m, a.value) {
        assert Resolves(m, b.value);
      }
    }
  }

  lemma LinkAfterKeeps(o: Option<Graph>, parent: int, child: Option<int>, m: map<string, int>)
    ensures KeepsConsistent(o, LinkAfter(o, parent, child), m)
  {
    if child.Some? && o.Some? && parent in o.value && child.value in o.value {
      LinkGrows(o.value, parent, child.value);
      if Consistent(o.value) {
        LinkConsistent(o.value, parent, child.value, ChildSide);
      }
    }
  }

  /** An internal ID that resolves links to its string; any other links to -1. */
  lemma ResolvingKeeps(g: Graph, m: map<string, int>, parent: int, internalId: string)
    ensures KeepsConsistent(Some(g), Resolving(g, m, parent, internalId), m)
    ensures Resolving(g, m, parent, internalId).Some? ==>
      var h := Resolving(g, m, parent, internalId).value;
      parent in h && Target(g, m, internalId) in h &&
      Target(g, m, internalId) in h[parent].children && parent in h[Target(g, m, internalId)].parents
  {
    if parent in g {
      if internalId in m && m[internalId] in g {
        LinkGrows(g, parent, m[internalId]);
        if Consistent(g) {
          LinkConsistent(g, parent, m[internalId], ChildSide);
        }
      } else {
        var g1 := if internalId in m then g[parent := g[parent].Add(ChildSide, m[internalId])] else g;
        if internalId in m {
          AddGrows(g, parent, ChildSide, m[internalId]);
        }
        if INVALID_ID in g1 {
          LinkGrows(g1, parent, INVALID_ID);
          GrowsTrans(g, g1, Linked(g1, parent, INVALID_ID, ChildSide));
          if Consistent(g) && Resolves(m, g) {
            assert g1 == g;
            LinkConsistent(g, parent, INVALID_ID, ChildSide);
          }
        }
      }
    }
  }

  lemma ResolveAfterKeeps(o: Option<Graph>, m: map<string, int>, parent: int, internalId: Option<string>)
    ensures KeepsConsistent(o, ResolveAfter(o, m, parent, internalId), m)
  {
    if o.Some? && internalId.Some? {
      ResolvingKeeps(o.value, m, parent, internalId.value);
    }
  }

  /** A step that finds an edge in place keeps it. */
  lemma GrowsKeepsEdge(o1: Option<Graph>, o2: Option<Graph>, a: int, b: int, m: map<string, int>)
    requires KeepsConsistent(o1, o2, m) && o2.Some? && a in o1.value && b in o1.value
    requires b in o1.value[a].children && a in o1.value[b].parents
    ensures a in o2.value && b in o2.value && b in o2.value[a].children && a in o2.value[b].parents
  {
    assert o1.value[a].Edges(ChildSide) == o1.value[a].children;
    assert o1.value[b].Edges(ParentSide) == o1.value[b].parents;
    assert o2.value[a].Edges(ChildSide) == o2.value[a].children;
    assert o2.value[b].Edges(ParentSide) == o2.value[b].parents;
  }

  // ------------------------------------------------------------ lines

  lemma FromAdd(g: Graph, m: map<string, int>, fileName: string, say: int, line: Line)
    ensures KeepsConsistent(AfterAdd(g, m, fileName, say, line), LineResult(g, m, fileName, say, line), m)
  {
    if line.extern.Some? {
      ResolveAfterKeeps(AfterAdd(g, m, fileName, say, line), m, LineParent(say, line), Some(ExternId(line.extern.value)));
    }
  }

  lemma FromJournal(g: Graph, m: map<string, int>, fileName: string, say: int, line: Line)
    ensures KeepsConsistent(AfterJournal(g, m, fileName, say, line), LineResult(g, m, fileName, say, line), m)
  {
    LinkAfterKeeps(AfterJournal(g, m, fileName, say, line), LineParent(say, line), line.addJournal, m);
    FromAdd(g, m, fileName, say, line);
    KeepsTrans(AfterJournal(g, m, fileName, say, line), AfterAdd(g, m, fileName, say, line), LineResult(g, m, fileName, say, line), m);
  }

  lemma FromGoto(g: Graph, m: map<string, int>, fileName: string, say: int, line: Line)
    ensures KeepsConsistent(AfterGoto(g, m, fileName, say, line), LineResult(g, m, fileName, say, line), m)
  {
    LinkAfterKeeps(AfterGoto(g, m, fileName, say, line), LineParent(say, line), line.journal, m);
    FromJournal(g, m, fileName, say, line);
    KeepsTrans(AfterGoto(g, m, fileName, say, line), AfterJournal(g, m, fileName, say, line), LineResult(g, m, fileName, say, line), m);
  }

  lemma FromReply(g: Graph, m: map<string, int>, fileName: string, say: int, line: Line)
    ensures KeepsConsistent(AfterReply(g, say, line), LineResult(g, m, fileName, say, line), m)
  {
    if line.gotoTarget.Some? {
      ResolveAfterKeeps(AfterReply(g, say, line), m, LineParent(say, line), GotoId(fileName, line.gotoTarget.value));
    }
    FromGoto(g, m, fileName, say, line);
    KeepsTrans(AfterReply(g, say, line), AfterGoto(g, m, fileName, say, line), LineResult(g, m, fileName, say, line), m);
  }

  /**
   * A line keeps the keys and the identity of every record and only adds
   * edges; when the graph is consistent and every internal ID names a
   * registered string, the graph stays consistent.
   */
  lemma LineKeeps(g: Graph, m: map<string, int>, fileName: string, say: int, line: Line)
    ensures KeepsConsistent(Some(g), LineResult(g, m, fileName, say, line), m)
  {
    LinkAfterKeeps(Some(g), say, line.reply, m);
    FromReply(g, m, fileName, say, line);
    KeepsTrans(Some(g), AfterReply(g, say, line), LineResult(g, m, fileName, say, line), m);
  }

  /** A REPLY that did not crash the line is a child of the SAY. */
  lemma ReplyLinked(g: Graph, m: map<string, int>, fileName: string, say: int, line: Line)
    requires LineResult(g, m, fileName, say, line).Some? && line.reply.Some?
    ensures var h := LineResult(g, m, fileName, say, line).value; var r := line.reply.value;
      say in h && r in h && r in h[say].children && say in h[r].parents
  {
    FromReply(g, m, fileName, say, line);
    LinkGrows(g, say, line.reply.value);
    GrowsKeepsEdge(AfterReply(g, say, line), LineResult(g, m, fileName, say, line), say, line.reply.value, m);
  }

  /** A GOTO links the line's parent to the string `<file>:<n>` names, or to -1 when nothing does. */
  lemma GotoLinked(g: Graph, m: map<string, int>, fileName: string, say: int, line: Line)
    requires LineResult(g, m, fileName, say, line).Some? && line.gotoTarget.Some?
    ensures GotoId(fileName, line.gotoTarget.value).Some?
    ensures var h := LineResult(g, m, fileName, say, line).value; var p := LineParent(say, line);
      var t := Target(g, m, GotoId(fileName, line.gotoTarget.value).value);
      p in h && t in h && t in h[p].children && p in h[t].parents
  {
    var o1 := AfterReply(g, say, line);
    var p := LineParent(say, line);
    var id := GotoId(fileName, line.gotoTarget.value).value;
    LinkAfterKeeps(Some(g), say, line.reply, m);
    FromGoto(g, m, fileName, say, line);
    var o2 := AfterGoto(g, m, fileName, say, line);
    assert o2 == Resolving(o1.value, m, p, id);
    ResolvingKeeps(o1.value, m, p, id);
    var t := Target(g, m, id);
    assert Target(o1.value, m, id) == t;
    var h2 := o2.value;
    assert p in h2 && t in h2 && t in h2[p].children && p in h2[t].parents;
    GrowsKeepsEdge(o2, LineResult(g, m, fileName, say, line), p, t, m);
  }

  /** A JOURNAL is a child of the line's parent. */
  lemma JournalLinked(g: Graph, m: map<string, int>, fileName: string, say: int, line: Line)
    requires LineResult(g, m, fileName, say, line).Some? && line.journal.Some?
    ensures var h := LineResult(g, m, fileName, say, line).value; var p := LineParent(say, line); var j := line.journal.value;
      p in h && j in h && j in h[p].children && p in h[j].parents
  {
    FromJournal(g, m, fileName, say, line);
    LinkGrows(AfterGoto(g, m, fileName, say, line).value, LineParent(say, line), line.journal.value);
    GrowsKeepsEdge(AfterJournal(g, m, fileName, say, line), LineResult(g, m, fileName, say, line), LineParent(say, line), line.journal.value, m);
  }

  /** An `AddJournalEntry` is a child of the line's parent. */
  lemma AddJournalLinked(g: Graph, m: map<string, int>, fileName: string, say: int, line: Line)
    requires LineResult(g, m, fileName, say, line).Some? && line.addJournal.Some?
    ensures var h := LineResult(g, m, fileName, say, line).value; var p := LineParent(say, line); var j := line.addJournal.value;
      p in h && j in h && j in h[p].children && p in h[j].parents
  {
    FromAdd(g, m, fileName, say, line);
    LinkGrows(AfterJournal(g, m, fileName, say, line).value, LineParent(say, line), line.addJournal.value);
    GrowsKeepsEdge(AfterAdd(g, m, fileName, say, line), LineResult(g, m, fileName, say, line), LineParent(say, line), line.addJournal.value, m);
  }

  /** An EXTERN links the line's parent to the string `F:n` names, or to -1 when nothing does. */
  lemma ExternLinked(g: Graph, m: map<string, int>, fileName: string, say: int, line: Line)
    requires LineResult(g, m, fileName, say, line).Some? && line.extern.Some?
    ensures var h := LineResult(g, m, fileName, say, line).value; var p := LineParent(say, line);
      var t := Target(g, m, ExternId(line.extern.value));
      p in h && t in h && t in h[p].children && p in h[t].parents
  {
    var o4 := AfterAdd(g, m, fileName, say, line);
    var p := LineParent(say, line);
    var id := ExternId(line.extern.value);
    LineKeepsUpTo(g, m, fileName, say, line);
    assert LineResult(g, m, fileName, say, line) == Resolving(o4.value, m, p, id);
    ResolvingKeeps(o4.value, m, p, id);
    assert Target(o4.value, m, id) == Target(g, m, id);
  }

  /** The steps before EXTERN keep the keys. */
  lemma LineKeepsUpTo(g: Graph, m: map<string, int>, fileName: string, say: int, line: Line)
    requires AfterAdd(g, m, fileName, say, line).Some?
    ensures AfterAdd(g, m, fileName, say, line).value.Keys == g.Keys
  {
    LinkAfterKeeps(Some(g), say, line.reply, m);
    if line.gotoTarget.Some? {
      ResolveAfterKeeps(AfterReply(g, say, line), m, LineParent(say, line), GotoId(fileName, line.gotoTarget.value));
    }
    LinkAfterKeeps(AfterGoto(g, m, fileName, say, line), LineParent(say, line), line.journal, m);
    LinkAfterKeeps(AfterJournal(g, m, fileName, say, line), LineParent(say, line), line.addJournal, m);
  }

  /** Everything a line names directly by string ID is registered, and its GOTO number is an int. */
  predicate LineRegistered(g: Graph, say: int, line: Line)
  {
    (line.reply.Some? ==> say in g && line.reply.value in g) &&
    (line.gotoTarget.Some? || line.journal.Some? || line.addJournal.Some? || line.extern.Some? ==>
      LineParent(say, line) in g) &&
    (line.gotoTarget.Some? ==> ParseInt(line.gotoTarget.value).Some?) &&
    (line.journal.Some? ==> line.journal.value in g) &&
    (line.addJournal.Some? ==> line.addJournal.value in g)
  }

  /** A line that did not crash named only registered strings. */
  lemma LineNeedsRegistered(g: Graph, m: map<string, int>, fileName: string, say: int, line: Line)
    requires LineResult(g, m, fileName, say, line).Some?
    ensures LineRegistered(g, say, line)
  {
    LinkAfterKeeps(Some(g), say, line.reply, m);
    FromReply(g, m, fileName, say, line);
    FromGoto(g, m, fileName, say, line);
    FromJournal(g, m, fileName, say, line);
    LineKeepsUpTo(g, m, fileName, say, line);
  }

  /** A crash at one step of a line is a crash of the line. */
  lemma CrashStays(g: Graph, m: map<string, int>, fileName: string, say: int, line: Line)
    ensures AfterReply(g, say, line).None? ==> AfterGoto(g, m, fileName, say, line).None?
    ensures AfterGoto(g, m, fileName, say, line).None? ==> AfterJournal(g, m, fileName, say, line).None?
    ensures AfterJournal(g, m, fileName, say, line).None? ==> AfterAdd(g, m, fileName, say, line).None?
    ensures AfterAdd(g, m, fileName, say, line).None? ==> LineResult(g, m, fileName, say, line).None?
  {
  }

  /** Only unregistered strings, an unparsable GOTO or a missing sentinel crash a line. */
  lemma RegisteredLineSucceeds(g: Graph, m: map<string, int>, fileName: string, say: int, line: Line)
    requires INVALID_ID in g && LineRegistered(g, say, line)
    ensures LineResult(g, m, fileName, say, line).Some?
  {
    var p := LineParent(say, line);
    LinkAfterOk(Some(g), say, line.reply);
    GotoStepOk(AfterReply(g, say, line), m, fileName, p, line);
    LinkAfterOk(AfterGoto(g, m, fileName, say, line), p, line.journal);
    LinkAfterOk(AfterJournal(g, m, fileName, say, line), p, line.addJournal);
    ExternStepOk(AfterAdd(g, m, fileName, say, line), m, p, line);
  }

  /** Linking registered strings never crashes and keeps the keys. */
  lemma LinkAfterOk(o: Option<Graph>, parent: int, child: Option<int>)
    requires o.Some? && (child.Some? ==> parent in o.value && child.value in o.value)
    ensures LinkAfter(o, parent, child).Some? && LinkAfter(o, parent, child).value.Keys == o.value.Keys
  {
  }

  /** With the sentinel and the parent registered, a reference by internal ID never crashes. */
  lemma ResolvingKeys(g: Graph, m: map<string, int>, parent: int, internalId: string)
    requires parent in g && INVALID_ID in g
    ensures Resolving(g, m, parent, internalId).Some? && Resolving(g, m, parent, internalId).value.Keys == g.Keys
  {
  }

  lemma GotoStepOk(o: Option<Graph>, m: map<string, int>, fileName: string, parent: int, line: Line)
    requires o.Some?
    requires line.gotoTarget.Some? ==> parent in o.value && INVALID_ID in o.value && ParseInt(line.gotoTarget.value).Some?
    ensures GotoStep(o, m, fileName, parent, line).Some? && GotoStep(o, m, fileName, parent, line).value.Keys == o.value.Keys
  {
    if line.gotoTarget.Some? {
      ResolvingKeys(o.value, m, parent, GotoId(fileName, line.gotoTarget.value).value);
    }
  }

  lemma ExternStepOk(o: Option<Graph>, m: map<string, int>, parent: int, line: Line)
    requires o.Some?
    requires line.extern.Some? ==> parent in o.value && INVALID_ID in o.value
    ensures ExternStep(o, m, parent, line).Some?
  {
    if line.extern.Some? {
      ResolvingKeys(o.value, m, parent, ExternId(line.extern.value));
    }
  }

  /** With the sentinel registered, a line crashes exactly when it names an unregistered string or an unparsable GOTO. */
  lemma LineSucceeds(g: Graph, m: map<string, int>, fileName: string, say: int, line: Line)
    requires INVALID_ID in g
    ensures LineResult(g, m, fileName, say, line).Some? <==> LineRegistered(g, say, line)
  {
    if LineResult(g, m, fileName, say, line).Some? {
      LineNeedsRegistered(g, m, fileName, say, line);
    }
    if LineRegistered(g, say, line) {
      RegisteredLineSucceeds(g, m, fileName, say, line);
    }
  }

  // ------------------------------------------------------------ blocks and files

  /** A crash in the first lines is a crash of the block. */
  /** The lines up to `i` and one more: the next line runs on what the earlier ones built. */
  lemma LinesSnoc(g: Graph, m: map<string, int>, fileName: string, say: int, lines: seq<Line>, i: nat)
    requires i < |lines|
    ensures LinesResult(g, m, fileName, say, lines[..i + 1]) ==
      match LinesResult(g, m, fileName, say, lines[..i])
      case None => None
      case Some(h) => LineResult(h, m, fileName, say, lines[i])
  {
    assert lines[..i + 1][..i] == lines[..i];
  }

  lemma {:induction false} LinesCrash(g: Graph, m: map<string, int>, fileName: string, say: int, lines: seq<Line>, i: nat)
    requires i <= |lines| && LinesResult(g, m, fileName, say, lines[..i]).None?
    ensures LinesResult(g, m, fileName, say, lines).None?
    decreases |lines| - i
  {
    if i < |lines| {
      assert lines[..i + 1][..i] == lines[..i];
      LinesCrash(g, m, fileName, say, lines, i + 1);
    } else {
      assert lines[..i] == lines;
    }
  }

  lemma {:induction false} BlocksCrash(g: Graph, m: map<string, int>, fileName: string, blocks: seq<StructureBlock>, i: nat)
    requires i <= |blocks| && BlocksResult(g, m, fileName, blocks[..i]).None?
    ensures BlocksResult(g, m, fileName, blocks).None?
    decreases |blocks| - i
  {
    if i < |blocks| {
      assert blocks[..i + 1][..i] == blocks[..i];
      BlocksCrash(g, m, fileName, blocks, i + 1);
    } else {
      assert blocks[..i] == blocks;
    }
  }

  /** The lines of a block keep the graph growing and, over resolving internal IDs, consistent. */
  lemma {:induction false} LinesKeep(g: Graph, m: map<string, int>, fileName: string, say: int, lines: seq<Line>)
    ensures KeepsConsistent(Some(g), LinesResult(g, m, fileName, say, lines), m)
    decreases |lines|
  {
    if lines != [] {
      var n := |lines| - 1;
      var o := LinesResult(g, m, fileName, say, lines[..n]);
      LinesKeep(g, m, fileName, say, lines[..n]);
      if o.Some? {
        LineKeeps(o.value, m, fileName, say, lines[n]);
        KeepsTrans(Some(g), o, LinesResult(g, m, fileName, say, lines), m);
      }
    }
  }

  /**
   * A dialog file keeps every key and the identity of every record, only
   * adds edges, and keeps the graph consistent when the internal IDs resolve.
   */
  lemma {:induction false} BlocksKeep(g: Graph, m: map<string, int>, fileName: string, blocks: seq<StructureBlock>)
    ensures KeepsConsistent(Some(g), BlocksResult(g, m, fileName, blocks), m)
    decreases |blocks|
  {
    if blocks != [] {
      var n := |blocks| - 1;
      var o := BlocksResult(g, m, fileName, blocks[..n]);
      BlocksKeep(g, m, fileName, blocks[..n]);
      if o.Some? && blocks[n].say.Some? {
        LinesKeep(o.value, m, fileName, blocks[n].say.value, blocks[n].lines);
        KeepsTrans(Some(g), o, BlocksResult(g, m, fileName, blocks), m);
      }
    }
  }

  lemma FileKeeps(g: Graph, m: map<string, int>, name: string, blocks: seq<StructureBlock>)
    ensures KeepsConsistent(Some(g), FileResult(g, m, name, blocks), m)
  {
    if StripExtension(name).Some? {
      BlocksKeep(g, m, StripExtension(name).value, blocks);
    }
  }

  // ------------------------------------------------------------ the parser

  /** A structure parser sharing the maps of its mode; it writes edges only. */
  class StructureParser {
    const maps: Registry

    constructor (maps: Registry)
      ensures this.maps == maps
    {
      this.maps := maps;
    }

    /**
     * `parse(file)`: the file name loses its extension, then `parseBegin`.
     * An ID group that `parseInt` rejects makes it throw.
     */
    method Parse(name: string, captured: seq<CapturedStructure>) returns (ok: bool)
      modifies maps
      ensures ok <==> StructureIdsParse(captured) && FileResult(old(maps.idsToDialogs), maps.internalIdsToIds, name, ReadStructure(captured)).Some?
      ensures ok ==> maps.idsToDialogs == FileResult(old(maps.idsToDialogs), maps.internalIdsToIds, name, ReadStructure(captured)).value
      ensures maps.internalIdsToIds == old(maps.internalIdsToIds) && maps.fileNamesToIds == old(maps.fileNamesToIds)
    {
      var fileName := StripExtension(name);
      if fileName.None? || !StructureIdsParse(captured) {
        return false;
      }
      ok := ParseBegin(fileName.value, ReadStructure(captured));
    }

    /** `parseBegin`: every block in turn. */
    method ParseBegin(fileName: string, blocks: seq<StructureBlock>) returns (ok: bool)
      modifies maps
      ensures ok <==> BlocksResult(old(maps.idsToDialogs), maps.internalIdsToIds, fileName, blocks).Some?
      ensures ok ==> maps.idsToDialogs == BlocksResult(old(maps.idsToDialogs), maps.internalIdsToIds, fileName, blocks).value
      ensures maps.internalIdsToIds == old(maps.internalIdsToIds) && maps.fileNamesToIds == old(maps.fileNamesToIds)
    {
      ghost var g := maps.idsToDialogs;
      var j := 0;
      while j < |blocks|
        invariant 0 <= j <= |blocks|
        invariant BlocksResult(g, maps.internalIdsToIds, fileName, blocks[..j]) == Some(maps.idsToDialogs)
        invariant maps.internalIdsToIds == old(maps.internalIdsToIds) && maps.fileNamesToIds == old(maps.fileNamesToIds)
      {
        assert blocks[..j + 1][..j] == blocks[..j];
        ok := ParseBlock(fileName, blocks[j]);
        if !ok {
          BlocksCrash(g, maps.internalIdsToIds, fileName, blocks, j + 1);
          return;
        }
        j := j + 1;
      }
      assert blocks[..j] == blocks;
      ok := true;
    }

    /** `parseBlock`: every line starts again from the block's first SAY. */
    method ParseBlock(fileName: string, b: StructureBlock) returns (ok: bool)
      modifies maps
      ensures ok <==> BlockResult(old(maps.idsToDialogs), maps.internalIdsToIds, fileName, b).Some?
      ensures ok ==> maps.idsToDialogs == BlockResult(old(maps.idsToDialogs), maps.internalIdsToIds, fileName, b).value
      ensures maps.internalIdsToIds == old(maps.internalIdsToIds) && maps.fileNamesToIds == old(maps.fileNamesToIds)
    {
      if b.say.None? {
        return false;
      }
      var id := b.say.value;
      ghost var g := maps.idsToDialogs;
      var i := 0;
      while i < |b.lines|
        invariant 0 <= i <= |b.lines|
        invariant LinesResult(g, maps.internalIdsToIds, fileName, id, b.lines[..i]) == Some(maps.idsToDialogs)
        invariant maps.internalIdsToIds == old(maps.internalIdsToIds) && maps.fileNamesToIds == old(maps.fileNamesToIds)
      {
        LinesSnoc(g, maps.internalIdsToIds, fileName, id, b.lines, i);
        ok := ParseLine(fileName, id, b.lines[i]);
        if !ok {
          LinesCrash(g, maps.internalIdsToIds, fileName, id, b.lines, i + 1);
          return;
        }
        i := i + 1;
      }
      assert b.lines[..i] == b.lines;
      ok := true;
    }

    /** `parseLine`: the REPLY, if any, becomes the parent of everything after it on the line. */
    method ParseLine(fileName: string, parentId: int, line: Line) returns (ok: bool)
      modifies maps
      ensures ok <==> LineResult(old(maps.idsToDialogs), maps.internalIdsToIds, fileName, parentId, line).Some?
      ensures ok ==> maps.idsToDialogs == LineResult(old(maps.idsToDialogs), maps.internalIdsToIds, fileName, parentId, line).value
      ensures maps.internalIdsToIds == old(maps.internalIdsToIds) && maps.fileNamesToIds == old(maps.fileNamesToIds)
    {
      ghost var g := maps.idsToDialogs;
      ghost var m := maps.internalIdsToIds;
      CrashStays(g, m, fileName, parentId, line);
      ok := LinkStep(parentId, line.reply);
      if !ok {
        return;
      }
      var parent := if line.reply.Some? then line.reply.value else parentId;
      assert AfterReply(g, parentId, line) == Some(maps.idsToDialogs);
      ok := GotoPart(fileName, parent, line);
      if !ok {
        return;
      }
      assert AfterGoto(g, m, fileName, parentId, line) == Some(maps.idsToDialogs);
      ok := LinkStep(parent, line.journal);
      if !ok {
        return;
      }
      assert AfterJournal(g, m, fileName, parentId, line) == Some(maps.idsToDialogs);
      ok := LinkStep(parent, line.addJournal);
      if !ok {
        return;
      }
      assert AfterAdd(g, m, fileName, parentId, line) == Some(maps.idsToDialogs);
      ok := ExternPart(parent, line);
    }

    /** One of REPLY, JOURNAL and `AddJournalEntry`, when the line has it. */
    method LinkStep(parent: int, child: Option<int>) returns (ok: bool)
      modifies maps
      ensures ok <==> LinkAfter(Some(old(maps.idsToDialogs)), parent, child).Some?
      ensures ok ==> maps.idsToDialogs == LinkAfter(Some(old(maps.idsToDialogs)), parent, child).value
      ensures maps.internalIdsToIds == old(maps.internalIdsToIds) && maps.fileNamesToIds == old(maps.fileNamesToIds)
    {
      ok := true;
      if child.Some? {
        ok := LinkChild(parent, child.value);
      }
    }

    /** The GOTO of a line, when it has one: `Integer.valueOf` of its number, then the `try`/`catch`. */
    method GotoPart(fileName: string, parent: int, line: Line) returns (ok: bool)
      modifies maps
      ensures ok <==> GotoStep(Some(old(maps.idsToDialogs)), maps.internalIdsToIds, fileName, parent, line).Some?
      ensures ok ==> maps.idsToDialogs == GotoStep(Some(old(maps.idsToDialogs)), maps.internalIdsToIds, fileName, parent, line).value
      ensures maps.internalIdsToIds == old(maps.internalIdsToIds) && maps.fileNamesToIds == old(maps.fileNamesToIds)
    {
      ok := true;
      if line.gotoTarget.Some? {
        var n := ParseInt(line.gotoTarget.value);
        if n.None? {
          return false;
        }
        ok := Resolve(parent, fileName + ":" + IntToString(n.value));
      }
    }

    /** The EXTERN of a line, when it has one. */
    method ExternPart(parent: int, line: Line) returns (ok: bool)
      modifies maps
      ensures ok <==> ExternStep(Some(old(maps.idsToDialogs)), maps.internalIdsToIds, parent, line).Some?
      ensures ok ==> maps.idsToDialogs == ExternStep(Some(old(maps.idsToDialogs)), maps.internalIdsToIds, parent, line).value
      ensures maps.internalIdsToIds == old(maps.internalIdsToIds) && maps.fileNamesToIds == old(maps.fileNamesToIds)
    {
      ok := true;
      if line.extern.Some? {
        var e := line.extern.value;
        ok := Resolve(parent, e.file + ":" + e.target);
      }
    }

    /** `get(parent).addChild(child); get(child).addParent(parent)`, failing where a `get` finds nothing. */
    method LinkChild(parent: int, child: int) returns (ok: bool)
      modifies maps
      ensures ok <==> Linking(old(maps.idsToDialogs), parent, child).Some?
      ensures ok ==> maps.idsToDialogs == Linking(old(maps.idsToDialogs), parent, child).value
      ensures maps.internalIdsToIds == old(maps.internalIdsToIds) && maps.fileNamesToIds == old(maps.fileNamesToIds)
    {
      if parent !in maps.idsToDialogs {
        return false;
      }
      maps.AddEdge(parent, ChildSide, child);
      if child !in maps.idsToDialogs {
        return false;
      }
      maps.AddEdge(child, ParentSide, parent);
      ok := true;
    }

    /** The `try`/`catch` of GOTO and EXTERN: link to the string the internal ID names, or else to -1. */
    method Resolve(parent: int, internalId: string) returns (ok: bool)
      modifies maps
      ensures ok <==> Resolving(old(maps.idsToDialogs), maps.internalIdsToIds, parent, internalId).Some?
      ensures ok ==> maps.idsToDialogs == Resolving(old(maps.idsToDialogs), maps.internalIdsToIds, parent, internalId).value
      ensures maps.internalIdsToIds == old(maps.internalIdsToIds) && maps.fileNamesToIds == old(maps.fileNamesToIds)
    {
      if parent !in maps.idsToDialogs {
        return false;
      }
      if internalId in maps.internalIdsToIds {
        var target := maps.internalIdsToIds[internalId];
        maps.AddEdge(parent, ChildSide, target);
        if target in maps.idsToDialogs {
          maps.AddEdge(target, ParentSide, parent);
          return true;
        }
      }
      // the catch block
      ok := LinkChild(parent, INVALID_ID);
    }
  }
}
