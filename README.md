# Translation-Tools: the dialog string graph and its satellites, in Dafny

Translation-Tools helps translators of Infinity Engine games. From decompiled
dialog (`.d`) and script (`.baf`) files it builds a graph of string records. A
record is keyed by its string ID and holds the IDs of its parents, its
children and, for script strings, its neighbours. The graph is then cut down
to a user-given ID range. It is drained into groups of strings that belong
together, and each group is ordered along the flow of the dialog. The TLK
variant does the same over the TLK-based dialog records. Smaller modes do the
following:

- The item, creature and 2DA table modes read the string IDs out of ITM, CRE
  and 2DA files and report those in the range.
- The progress and status image modes read the IDs of a translation project
  and paint a column of green and red rows, one row per ten strings.
- The progress mode also appends a line to a TXT progress table.

This project models that core:

- **Records and the registry.** `DialogString` holds the string record
  (`tlk.DialogString`, and its twin in the dialog package with neighbours).
  `StringGraph` holds the three shared maps of a mode (`idsToDialogs`,
  `internalIdsToIds`, `fileNamesToIds`) as one `Registry` object, and the
  range chop of `chopMappingsToRange`.
- **Parsers.** `ContentParsing` covers the dialog and TLK content parsers,
  `StructureParsing` the dialog structure parser, and `ScriptParsing` the
  two script parsers. Regular-expression matches arrive as the groups they
  capture, and numeric groups go through `Integer.parseInt`. `DialogMode`
  follows `dialog.Mode.invoke` from parser to parser and proves that the
  map it hands to the group creator is `Drainable`.
- **Linearisers.** `NonCycleLinearizing` covers the acyclic lineariser with
  its cycle check, roots, siblings, candidate rotation and deque.
  `CycleLinearizing` covers the two cyclic fallbacks (the set and the list
  version), and `ScriptLinearizing` the script lineariser.
- **Group creation.** `Grouping` holds the group set ordered by minimum, the
  non-dialog group and the recursive removal. `TlkGroupCreating` and
  `DialogGroupCreating` model the two group creators.
- **Satellite modes.**
  - `Items`, `Creatures` and `Tables` cover the item, creature and 2DA
    modes.
  - `LittleEndian` is the little-endian `ByteBuffer`.
  - `IdCompare` is the `compareTo` shared by items and creatures, and the
    `TreeSet` it orders.
  - `Reports` holds the shared report lines.
  - `Parameters` covers `checkParameters`.
  - `IdFiles` covers the CSV and TXT ID readers.
  - `Progress`, `StatusColumn` and `StatusImage` cover the progress and
    status image modes.
  - `JavaLang` models `Integer.parseInt`, `Integer.toString`,
    `String.compareTo`, `String.split`, `int` division and 32-bit
    wrap-around.
  - `Collections` models `LinkedHashSet`, `TreeSet` and `Collections.min`
    over sequences.

Code that changes state in place is modelled as classes and methods:

- the registry and the parsers;
- the linearisers, with the deque and its rotation;
- the group creators' drain loops;
- a table's ID set;
- the status column, an `array`;
- the progress state loops.

Each method is proved against a specification function. The properties are
then proved about those functions: symmetry and closure of the graph, what
the chop keeps, internal-ID naming, coverage and termination of the drain,
cycle detection, the permutation kept by the rotation, read-back of the
decoders and of the report lines, and the like.

## Model

| member | source | states |
|---|---|---|
| DialogString.TranslationString.Add | src/main/java/tlk/DialogString.java:64-75 | `LinkedHashSet.add` on one of the three edge sets: a new ID goes to the end of that set, and an ID already there leaves the whole record unchanged; the other two sets, the identity, text, kind and file name are kept |
| DialogString.TranslationString.Drop | src/main/java/tlk/DialogString.java:82-93 | `Set.remove`: the set loses exactly that ID and the rest keeps its order (it is the set with that ID filtered out, a subsequence of it); an absent ID leaves the record unchanged, and everything else of the record is kept |
| DialogString.EditValid | src/main/java/tlk/DialogString.java:24-25 | adding and removing keep every set duplicate-free |
| DialogString.DropAfterAdd | src/main/java/tlk/DialogString.java:64-93 | removing an ID that was just added, and was absent before, gives back the original record |
| DialogString.AddIdempotent | src/main/java/tlk/DialogString.java:64-75 | re-adding an existing ID changes nothing |
| DialogString.DropIdempotent | src/main/java/tlk/DialogString.java:82-93 | removing twice is removing once |
| DialogString.TranslationString.GetText | src/main/java/tlk/DialogString.java:119-121 | the result always ends with the text; it is the bare text exactly when the record comes from file `f`, and otherwise the record's own file name and `": "` stand in front of it, so a reader can tell a foreign string from the text alone |
| DialogString.CompareToAntisymmetric | src/main/java/tlk/DialogString.java:153-159 | swapping the operands of `compareTo` negates the result |
| DialogString.CompareToZero | src/main/java/tlk/DialogString.java:153-159 | `compareTo` is zero exactly on equal texts with equal internal IDs |
| DialogString.StringFactory.constructor | src/main/java/tlk/DialogString.java:19 | the counter starts at 0 |
| DialogString.StringFactory.Create | src/main/java/tlk/DialogString.java:38-57 | a record with the current counter as internal ID, the given text, kind and file name, and no edges; the counter goes up by one |
| DialogString.CreatedRecordsDiffer | src/main/java/tlk/DialogString.java:53-57 | records with different internal IDs never compare equal, whatever their texts, and compare in opposite directions |
| Collections.Insert | src/main/java/tlk/DialogString.java:64-66 | `LinkedHashSet.add`: the elements become the old ones plus the new one, the length grows by at most one, and a duplicate-free sequence stays duplicate-free |
| Collections.InsertFresh | src/main/java/tlk/DialogString.java:64-66 | an element that is not there yet goes to the end |
| Collections.Remove | src/main/java/tlk/DialogString.java:82-84 | every occurrence of the value goes, nothing else goes, and the rest keeps its order (a subsequence of the input) |
| Collections.LastIndex | src/main/java/tlk/linearizer/NonCycleDialogLinearizer.java:63-64 | the position of the last occurrence of a value, the first the descending iterator meets |
| Collections.RemoveIsFilterOut | src/main/java/tlk/DialogString.java:82-84 | removing one value is filtering out the set of that value |
| Collections.FilterOut | src/main/java/tlk/GroupCreator.java:167 | `removeAll`: exactly the elements not in the dropped set remain, in order (a subsequence of the input), without repeats if the input had none |
| Collections.AddAll | src/main/java/tlk/linearizer/CycleDialogLinearizer.java:39-49 | `addAll`: the new elements of the argument, in its order, go to the end |
| Collections.Dedup | src/main/java/tlk/linearizer/CycleDialogLinearizer.java:31 | `new LinkedHashSet<>(t)`: the first occurrence of each element, in order, is duplicate-free and has the same elements |
| Collections.SetMin | src/main/java/tlk/GroupCreator.java:55 | the smallest element of a non-empty set (`firstKey`, `Collections.min`): a member, and at most every member |
| Collections.SortedSeq | src/main/java/tlk/linearizer/NonCycleDialogLinearizer.java:140-149 | the iteration order of a `TreeSet<Integer>`: strictly increasing, with exactly the set's elements |
| Collections.FilterIn | src/main/java/tlk/DialogStructureMode.java:79-88 | `removeIf(i -> !keep.contains(i))`: exactly the elements in `keep` remain, in order (a subsequence of the input), without repeats if the input had none |
| StringGraph.Linked | src/main/java/dialog/parser/DialogStructureParser.java:131-132 | writing an edge on both ends keeps the keys |
| StringGraph.LinkEdgesAt | src/main/java/dialog/parser/DialogStructureParser.java:131-132 | after linking `a` to `b`, a record's sets gain only `b` in `a`'s set on that side and `a` in `b`'s opposite set; identity, text, kind and file name are kept |
| StringGraph.LinkSymmetric | src/main/java/dialog/parser/DialogStructureParser.java:131-132 | linking two registered strings keeps every edge recorded at both ends |
| StringGraph.LinkClosed | src/main/java/dialog/parser/DialogStructureParser.java:131-132 | linking two registered strings adds no dangling reference |
| StringGraph.LinkWellFormed | src/main/java/dialog/parser/DialogStructureParser.java:131-132 | linking two registered strings keeps every edge set duplicate-free |
| StringGraph.LinkConsistent | src/main/java/dialog/parser/DialogStructureParser.java:131-132 | linking keeps the graph closed, symmetric and duplicate-free |
| StringGraph.Unlink | src/main/java/dialog/Mode.java:70-84 | one removal of the chop loop drops exactly the key `x` |
| StringGraph.UnlinkStrip | src/main/java/dialog/Mode.java:70-84 | on a symmetric graph, removing `x` with its back-references from a graph already stripped of `drop` strips it of `drop + {x}` |
| StringGraph.ChoppedKeys | src/main/java/dialog/Mode.java:70-84 | after the chop the keys are exactly the old keys inside `[lo, hi]` |
| StringGraph.ChoppedRecords | src/main/java/tlk/DialogStructureMode.java:66-77 | a surviving record keeps identity, file name, text and kind, and each of its sets becomes the old set restricted to the survivors, in the old order |
| StringGraph.ChoppedClosed | src/main/java/tlk/DialogStructureMode.java:68-74 | no survivor refers to a removed ID |
| StringGraph.ChoppedSymmetric | src/main/java/dialog/DialogStructureMode.java:72-82 | the chop keeps every surviving edge recorded at both ends |
| StringGraph.ChoppedWellFormed | src/main/java/dialog/DialogStructureMode.java:72-82 | the chop keeps every set duplicate-free |
| StringGraph.ChoppedConsistent | src/main/java/dialog/DialogStructureMode.java:65-97 | the chop keeps the graph consistent |
| StringGraph.ChopExample | src/main/java/dialog/Mode.java:70-84 | with range `[100, 200]` and an edge 50 -> 150, 50 goes and 150 loses its parent |
| StringGraph.Registry.constructor | src/main/java/dialog/Mode.java:120-122 | the three maps start empty |
| StringGraph.Registry.PrepareMappings | src/main/java/dialog/Mode.java:120-122 | `-1` holds an ERROR record "INVALID REFERENCE" with an empty file name and the next internal ID; the other maps are unchanged |
| StringGraph.Registry.Link | src/main/java/dialog/parser/DialogStructureParser.java:131-132 | the map becomes `Linked` of the old map; the other maps are unchanged |
| StringGraph.Registry.AddEdge | src/main/java/dialog/parser/ScriptStructureParser.java:63 | one end of an edge: only record `a` changes, by `Add` |
| StringGraph.Registry.DetachAll | src/main/java/tlk/DialogStructureMode.java:68-70 | every record named in `ids` loses `x` from the given set |
| StringGraph.Registry.Remove | src/main/java/dialog/Mode.java:72-84 | the children lose parent `x`, the parents lose child `x`, the neighbours lose neighbour `x`, then `x` goes: the map becomes `Unlink` of the old one |
| StringGraph.Registry.ChopMappingsToRange | src/main/java/dialog/Mode.java:65-96 | the map becomes `Chopped(old, lo, hi)` and the file lists `ChopFiles` of the old ones over the surviving keys; the TLK chop is the case without neighbours |
| StringGraph.Registry.FilterFileLists | src/main/java/tlk/DialogStructureMode.java:79-88 | each file list keeps its registered IDs, and an emptied list goes |
| StringGraph.StripClosed | src/main/java/tlk/DialogStructureMode.java:66-77 | stripping keys from a closed graph leaves it closed |
| ContentParsing.StripExtension | src/main/java/dialog/parser/DialogContentParser.java:63 | `substring(0, lastIndexOf('.'))`: the prefix before the last dot, with no dot after it; `None` (the exception) exactly when there is no dot |
| ContentParsing.SayAt | src/main/java/dialog/parser/DialogContentParser.java:119-126 | a block's first registration is its SAY, under the block's internal ID `<file>:<n>`, kind DIALOG |
| ContentParsing.ReplyAt | src/main/java/dialog/parser/DialogContentParser.java:130-140 | the i-th REPLY is registered under `<block>.<i>`, kind DIALOG |
| ContentParsing.AddJournalAt | src/main/java/dialog/parser/DialogContentParser.java:146-158 | the k-th `AddJournalEntry` is registered under `<block>.Journal.<k>`, kind JOURNAL, with the placeholder text |
| ContentParsing.JournalAt | src/main/java/dialog/parser/DialogContentParser.java:161-171 | the l-th JOURNAL goes on with the shared counter: `<block>.Journal.<k+l>` for k `AddJournalEntry` matches |
| ContentParsing.FileSnoc | src/main/java/dialog/parser/DialogContentParser.java:90-100 | one more block appends its registrations and its SAY |
| ContentParsing.RegisteredKeys | src/main/java/dialog/parser/DialogContentParser.java:125 | after the `put`s the keys are the old keys and the registered IDs |
| ContentParsing.RegisteredLast | src/main/java/dialog/parser/DialogContentParser.java:125 | `put` replaces: a registered ID holds the fresh, edge-free record of its last registration |
| ContentParsing.RegisteredUntouched | src/main/java/dialog/parser/DialogContentParser.java:125 | an ID that no registration names keeps its record |
| ContentParsing.InternalsKeys | src/main/java/dialog/parser/DialogContentParser.java:126 | the internal IDs are the old ones plus the registered ones |
| ContentParsing.InternalsLast | src/main/java/dialog/parser/DialogContentParser.java:126 | a registered internal ID names the string of its last registration |
| ContentParsing.RegisteredKeeps | src/main/java/dialog/parser/DialogContentParser.java:122-126 | registration keeps every record edge-free and every internal ID resolving to a key |
| ContentParsing.ReplyIdsDistinct | src/main/java/dialog/parser/DialogContentParser.java:134 | REPLY internal IDs differ from each other and from the block's own |
| ContentParsing.JournalIdsDistinct | src/main/java/dialog/parser/DialogContentParser.java:150-164 | journal internal IDs differ from each other, from the block's own and from every REPLY's |
| ContentParsing.BlockInternalIdsDistinct | src/main/java/dialog/parser/DialogContentParser.java:112-172 | the strings of one block all get different internal IDs |
| ContentParsing.BlockNaming | src/main/java/dialog/parser/DialogContentParser.java:112-172 | after a block, each of its internal IDs names the string registered under it |
| ContentParsing.SayNaming | src/main/java/dialog/parser/DialogContentParser.java:120-126 | the block's internal ID names its SAY |
| ContentParsing.ContentParser.constructor | src/main/java/dialog/parser/DialogContentParser.java:50-55 | the parser shares the mode's maps and the record factory |
| ContentParsing.ReadBlockMeaning | src/main/java/dialog/parser/DialogContentParser.java:118-161 | on what `\d+` captures, `Integer.parseInt` accepts every ID of a block exactly when none is above `Integer.MAX_VALUE`; the block read then has each ID as the decimal value of its digits, with its text, and the same begin number and match counts |
| ContentParsing.ContentParser.ParseDialogFile | src/main/java/dialog/parser/DialogContentParser.java:58-65 | succeeds exactly when the file name has a dot, `parseInt` accepts every captured ID, and every block has a SAY; then the maps are the registrations of every block under the name without its extension, the file's list is its SAY IDs |
| ContentParsing.ContentParser.ParseTlkFile | src/main/java/tlk/ContentParser.java:64-74 | the same with the name captured from `// argument : (.*)\.DLG`; no capture, or an ID `parseInt` rejects, makes it fail |
| ContentParsing.ContentParser.ParseBegin | src/main/java/dialog/parser/DialogContentParser.java:85-101 | the file's list starts empty; every block is registered in turn and the counter goes up by the number of registrations; a block without a SAY fails |
| ContentParsing.ContentParser.Put | src/main/java/dialog/parser/DialogContentParser.java:136-139 | one string: `create`, then `put` under its ID and its internal ID |
| ContentParsing.ContentParser.ParseBlock | src/main/java/dialog/parser/DialogContentParser.java:112-172 | a block's registrations in order, and its SAY appended to the file's list |
| ContentParsing.ContentParser.ParseReplies | src/main/java/dialog/parser/DialogContentParser.java:130-140 | the REPLY loop registers `ReplyRegistrations` |
| ContentParsing.ContentParser.ParseAddJournals | src/main/java/dialog/parser/DialogContentParser.java:143-158 | the `AddJournalEntry` loop registers `AddJournalRegistrations` |
| ContentParsing.ContentParser.ParseJournals | src/main/java/dialog/parser/DialogContentParser.java:161-171 | the JOURNAL loop registers `JournalRegistrations` from the counter the previous loop left |
| StructureParsing.ParsedMeaning | src/main/java/dialog/parser/DialogStructureParser.java:106 | on a group `\d+` captured, `Integer.parseInt` throws exactly when the number is above `Integer.MAX_VALUE`, and otherwise gives the decimal value of the digits; an absent group stays absent |
| StructureParsing.ReadLineMeaning | src/main/java/dialog/parser/DialogStructureParser.java:124-167 | a line's REPLY, JOURNAL and `AddJournalEntry` numbers parse exactly when none is above `Integer.MAX_VALUE`; the line read keeps its GOTO and EXTERN groups and gets each number as the value of its digits |
| StructureParsing.ReadStructureMeaning | src/main/java/dialog/parser/DialogStructureParser.java:99-113 | the parser reads every ID of a file without a throw exactly when every block is within `int` range; each block then becomes its SAY number and its lines read one by one |
| StructureParsing.AddGrows | src/main/java/dialog/parser/DialogStructureParser.java:131 | adding one end of a parent or child edge only grows the graph (keys, identities, texts, kinds, file names and neighbour sets kept, no edge lost), and the edge is there |
| StructureParsing.LinkGrows | src/main/java/dialog/parser/DialogStructureParser.java:131-132 | linking only grows the graph, and the parent gains the child and the child the parent |
| StructureParsing.ResolvingKeeps | src/main/java/dialog/parser/DialogStructureParser.java:142-150 | the `try`/`catch` of a reference keeps the graph growing and consistent, and links the parent to the string the internal ID names, or to -1 when nothing does |
| StructureParsing.LineKeeps | src/main/java/dialog/parser/DialogStructureParser.java:124-188 | a line keeps the keys and every record's identity, only adds edges, and keeps a consistent graph consistent while the internal IDs resolve to keys |
| StructureParsing.ReplyLinked | src/main/java/dialog/parser/DialogStructureParser.java:127-135 | a REPLY that did not crash the line is a child of the block's SAY, on both ends |
| StructureParsing.GotoLinked | src/main/java/dialog/parser/DialogStructureParser.java:139-150 | `GOTO n` links the line's parent (the REPLY, else the SAY) to the string `<file>:<Integer.valueOf(n)>` names, or to -1 when nothing does |
| StructureParsing.JournalLinked | src/main/java/dialog/parser/DialogStructureParser.java:154-161 | a JOURNAL is a child of the line's parent, on both ends |
| StructureParsing.AddJournalLinked | src/main/java/dialog/parser/DialogStructureParser.java:164-171 | an `AddJournalEntry` is a child of the line's parent, on both ends |
| StructureParsing.ExternLinked | src/main/java/dialog/parser/DialogStructureParser.java:174-187 | `EXTERN ~F~ n` links the line's parent to the string `F:n` names, or to -1 when nothing does |
| StructureParsing.LineNeedsRegistered | src/main/java/dialog/parser/DialogStructureParser.java:131-132 | a line that did not crash named only registered strings |
| StructureParsing.CrashStays | src/main/java/dialog/parser/DialogStructureParser.java:124-188 | a crash at one step of a line is a crash of the whole line |
| StructureParsing.LineSucceeds | src/main/java/dialog/parser/DialogStructureParser.java:124-188 | with the sentinel registered, a line whose other numbers `ReadLine` has read crashes exactly when it names an unregistered string or an unparsable GOTO number |
| StructureParsing.LinesCrash | src/main/java/dialog/parser/DialogStructureParser.java:109-112 | a crash in the first lines of a block is a crash of the block |
| StructureParsing.BlocksCrash | src/main/java/dialog/parser/DialogStructureParser.java:81-89 | a crash in the first blocks is a crash of the file |
| StructureParsing.LinesKeep | src/main/java/dialog/parser/DialogStructureParser.java:99-113 | every line of a block starts from the block's first SAY; the lines keep the graph growing and consistent |
| StructureParsing.BlocksKeep | src/main/java/dialog/parser/DialogStructureParser.java:78-90 | a file keeps every key and record identity, only adds edges, and keeps a consistent graph consistent |
| StructureParsing.FileKeeps | src/main/java/dialog/parser/DialogStructureParser.java:52-58 | the same for `parse`, whose internal IDs use the name without its last extension |
| StructureParsing.StructureParser.constructor | src/main/java/dialog/parser/DialogStructureParser.java:45-49 | the parser shares the mode's maps |
| StructureParsing.StructureParser.Parse | src/main/java/dialog/parser/DialogStructureParser.java:52-58 | succeeds exactly when `parseInt` accepts every captured REPLY, JOURNAL, `AddJournalEntry` and SAY number and the file's model result over the numbers read exists, and the map becomes it; the internal IDs and the file lists are unchanged |
| StructureParsing.StructureParser.ParseBegin | src/main/java/dialog/parser/DialogStructureParser.java:78-90 | every block in turn, against `BlocksResult` |
| StructureParsing.StructureParser.ParseBlock | src/main/java/dialog/parser/DialogStructureParser.java:99-113 | every line with the block's SAY as parent, against `BlockResult` |
| StructureParsing.StructureParser.ParseLine | src/main/java/dialog/parser/DialogStructureParser.java:124-188 | the five find-once steps of a line, against `LineResult` |
| StructureParsing.StructureParser.LinkStep | src/main/java/dialog/parser/DialogStructureParser.java:154-171 | one of REPLY, JOURNAL and `AddJournalEntry` when the line has it, against `LinkAfter` |
| StructureParsing.StructureParser.GotoPart | src/main/java/dialog/parser/DialogStructureParser.java:138-151 | the GOTO of a line, against `GotoStep` |
| StructureParsing.StructureParser.ExternPart | src/main/java/dialog/parser/DialogStructureParser.java:174-187 | the EXTERN of a line, against `ExternStep` |
| StructureParsing.StructureParser.LinkChild | src/main/java/dialog/parser/DialogStructureParser.java:131-132 | `get(parent).addChild(child); get(child).addParent(parent)`, failing where a `get` finds nothing |
| StructureParsing.StructureParser.Resolve | src/main/java/dialog/parser/DialogStructureParser.java:142-150 | the `try`/`catch`, against `Resolving` |
| ScriptParsing.InsertSorted | src/main/java/dialog/parser/ScriptContentParser.java:124 | one insertion step keeps the list ascending and adds exactly the new element |
| ScriptParsing.Sort | src/main/java/dialog/parser/ScriptContentParser.java:124 | `Collections.sort`: ascending, and a permutation of its input |
| ScriptParsing.SortNoDup | src/main/java/dialog/parser/ScriptContentParser.java:124 | sorting a duplicate-free list gives a strictly increasing list with the same elements and length |
| ScriptParsing.ScanAllSucceeds | src/main/java/dialog/parser/ScriptContentParser.java:73-76 | a loop throws exactly when one of its IDs is not an `int` |
| ScriptParsing.ScanAllKeys | src/main/java/dialog/parser/ScriptContentParser.java:77-84 | after a loop every ID it names is a key and nothing else was added |
| ScriptParsing.ScriptContentMeaning | src/main/java/dialog/parser/ScriptContentParser.java:63-130 | records registered before are never replaced; the new keys are the call IDs not known before; the file's list is those new IDs, each once, ascending; each new record is edge-free, a script string, and from this file |
| ScriptParsing.ScriptContentSucceeds | src/main/java/dialog/parser/ScriptContentParser.java:73-112 | `parse` throws exactly when some call's ID does not fit an `int` |
| ScriptParsing.ScriptContentParser.constructor | src/main/java/dialog/parser/ScriptContentParser.java:50-54 | the parser shares the mode's maps and the record factory |
| ScriptParsing.ScriptContentParser.Parse | src/main/java/dialog/parser/ScriptContentParser.java:63-130 | the three loops, the sort and the conditional file entry, against `Scanned` and `ScriptFiles` |
| ScriptParsing.ScriptContentParser.Register | src/main/java/dialog/parser/ScriptContentParser.java:72-86 | one `while (matcher.find())` loop, against `ScanAll` |
| ScriptParsing.ScriptIds | src/main/java/dialog/parser/ScriptStructureParser.java:51-58 | the intended filter: `None` exactly when a listed ID has no record; otherwise the listed IDs whose record is a script string, duplicate-free when the list is |
| ScriptParsing.CliqueAt | src/main/java/dialog/parser/ScriptStructureParser.java:60-66 | one record: only its neighbour set may change, and it gains exactly the other listed IDs |
| ScriptParsing.CliqueMeaning | src/main/java/dialog/parser/ScriptStructureParser.java:60-66 | only neighbour sets change; `b` is a new neighbour of `a` exactly when both are listed and `a != b`, so no ID becomes its own neighbour |
| ScriptParsing.CliqueConsistent | src/main/java/dialog/parser/ScriptStructureParser.java:60-66 | the clique keeps the graph closed, symmetric and duplicate-free |
| ScriptParsing.ScriptStructureMeaning | src/main/java/dialog/parser/ScriptStructureParser.java:45-67 | a file without an entry changes nothing; otherwise it throws exactly when its list names an unregistered ID, and else two distinct listed script strings become each other's neighbours, with the keys kept and consistency preserved |
| ScriptParsing.ScriptStructureParser.constructor | src/main/java/dialog/parser/ScriptStructureParser.java:34-38 | the parser shares the mode's maps |
| ScriptParsing.ScriptStructureParser.Parse | src/main/java/dialog/parser/ScriptStructureParser.java:45-67 | the early return, the filter and the nested loops, against `ScriptStructure` |
| ScriptParsing.ScriptStructureParser.FilterScripts | src/main/java/dialog/parser/ScriptStructureParser.java:51-58 | the filter loop as intended, against `ScriptIds` |
| ScriptParsing.ScriptStructureParser.Befriend | src/main/java/dialog/parser/ScriptStructureParser.java:60-66 | the nested loops, against `Clique` |
| ScriptParsing.ScriptStructureParser.LinkNeighbors | src/main/java/dialog/parser/ScriptStructureParser.java:61-65 | the inner loop: record `a` gains every other listed ID |
| ScriptParsing.FilterAsWrittenAgrees | src/main/java/dialog/parser/ScriptStructureParser.java:52-58 | when the as-written loop (removal inside the for-each) does not throw, it leaves exactly the intended filter |
| ScriptParsing.FilterAsWrittenThrows | src/main/java/dialog/parser/ScriptStructureParser.java:52-58 | a dialog ID followed by a script ID makes the as-written loop throw, where the intended filter keeps the script ID |
| DialogMode.PreparedPhase | src/main/java/dialog/Mode.java:120-122 | after `prepareMappings` the only record is the ERROR sentinel -1; every record is edge-free, none is a script string, and no internal ID is registered |
| DialogMode.FileRegistrationsKinds | src/main/java/dialog/parser/DialogContentParser.java:112-172 | a dialog file registers DIALOG and JOURNAL strings only |
| DialogMode.RegisteredNoScripts | src/main/java/dialog/parser/DialogContentParser.java:125 | `put`s of strings that are not script strings add no script string |
| DialogMode.ContentKeepsPhase | src/main/java/dialog/Mode.java:164-165 | the content parser of a dialog file keeps every record edge-free, no script string, and every internal ID naming a key |
| DialogMode.ContentEndsPhase | src/main/java/dialog/Mode.java:166-167 | edge-free records are closed, symmetric, duplicate-free and separated, so the structure parser starts on a map it can link |
| DialogMode.StructureKeepsPhase | src/main/java/dialog/Mode.java:166-167 | the structure parser of a dialog file keeps the graph invariant, writes no neighbour and adds no script string, so the map stays separated |
| DialogMode.BareScriptsKeepDrainable | src/main/java/dialog/parser/ScriptContentParser.java:77-84 | putting edge-free script strings beside the records keeps the graph invariant and the separation |
| DialogMode.ScriptContentKeepsDrainable | src/main/java/dialog/Mode.java:169-174 | a script content parse keeps the map closed, symmetric, duplicate-free and separated |
| DialogMode.ScriptStructureKeepsDrainable | src/main/java/dialog/Mode.java:171-176 | a script structure parse keeps the map closed, symmetric, duplicate-free and separated: only script strings gain neighbours, and no parent or child changes |
| CycleLinearizing.Expand | src/main/java/dialog/linearizer/CycleDialogLinearizer.java:46-67 | `createOrder(id)` on the copy: what remains is a part of the copy with `id` gone, never larger |
| CycleLinearizing.ExpandAll | src/main/java/dialog/linearizer/CycleDialogLinearizer.java:49-53 | a loop of expansions: what remains is a part of the copy with every one of the IDs gone |
| CycleLinearizing.ExpandUnfold | src/main/java/dialog/linearizer/CycleDialogLinearizer.java:46-67 | a registered ID emits the expansions of its parents, itself, its children, then the expansions of its children, on the copy that shrinks in between |
| CycleLinearizing.ExpandMeaning | src/main/java/dialog/linearizer/CycleDialogLinearizer.java:46-67 | an expansion emits exactly the IDs it deleted and their children, emits the seed exactly when the seed was in the copy, and leaves no parent or child of a deleted ID behind |
| CycleLinearizing.ExpandAllMeaning | src/main/java/dialog/linearizer/CycleDialogLinearizer.java:49-65 | the same for a loop of expansions |
| CycleLinearizing.ListVersionRepeats | src/main/java/dialog/linearizer/CycleDialogLinearizer.java:55-61 | the list version emits an ID more than once: two strings that are each other's parent and child give 6, 5, 5, 6 |
| CycleLinearizing.SetCycleLinearizer.constructor | src/main/java/tlk/linearizer/CycleDialogLinearizer.java:13 | the private copy starts empty |
| CycleLinearizing.SetCycleLinearizer.Linearize | src/main/java/tlk/linearizer/CycleDialogLinearizer.java:16-19 | an empty group has no first key; otherwise the result is the list version's order from the smallest key with the repetitions dropped |
| CycleLinearizing.SetCycleLinearizer.CreateOrder | src/main/java/tlk/linearizer/CycleDialogLinearizer.java:30-51 | the `LinkedHashSet` recursion emits `Dedup` of the list version and leaves the copy as the list version does |
| CycleLinearizing.SetCycleLinearizer.AddEach | src/main/java/tlk/linearizer/CycleDialogLinearizer.java:39-49 | `result.addAll(createOrder(each))` for each ID, against `ExpandAll` |
| CycleLinearizing.ListCycleLinearizer.constructor | src/main/java/dialog/linearizer/CycleDialogLinearizer.java:20-22 | `getInstance`: the private copy starts empty |
| CycleLinearizing.ListCycleLinearizer.Linearize | src/main/java/dialog/linearizer/CycleDialogLinearizer.java:32-35 | an empty group has no first key; otherwise the result is `Expand` from the smallest key |
| CycleLinearizing.ListCycleLinearizer.CreateOrder | src/main/java/dialog/linearizer/CycleDialogLinearizer.java:46-67 | the `LinkedList` recursion, against `Expand` |
| CycleLinearizing.ListCycleLinearizer.AddEach | src/main/java/dialog/linearizer/CycleDialogLinearizer.java:49-53 | `result.addAll(createOrder(each))` for each ID, against `ExpandAll` |
| NonCycleLinearizing.ConsistentIsFamilyClosed | src/main/java/tlk/linearizer/NonCycleDialogLinearizer.java:61 | a graph the parsers keep consistent gives every `get` of the lineariser a record |
| NonCycleLinearizing.AnyCyclicSome | src/main/java/tlk/linearizer/NonCycleDialogLinearizer.java:164-171 | the loop over the children finds a cycle exactly when one of the children reaches one |
| NonCycleLinearizing.CyclicWitness | src/main/java/tlk/linearizer/NonCycleDialogLinearizer.java:158-172 | a cycle found comes with a walk along child edges that meets a predecessor or repeats an ID |
| NonCycleLinearizing.LassoCyclic | src/main/java/tlk/linearizer/NonCycleDialogLinearizer.java:158-172 | every such walk is found |
| NonCycleLinearizing.CyclicMeaning | src/main/java/tlk/linearizer/NonCycleDialogLinearizer.java:158-172 | `checkForCycles(id, P)` is true exactly when a walk from `id` along child edges closes a loop or meets `P` |
| NonCycleLinearizing.TriangleIsCyclic | src/main/java/tlk/linearizer/NonCycleDialogLinearizer.java:158-172 | three strings in a ring are a cycle |
| NonCycleLinearizing.FanIsAcyclic | src/main/java/tlk/linearizer/NonCycleDialogLinearizer.java:158-172 | a parent with two children has no cycle from any key |
| NonCycleLinearizing.Roots | src/main/java/tlk/linearizer/NonCycleDialogLinearizer.java:140-149 | the keys without parents, strictly ascending |
| NonCycleLinearizing.ChildrenOfMeaning | src/main/java/tlk/linearizer/NonCycleDialogLinearizer.java:59-62 | the collected children are exactly the children of the siblings |
| NonCycleLinearizing.SiblingsMeaning | src/main/java/tlk/linearizer/NonCycleDialogLinearizer.java:80-90 | the siblings are duplicate-free keys and include the ID itself; for an ID with parents they are exactly the children of its parents |
| NonCycleLinearizing.NotCandidate | src/main/java/tlk/linearizer/NonCycleDialogLinearizer.java:118-124 | a parent of a parent's child that is not yet emitted makes the front no candidate |
| NonCycleLinearizing.RotatePermutes | src/main/java/tlk/linearizer/NonCycleDialogLinearizer.java:104 | `addLast(removeFirst())`, repeated, keeps every element of the deque as often as it was there |
| NonCycleLinearizing.FirstCandidateMeaning | src/main/java/tlk/linearizer/NonCycleDialogLinearizer.java:109-132 | the first position among the tries that holds a candidate, with none before it |
| NonCycleLinearizing.RotatedMeaning | src/main/java/tlk/linearizer/NonCycleDialogLinearizer.java:99-133 | `rotateToCandidate(deque, visited, 0)` permutes the deque and stops at a candidate or, when the deque holds none, at its smallest ID |
| NonCycleLinearizing.PushFrontElems | src/main/java/tlk/linearizer/NonCycleDialogLinearizer.java:63-69 | the pushes add exactly the children neither queued nor emitted, and keep the deque duplicate-free |
| NonCycleLinearizing.NewChildren | src/main/java/tlk/linearizer/NonCycleDialogLinearizer.java:59-69 | the children pushed: exactly the collected ones outside the dropped set, each once |
| NonCycleLinearizing.NewChildrenOrder | src/main/java/tlk/linearizer/NonCycleDialogLinearizer.java:63-69 | they come in the order of their last occurrences in the collected list |
| NonCycleLinearizing.NewChildrenDistinct | src/main/java/tlk/linearizer/NonCycleDialogLinearizer.java:63-69 | when no child is collected twice, they are the collected list with the dropped ones left out, in the order collected |
| NonCycleLinearizing.PushFrontOrder | src/main/java/tlk/linearizer/NonCycleDialogLinearizer.java:63-69 | the reverse iteration with `addFirst` puts those new children, neither queued nor emitted, each at the place of its last occurrence, in front of the old deque |
| NonCycleLinearizing.PushFrontDistinct | src/main/java/tlk/linearizer/NonCycleDialogLinearizer.java:63-69 | distinct collected children go in front of the old deque in the order collected |
| NonCycleLinearizing.PushFrontRepeated | src/main/java/tlk/linearizer/NonCycleDialogLinearizer.java:59-69 | a child shared by two siblings, collected as 3, 4, 3, makes the deque start 4, 3 |
| NonCycleLinearizing.StepMoves | src/main/java/tlk/linearizer/NonCycleDialogLinearizer.java:47-69 | one pass keeps what was emitted as a prefix, moves nothing queued out of both deque and result, and keeps every child of an emitted ID queued or emitted |
| NonCycleLinearizing.OrderFromMeaning | src/main/java/tlk/linearizer/NonCycleDialogLinearizer.java:40-72 | `createOrder` returns duplicate-free keys that start with what was emitted, include everything queued, and, when no child was left out, are closed under children |
| NonCycleLinearizing.AcyclicOrderCovers | src/main/java/tlk/linearizer/NonCycleDialogLinearizer.java:19-31 | in a group without cycles, `createOrder(findRoots())` emits every key exactly once |
| NonCycleLinearizing.FanOrder | src/main/java/tlk/linearizer/NonCycleDialogLinearizer.java:40-72 | a parent with the children 2 and 3 is ordered 1, 2, 3 |
| NonCycleLinearizing.NonCycleLinearizer.constructor | src/main/java/tlk/linearizer/NonCycleDialogLinearizer.java:19-20 | the lineariser starts with no group |
| NonCycleLinearizing.NonCycleLinearizer.Linearize | src/main/java/tlk/linearizer/NonCycleDialogLinearizer.java:19-31 | refuses the group exactly when some key reaches a cycle; otherwise returns `createOrder(findRoots())`: every key, each once |
| NonCycleLinearizing.NonCycleLinearizer.CheckForCycles | src/main/java/tlk/linearizer/NonCycleDialogLinearizer.java:158-172 | the recursion, against `Cyclic` |
| NonCycleLinearizing.NonCycleLinearizer.FindRoots | src/main/java/tlk/linearizer/NonCycleDialogLinearizer.java:140-149 | the keys without parents, ascending |
| NonCycleLinearizing.NonCycleLinearizer.FindSiblings | src/main/java/tlk/linearizer/NonCycleDialogLinearizer.java:80-90 | the two branches, against `Siblings` |
| NonCycleLinearizing.NonCycleLinearizer.IsCandidate | src/main/java/tlk/linearizer/NonCycleDialogLinearizer.java:109-126 | the labelled loops, against `Candidate` |
| NonCycleLinearizing.NonCycleLinearizer.RotateToCandidate | src/main/java/tlk/linearizer/NonCycleDialogLinearizer.java:99-133 | the recursion, against `Rotated` |
| NonCycleLinearizing.NonCycleLinearizer.CreateOrder | src/main/java/tlk/linearizer/NonCycleDialogLinearizer.java:40-72 | the loop, against `OrderFrom` |
| NonCycleLinearizing.NonCycleLinearizer.OnePass | src/main/java/tlk/linearizer/NonCycleDialogLinearizer.java:50-69 | one pass, against `Step` |
| NonCycleLinearizing.NonCycleLinearizer.CollectChildren | src/main/java/tlk/linearizer/NonCycleDialogLinearizer.java:59-62 | the loop over the siblings, against `ChildrenOf` |
| NonCycleLinearizing.NonCycleLinearizer.PushChildren | src/main/java/tlk/linearizer/NonCycleDialogLinearizer.java:63-69 | the reverse loop, against `PushFront` |
| ScriptLinearizing.Linearize | src/main/java/dialog/linearizer/ScriptLinearizer.java:28-30 | the group's keys, each once: exactly the keys, as many as there are |
| Grouping.InsertByMin | src/main/java/dialog/GroupCreator.java:59 | `TreeSet.add` under `comparingInt(Collections::min)`: the set stays ordered by minimum, and the group joins exactly when no group with its minimum is there |
| Grouping.InsertFront | src/main/java/dialog/GroupCreator.java:59 | a group whose minimum is below every other goes first |
| Grouping.InsertBehind | src/main/java/dialog/GroupCreator.java:59 | a group above the first goes behind it and the order holds |
| Grouping.Shrinks | src/main/java/dialog/GroupCreator.java:63-88 | each pass removes its seed, so the map gets smaller and the loop ends |
| Grouping.NonDialogGroup | src/main/java/dialog/GroupCreator.java:197-204 | `createNonDialogGroup`: ascending, and exactly the IDs from `minInclusive` to `maxInclusive` that are not keys |
| Grouping.Gather | src/main/java/dialog/GroupCreator.java:101-134 | what is left after `createDialogGroup(id)` or `createScriptGroup(id)`: part of the map, with `id` gone |
| Grouping.GatherAll | src/main/java/dialog/GroupCreator.java:123-132 | what is left after a `for` loop of removals: part of the map, with every ID of the loop gone |
| Grouping.GatherSwept | src/main/java/dialog/GroupCreator.java:119-134 | nothing a removed record follows (parents and children, or neighbours) is left behind |
| Grouping.GatherAllSwept | src/main/java/dialog/GroupCreator.java:123-132 | the same for a loop of removals |
| Grouping.SymmetricFollows | src/main/java/dialog/GroupCreator.java:123-132 | symmetric edges make every followed ID follow back |
| Grouping.GatherSided | src/main/java/dialog/GroupCreator.java:101-111 | a removal from a string of one side (dialog or script) removes only strings of that side |
| Grouping.LeftClosedAt | src/main/java/dialog/GroupCreator.java:63-88 | after a removal, every edge of a record left behind still names a record left behind |
| Grouping.GatherKeeps | src/main/java/dialog/GroupCreator.java:63-88 | a removal keeps the rest of the map drainable, sweeps, stays on one side and removes its seed |
| Grouping.DialogGroupClosed | src/main/java/dialog/GroupCreator.java:72-76 | a removed dialog group is closed under parents and children, as the acyclic lineariser needs |
| Grouping.GatherAllConcat | src/main/java/dialog/GroupCreator.java:123-132 | the loop over the parents and then the children removes what one loop over both would |
| Grouping.RemovedChain | src/main/java/dialog/GroupCreator.java:125 | `result.putAll` of the next group adds exactly what the next removal took out |
| Grouping.RemovedSeed | src/main/java/dialog/GroupCreator.java:121-122 | `result.put(id, …)` first, then the rest of the group |
| Grouping.GatherReached | src/main/java/dialog/GroupCreator.java:119-134 | everything the removal took out is reached from the seed by a walk along followed edges |
| Grouping.WalkSwept | src/main/java/dialog/GroupCreator.java:119-134 | a walk from a removed ID ends at a removed ID |
| Grouping.GroupIsReach | src/main/java/dialog/GroupCreator.java:101-134 | a group is exactly the keys a walk from the seed reaches, through parents and children or through neighbours |
| TlkGroupCreating.PassMeaning | src/main/java/tlk/GroupCreator.java:53-56 | a pass deletes the smallest key and others, nothing else; its group is duplicate-free and holds exactly the deleted keys and their children; no deleted key keeps a parent or a child behind |
| TlkGroupCreating.PassShrinks | src/main/java/tlk/GroupCreator.java:53-56 | a pass makes progress and builds a non-empty group without repeats |
| TlkGroupCreating.Groups | src/main/java/tlk/GroupCreator.java:53-56 | at most one group per key, each one non-empty and without repeats |
| TlkGroupCreating.GroupsUnfold | src/main/java/tlk/GroupCreator.java:53-56 | the first pass's group comes first, then those of the rest |
| TlkGroupCreating.CollectMeaning | src/main/java/tlk/GroupCreator.java:49-56 | the `TreeSet` keeps what it held, holds only groups it was given, stays ordered by minimum, holds a group of every minimum given, and keeps a given group unless an earlier one has its minimum |
| TlkGroupCreating.NoNewMin | src/main/java/tlk/GroupCreator.java:56 | adding a group with another minimum adds no minimum |
| TlkGroupCreating.PassClosed | src/main/java/tlk/GroupCreator.java:53-56 | on a family-closed map a pass's group is exactly the keys it deletes, its minimum is the smallest key, and the keys left are family-closed and all above that key |
| TlkGroupCreating.GroupsMinima | src/main/java/tlk/GroupCreator.java:53-56 | the passes' groups come in increasing order of minimum, and each minimum is a key |
| TlkGroupCreating.CreateCovers | src/main/java/tlk/GroupCreator.java:49-56 | the `TreeSet` that `create` fills holds exactly the passes' groups, none dropped, and every key of the map lies in one of them |
| TlkGroupCreating.GroupsCover | src/main/java/tlk/GroupCreator.java:53-56 | every key lies in the group of some pass |
| TlkGroupCreating.GroupsWithin | src/main/java/tlk/GroupCreator.java:132-153 | a group holds only keys and children of keys; a child need not be a key |
| TlkGroupCreating.SeedsIncrease | src/main/java/tlk/GroupCreator.java:55 | each pass starts from the smallest key left, above the one before |
| TlkGroupCreating.TlkGroupCreator.constructor | src/main/java/tlk/GroupCreator.java:35-40 | the creator drains a fresh copy of the caller's map, with the range stored |
| TlkGroupCreating.TlkGroupCreator.Create | src/main/java/tlk/GroupCreator.java:48-67 | the non-dialog group of the untouched map, and the `TreeSet` of the passes' groups; the copy ends empty |
| TlkGroupCreating.TlkGroupCreator.NextGroup | src/main/java/tlk/GroupCreator.java:55-56 | one pass, `createDialogGroup(firstKey())`, against `PassGroup` and `PassRest` |
| DialogGroupCreating.DialogOrder | src/main/java/dialog/GroupCreator.java:73-77 | the `try`/`catch` of the linearisers never yields an empty order |
| DialogGroupCreating.GroupIds | src/main/java/dialog/GroupCreator.java:69-83 | the linearised group of a seed is never empty |
| DialogGroupCreating.GroupIdsMeaning | src/main/java/dialog/GroupCreator.java:63-83 | a linearised group holds the seed and exactly the IDs the removal took out, with a cycle or without; a dialog group is closed under parents and children |
| DialogGroupCreating.DialogGroupIs | src/main/java/dialog/GroupCreator.java:70-78 | a dialog group is closed under parents and children, its smallest key is the seed, and the dialog linearisers order it |
| DialogGroupCreating.ScriptGroupIs | src/main/java/dialog/GroupCreator.java:79-83 | a script group is ordered by the script lineariser and holds its seed |
| DialogGroupCreating.DialogOrderMeaning | src/main/java/dialog/GroupCreator.java:73-77 | the dialog order holds the smallest key and only the group's IDs; it holds all of them when the group has no cycle, and also when every key is reached from the smallest one by a walk inside the group |
| DialogGroupCreating.CycleOrderReaches | src/main/java/dialog/linearizer/CycleDialogLinearizer.java:32-67 | the cyclic fallback from the smallest key emits every key a walk inside the group reaches from it |
| DialogGroupCreating.CycleOrderCovers | src/main/java/dialog/GroupCreator.java:70-77 | on the group a dialog seed takes out, the cyclic fallback from the seed emits every ID of the group |
| DialogGroupCreating.CycleOrderWithin | src/main/java/dialog/GroupCreator.java:76 | the cyclic fallback emits its seed and only the group's IDs |
| DialogGroupCreating.DrainNoError | src/main/java/dialog/GroupCreator.java:63-88 | with no ERROR record, every seed is a dialog, journal or script string and the loop ends with groups |
| DialogGroupCreating.DrainCovers | src/main/java/dialog/GroupCreator.java:63-88 | a drain that ends with groups keeps the groups collected before it and puts every key of the map into some group; no group is dropped by the `TreeSet`, because each new group's smallest ID is its seed, above those before it |
| DialogGroupCreating.SentinelFirstThrows | src/main/java/dialog/GroupCreator.java:84-87 | the `INVALID REFERENCE` sentinel -1, left in the map as its smallest key, is the first seed: its empty group makes `Collections.min` throw when the group is added |
| DialogGroupCreating.ChopBeforeGroups | src/main/java/dialog/Mode.java:178-183 | a chop to a range from 0 on removes the sentinel and keeps the map drainable; with the sentinel the only ERROR record, the loop then ends with groups |
| DialogGroupCreating.DialogGroupCreator.constructor | src/main/java/dialog/GroupCreator.java:41-50 | the creator drains the mode's own map (no copy), with the range stored and fresh linearisers |
| DialogGroupCreating.DialogGroupCreator.Create | src/main/java/dialog/GroupCreator.java:58-93 | the non-dialog group of the untouched map, then the outcome of the loop; when it ends with groups the shared map is empty |
| DialogGroupCreating.DialogGroupCreator.DrainOne | src/main/java/dialog/GroupCreator.java:64-87 | one pass: either the crash of the default branch, or a smaller drainable map whose drain has the same outcome |
| DialogGroupCreating.DialogGroupCreator.LinearizeDialog | src/main/java/dialog/GroupCreator.java:73-77 | the `try`/`catch`, against `DialogOrder` |
| DialogGroupCreating.DialogGroupCreator.CreateDialogGroup | src/main/java/dialog/GroupCreator.java:119-134 | the recursion, against `Gather` and `Removed` |
| DialogGroupCreating.DialogGroupCreator.CreateScriptGroup | src/main/java/dialog/GroupCreator.java:101-111 | the recursion, against `Gather` and `Removed` |
| DialogGroupCreating.DialogGroupCreator.RemoveEach | src/main/java/dialog/GroupCreator.java:123-132 | a `for` loop of removals, against `GatherAll` |
| DialogGroupCreating.DialogGroupCreator.RemoveOne | src/main/java/dialog/GroupCreator.java:124-126 | `if (containsKey(each)) result.putAll(create…Group(each))`, against `Gather` |
| JavaLang.JavaDiv | src/main/java/progress/Mode.java:100 | Java's `int` division by a positive divisor: the remainder has the sign of the dividend and is smaller than the divisor |
| JavaLang.Wrap32 | src/main/java/item/Item.java:183 | the `int` result of a subtraction: in the 32-bit range, equal to the exact value modulo 2^32, and the exact value when that fits |
| JavaLang.DigitChar | src/main/java/dialog/parser/DialogContentParser.java:130-140 | one decimal digit character of the given value |
| JavaLang.NatToString | src/main/java/dialog/parser/DialogContentParser.java:130-140 | `"" + i` for `i >= 0`: digits only, without a leading zero unless it is `0` |
| JavaLang.DigitsOfNat | src/main/java/dialog/parser/DialogContentParser.java:130-140 | reading back the digits of a number gives the number |
| JavaLang.CanonicalDigits | src/main/java/tlk/DialogStructureMode.java:238-239 | a digit run is the spelling `Integer.toString` gives its value exactly when it has no leading zero |
| JavaLang.NatToStringInjective | src/main/java/dialog/parser/DialogContentParser.java:130-140 | different numbers are spelled differently, so internal IDs built from them differ |
| JavaLang.ParseInt | src/main/java/tlk/DialogStructureMode.java:202-203 | `Integer.valueOf`: a result always fits into an `int` |
| JavaLang.ParseIntOfToString | src/main/java/tlk/DialogStructureMode.java:202-203 | `Integer.valueOf` reads back what `Integer.toString` writes, for every `int` |
| JavaLang.ParseIntOfDigits | src/main/java/tlk/DialogStructureMode.java:238-239 | on a `\d+` match, `Integer.valueOf` fails exactly when the value is above `Integer.MAX_VALUE`, and otherwise gives the value of the digits |
| JavaLang.ParseIntAcceptsSign | src/main/java/tlk/DialogStructureMode.java:202-203 | `Integer.valueOf` also reads a leading `+`, which `\d+` does not match |
| JavaLang.CompareStringsZero | src/main/java/tlk/DialogString.java:153-159 | `String.compareTo` is zero exactly on equal strings |
| JavaLang.CompareStringsAntisymmetric | src/main/java/tlk/DialogString.java:153-159 | `String.compareTo` changes sign when the operands are swapped |
| JavaLang.CompareStringsTransitive | src/main/java/tlk/DialogString.java:153-159 | `String.compareTo` is transitive on "below" |
| JavaLang.FirstIndexOf | src/main/java/tlk/DialogStructureMode.java:197 | the first position of the separator, with none before it |
| JavaLang.Pieces | src/main/java/tlk/DialogStructureMode.java:197 | the pieces between the separators: at least one, none holding a separator |
| JavaLang.JoinPieces | src/main/java/tlk/DialogStructureMode.java:197 | gluing the pieces back with the separator restores the string |
| JavaLang.DropTrailingEmpty | src/main/java/tlk/DialogStructureMode.java:197 | `split` with limit 0 keeps a prefix of the pieces, drops only empty pieces, and ends with a non-empty one |
| JavaLang.NonEmpty | src/main/java/table/Mode.java:110 | the non-empty pieces of a split on spaces: every non-empty piece and nothing else |
| JavaLang.BeforeFirst | src/main/java/progress/Mode.java:193-194 | `s.split(sep, 2)[0]`: the longest prefix without the separator, which is met right behind it unless the prefix is all of `s` |
| Parameters.PairsMeaning | src/main/java/tlk/DialogStructureMode.java:161-168 | the pairing loop throws exactly when some key is shorter than the prefix; otherwise the map holds exactly the keys given, each with the value of its last occurrence (empty for a trailing key) |
| Parameters.PairsUpToMeaning | src/main/java/tlk/DialogStructureMode.java:162-168 | the same, after the first `c` pairs |
| Parameters.NoneStaysNone | src/main/java/tlk/DialogStructureMode.java:164 | once a key has thrown, the call has thrown whatever follows |
| Parameters.ReadPairs | src/main/java/tlk/DialogStructureMode.java:161-168 | the loop, against `Pairs` |
| Parameters.RangeOf | src/main/java/tlk/DialogStructureMode.java:193-209 | an accepted range is two pieces of `split("-")` that `Integer.valueOf` reads, the first not above the second |
| Parameters.CheckRangeParameters | src/main/java/tlk/DialogStructureMode.java:158-212 | `checkParameters`, against `RangeParameters` |
| Parameters.AcceptedRange | src/main/java/tlk/DialogStructureMode.java:170-212 | an accepted command line has a non-empty existing folder and a range of two ordered `int`s |
| Parameters.ShortKeyThrows | src/main/java/dialog/DialogStructureMode.java:152 | a key `-`, too short for `substring(2)`, makes the whole call throw |
| Parameters.MissingValueIsEmpty | src/main/java/tlk/DialogStructureMode.java:166 | a trailing key gets the empty value, so a trailing `-range` is refused |
| Parameters.RangeMatch | src/main/java/tlk/DialogStructureMode.java:234-237 | a match of `^(\d+)-(\d+)$` is two digit runs joined by one dash |
| Parameters.RangeMatchComplete | src/main/java/tlk/DialogStructureMode.java:234-237 | every `digits-digits` string matches, with those groups |
| Parameters.SignedRangeSlipsThrough | src/main/java/tlk/DialogStructureMode.java:197-205 | `+1-2` and `1-2-` pass `checkParameters`, but the regular expression of `invoke` refuses them, so `group(1)` throws |
| Parameters.FolderAndRange | src/main/java/tlk/DialogStructureMode.java:170-212 | `-folder d -range r` is accepted when the folder exists and the range passes |
| Parameters.DigitRangeOf | src/main/java/tlk/DialogStructureMode.java:234-239 | the intended range check, digit runs only: an accepted range is ordered |
| Parameters.DigitRangeReadsBack | src/main/java/tlk/DialogStructureMode.java:234-239 | with the digit-only check, `invoke` reads back exactly the range that was checked |
| Parameters.DigitRangeNarrows | src/main/java/tlk/DialogStructureMode.java:197-205 | every range the digit-only check accepts, the original check accepts with the same bounds |
| Parameters.ImageParameters | src/main/java/status_image/ImageMode.java:86-150 | an accepted status image command line has non-empty `ccsv`, `ocsv` and `out` |
| Parameters.CheckImageParameters | src/main/java/status_image/ImageMode.java:86-150 | the status image `checkParameters`, against `ImageParameters` |
| Parameters.AcceptedImage | src/main/java/status_image/ImageMode.java:86-150 | the two CSV files exist and the output path parses |
| LittleEndian.Unsigned32 | src/main/java/item/Mode.java:166-180 | four bytes, least significant first, read as an unsigned 32-bit value |
| LittleEndian.ToInt32 | src/main/java/item/Mode.java:177-180 | the two's complement reading: an `int`, equal to the unsigned value or that value minus 2^32 |
| LittleEndian.GetInt | src/main/java/item/Mode.java:177-180 | `ByteBuffer.getInt` on a little-endian buffer: always an `int` |
| LittleEndian.PutInt | src/main/java/item/Mode.java:171-174 | the four little-endian bytes of an `int` |
| LittleEndian.GetPutInt | src/main/java/item/Mode.java:166-180 | reading back the bytes of an `int` gives the `int` |
| LittleEndian.PutGetInt | src/main/java/item/Mode.java:166-180 | the bytes of a read `int` are the four bytes it was read from |
| LittleEndian.DigitsOfUnsigned | src/main/java/item/Mode.java:166-180 | the base-256 digits of the unsigned value are the four bytes |
| IdCompare.Sub32 | src/main/java/item/Item.java:183 | `min - minO` in `int` arithmetic: the exact difference when it fits, and zero exactly on equal operands |
| IdCompare.CompareSortedZero | src/main/java/item/Item.java:166-193 | `compareTo` is zero exactly on equal ID sets with equal file names |
| IdCompare.CompareSortedAntisymmetric | src/main/java/item/Item.java:166-193 | without overflow in the differences, swapping the operands flips the sign |
| IdCompare.PrefixFirst | src/main/java/item/Item.java:188-189 | a set whose IDs are the smallest of the other's, and fewer, compares below it |
| IdCompare.WrapBreaksAntisymmetry | src/main/java/item/Item.java:183 | `{INT_MIN}` and `{0}` each compare below the other |
| IdCompare.WrapInvertsOrder | src/main/java/item/Item.java:183 | `{-2}` compares above `{INT_MAX}` |
| IdCompare.IntendedAntisymmetric | src/main/java/item/Item.java:182-184 | the comparison of the IDs themselves is antisymmetric for all inputs |
| IdCompare.IntendedAgrees | src/main/java/item/Item.java:182-184 | where no difference overflows, the code's comparison has the intended sign |
| IdCompare.CompareIdSets | src/main/java/item/Item.java:166-193 | the `TreeSet` loop, against `CompareSorted` of the ascending IDs |
| IdCompare.SortedSeqInjective | src/main/java/item/Item.java:167-176 | different ID sets give different ascending sequences |
| IdCompare.IntendedZero | src/main/java/item/Item.java:177-192 | the intended comparison is zero exactly on equal ID sequences with equal file names |
| IdCompare.IntendedTransitive | src/main/java/item/Item.java:177-192 | the intended comparison's "below" is transitive on all inputs |
| IdCompare.CompareOrder | src/main/java/item/Item.java:166-193 | between two records whose subtractions do not overflow, `compareTo` is zero exactly on equal ID sets and file names, and swapping the records flips its sign |
| IdCompare.CompareTransitive | src/main/java/item/Item.java:166-193 | between records whose subtractions do not overflow, "compares below" is transitive |
| IdCompare.OrdinaryFits | src/main/java/item/Item.java:183 | IDs from -1 up to `Integer.MAX_VALUE - 1` never make a subtraction overflow |
| IdCompare.OrdinaryComparable | src/main/java/item/Item.java:183 | records whose IDs all lie in that range are pairwise free of overflow |
| IdCompare.KeyedTotal | src/main/java/item/Item.java:166-193 | on such records `compareTo` keeps the contract of `Comparable`: swapping flips the sign, "below" is transitive, and records that compare equal compare alike with all others |
| IdCompare.InsertByKeyMeaning | src/main/java/item/Mode.java:152 | `TreeSet.add` under a comparator that keeps that contract: the set stays in comparator order, loses nothing, gains the new record exactly when none compares equal to it, and is otherwise unchanged |
| IdCompare.CollectByKeyMeaning | src/main/java/item/Mode.java:142-155 | adding records one by one into an empty `TreeSet`: the set is in comparator order, every record added compares equal to one it holds, and each record it holds is the first added of those that compare equal to it |
| Reports.InRangeOf | src/main/java/item/Item.java:77-112 | the IDs of a record inside the inclusive range, in order: exactly those, and no more than the record has |
| Reports.Decimal | src/main/java/item/Mode.java:101-119 | one line per ID |
| Reports.DecimalReadsBack | src/main/java/item/Mode.java:101-119 | every line reads back, with `Integer.parseInt`, as the ID it was written from |
| Reports.CsvFieldMeaning | src/main/java/item/Mode.java:70-78 | a field is empty exactly for `-1`, and every other `int` reads back from its field |
| Items.IsInRange | src/main/java/item/Item.java:121-132 | an item is in the range exactly when one of its four IDs is |
| Items.ParseItem | src/main/java/item/Mode.java:163-185 | a file shorter than 88 bytes makes `put` throw; otherwise the four `int`s at the offsets 8, 12, 80 and 84, little-endian, with the file name |
| Items.ParseItemReadsBack | src/main/java/item/ItemMode.java:184-205 | a file holding the bytes of an item's four IDs at those offsets parses back to the item |
| Items.CompareTo | src/main/java/item/Item.java:166-193 | `compareTo`, against `CompareSorted` of the two ascending ID sets |
| Items.CompareToZero | src/main/java/item/Item.java:166-193 | two items compare equal exactly when their ID sets and file names are equal |
| Items.ItemsBelowEachOther | src/main/java/item/Item.java:183 | an item of four `INT_MIN` IDs and one of four zeros each compare below the other |
| Items.ParsedItems | src/main/java/item/Mode.java:142-155 | every file parses exactly when each holds at least 88 bytes, and then there is one item per file, the one `parseItem` reads from it |
| Items.ParseItems | src/main/java/item/Mode.java:142-155 | the loop fails exactly when some file is too short; otherwise it returns the files' items added one by one, in the order given, to a `TreeSet` ordered by `compareTo` |
| Items.ItemSetMeaning | src/main/java/item/Mode.java:142-155 | where no ID subtraction overflows, that set is in `compareTo` order, holds for every parsed item one with the same ID set and file name, and holds only items parsed first with their ID set and file name |
| Items.ChopItemsToRange | src/main/java/item/Mode.java:131-133 | `removeIf`: the survivors are the items with an ID in the range, each as often as in the input, and they keep the input's order (a subsequence of it) |
| Items.TxtBlockReadsBack | src/main/java/item/Mode.java:101-120 | an item's block is one line per in-range ID, in field order, each reading back as that ID, then an empty line |
| Items.Csv | src/main/java/item/Mode.java:56-81 | three header lines, then one row per item in order |
| Items.CsvRows | src/main/java/item/ItemMode.java:87-101 | one row per item, in order |
| Creatures.IsPertainingInRange | src/main/java/creature/Creature.java:92-99 | the loop returns true exactly when some pertaining ID is in the range |
| Creatures.IsInRange | src/main/java/creature/Creature.java:108-116 | a creature is in the range exactly when its short name, long name or a pertaining ID is |
| Creatures.ChopCreaturesToRange | src/main/java/creature/Mode.java:125-127 | `removeIf`: the survivors are the creatures with an ID in the range, each as often as in the input, and they keep the input's order (a subsequence of it) |
| Creatures.CompareTo | src/main/java/creature/Creature.java:119-144 | `compareTo`, against `CompareSorted` of the two ascending ID sets |
| Creatures.CreatureBytes | src/main/java/creature/Mode.java:160-169 | the 408 bytes of the buffer |
| Creatures.CreatureBytesAt | src/main/java/dialog/creature/CreatureMode.java:187-199 | the buffer holds the short name from offset 8, the long name from 12, and the `i`-th pertaining ID from `164 + 4 * i` |
| Creatures.FillBuffer | src/main/java/creature/Mode.java:160-169 | the `put` loop fills a new array with those bytes |
| Creatures.ReadPertaining | src/main/java/creature/Mode.java:174-177 | the `getInt` loop fills a new array of the 100 pertaining IDs |
| Creatures.ParseCreature | src/main/java/creature/Mode.java:157-181 | a file shorter than 564 bytes makes `put` throw; otherwise the file name, both names and exactly the 100 pertaining IDs read from the file, which is `CreatureOf` the file |
| Creatures.CreatureOf | src/main/java/creature/Mode.java:157-181 | the creature of a file: its name, the short name at byte 8, the long name at byte 12, and exactly the 100 `int`s from byte 164 on as pertaining IDs |
| Creatures.ParsedCreatures | src/main/java/creature/Mode.java:136-149 | every file parses exactly when each holds at least 564 bytes, and then there is one creature per file, `CreatureOf` that file |
| Creatures.ParseCreatures | src/main/java/creature/Mode.java:136-149 | the loop fails exactly when some file is too short; otherwise it returns the files' creatures added one by one, in the order given, to a `TreeSet` ordered by `compareTo` |
| Creatures.CreatureSetMeaning | src/main/java/creature/Mode.java:136-149 | where no ID subtraction overflows, that set is in `compareTo` order, holds for every parsed creature one with the same ID set and file name, and holds only creatures parsed first with their ID set and file name |
| Creatures.TxtBlockReadsBack | src/main/java/creature/Mode.java:97-114 | a creature's block is one line per in-range ID, the names first, each reading back as its ID, then an empty line; the IDs are exactly the creature's in-range ones |
| Creatures.DecimalConcat | src/main/java/creature/Mode.java:99-112 | the lines of consecutive parts are the lines of each part, one after the other |
| Tables.Table.constructor | src/main/java/table/Table.java:19-21 | a table with its file name and no IDs |
| Tables.Table.Add | src/main/java/table/Table.java:46-48 | `stringIds.add(id)`: the set gains the ID |
| Tables.Table.IsInRange | src/main/java/table/Table.java:62-69 | true exactly when some ID of the table is in the range |
| Tables.CompareToMeaning | src/main/java/table/Table.java:51-53 | tables compare equal exactly on equal file names, and swapping flips the sign |
| Tables.WordIdsMeaning | src/main/java/table/Mode.java:110-116 | the IDs of a line's words are exactly the words `Integer.parseInt` reads; the others are ignored |
| Tables.LineIdsMeaning | src/main/java/table/Mode.java:110-116 | the IDs of a line are exactly the pieces between spaces that parse as `int`s |
| Tables.FileIdsMeaning | src/main/java/table/Mode.java:108-117 | the IDs of a file are exactly the IDs of its lines |
| Tables.AddLine | src/main/java/table/Mode.java:110-116 | the inner loop adds exactly the line's IDs |
| Tables.ParseTable | src/main/java/table/Mode.java:104-120 | a new table with the file name and exactly the file's IDs |
| Tables.InsertByNameMeaning | src/main/java/table/Mode.java:83-96 | `TreeSet.add` by file name keeps the tables sorted by name, keeps every table, adds the new one unless its name is there, and adds exactly its name |
| Tables.ParseTables | src/main/java/table/Mode.java:83-96 | the tables sorted by name, one per file name, each holding the IDs parsed from a file of that name |
| Tables.ChopTablesToRange | src/main/java/table/Mode.java:73-75 | `removeIf`: the survivors are the tables with an ID in the range, each as often as in the input, and they keep the input's order, which is the name order (a subsequence of it) |
| Tables.InRangeIds | src/main/java/table/Mode.java:55-60 | the table's in-range IDs, ascending |
| Tables.TxtBlockReadsBack | src/main/java/table/Mode.java:43-64 | a table's block is `// <file name>`, an empty line, one line per in-range ID reading back as it, and an empty line |
| StatusColumn.FreshHeightFits | src/main/java/progress/Mode.java:100 | a new image of `(n - 1) / 10 + 1` rows is exactly as high as the rows to paint, and one row high for no entries |
| StatusColumn.EntryRow | src/main/java/progress/Mode.java:109-121 | entry `i` is painted into row `i / 10`; an untranslated entry makes its row red, and a green row has every entry translated |
| StatusColumn.RowComplete | src/main/java/progress/Mode.java:113-116 | at the tenth or the last entry of a row, the running flag is true exactly when the whole row is translated |
| StatusColumn.PaintColumn | src/main/java/progress/Mode.java:104-123 | the loop fails (`setRGB` out of bounds) exactly when the image is lower than the rows; otherwise the rows take their colors and the rows below are unchanged |
| StatusColumn.Flags | src/main/java/status_image/ImageMode.java:182-195 | one flag per entry |
| IdFiles.IdsFromCsv | src/main/java/progress/Mode.java:187-200 | exactly the IDs of the lines that are not skipped as weird |
| IdFiles.CsvRowReadsBack | src/main/java/progress/Mode.java:190-195 | a quoted row starting with an `int` and at least one more field gives that `int` |
| IdFiles.CsvSingleFieldSkipped | src/main/java/progress/Mode.java:190-195 | a quoted row with one field keeps its closing quote in the piece, so it is skipped |
| IdFiles.DigitRun | src/main/java/progress/Mode.java:211 | the longest prefix of digits |
| IdFiles.StringRefDigits | src/main/java/progress/Mode.java:211-219 | a match of `^StringRef: (\d+) ` is the prefix, a digit run and a space |
| IdFiles.StringRefOfWritten | src/main/java/progress/Mode.java:211-219 | every line `StringRef: <n> …` matches with the digits of `n` |
| IdFiles.IdsFromTxt | src/main/java/progress/Mode.java:210-222 | fails exactly when a matched number is too large for `Integer.valueOf`; otherwise exactly the numbers of the matching lines |
| Progress.StatesOf | src/main/java/progress/Mode.java:55-73 | the states are keyed by the complete IDs |
| Progress.StatesMeaning | src/main/java/progress/Mode.java:55-73 | an ID is accepted exactly when it is not out of date, out of date exactly when listed so, unused exactly when listed so, and never accepted and out of date at once |
| Progress.Counts | src/main/java/progress/Mode.java:159-161 | the accepted count is the complete IDs minus the out-of-date ones, and the unused count is the complete IDs that are unused |
| Progress.BuildStates | src/main/java/progress/Mode.java:55-73 | the three loops fail exactly when an out-of-date ID is not a complete one (`get` returns `null`); otherwise the states above |
| Progress.AcceptAll | src/main/java/progress/Mode.java:55-58 | every complete ID gets `{ACCEPTED}` |
| Progress.MarkOutOfDate | src/main/java/progress/Mode.java:61-64 | fails exactly when an out-of-date ID is missing; otherwise those IDs are out of date instead of accepted |
| Progress.MarkUnused | src/main/java/progress/Mode.java:67-73 | unused IDs that are not keys are skipped; the others gain `UNUSED`, giving `StatesOf` |
| Progress.PadLeft | src/main/java/progress/Mode.java:164-166 | `String.format("%1$<w>s", s)`: spaces on the left up to `w` characters, and `s` never cut |
| Progress.Percentage | src/main/java/progress/Mode.java:163 | the cast of the double quotient always gives an `int` |
| Progress.PercentageBounds | src/main/java/progress/Mode.java:163 | with counts inside the `int` range, the progress lies between 0 and 100, and is 100 when everything is accepted |
| Progress.PercentageOfFraction | src/main/java/progress/Mode.java:163 | for a fraction at most 1, the cast is the truncated integer percentage |
| Progress.TrimTrailing | src/main/java/progress/Mode.java:153-155 | the loop fails (`getLast` on an empty list) exactly when no line has text; otherwise the lines without the trailing empty ones |
| Progress.Write | src/main/java/progress/Mode.java:140-176 | the new table is the existing one (or the header), trimmed, plus the row of the date and the counts |
| Progress.HeaderKept | src/main/java/progress/Mode.java:144-146 | the header survives the trimming unchanged |
| StatusImage.BuildTranslated | src/main/java/status_image/ImageMode.java:62-65 | every complete ID maps to whether it is not out of date |
| StatusImage.BuildTranslatedIs | src/main/java/status_image/ImageMode.java:62-65 | that map is `Translated` |
| StatusImage.SameColumn | src/main/java/status_image/ImageMode.java:163-200 | the status image paints the same flags as the progress mode for the same files |
| StatusImage.DonePercent | src/main/java/status_image/ImageMode.java:70-72 | the percentage exists exactly when the complete CSV holds an ID (otherwise division by zero) |
| StatusImage.StatusLines | src/main/java/status_image/ImageMode.java:68-75 | the three printed lines exist exactly when the complete CSV holds an ID |
| StatusImage.SizesNotIntersection | src/main/java/status_image/ImageMode.java:70-72 | one complete ID, painted green, with two other out-of-date IDs prints `-100 % done` |
| StatusImage.DonePercentIntended | src/main/java/status_image/ImageMode.java:70-72 | the intended share, defined exactly when the complete CSV holds an ID |
| StatusImage.DonePercentIntendedMeaning | src/main/java/status_image/ImageMode.java:62-72 | the intended share counts the IDs the column paints as translated, lies between 0 and 100, and agrees with the printed one when every out-of-date ID is complete and the product fits |

## Left out

- Reading and writing files, walking directories (`parseFiles`), console output, `ImageIO` and the Java 2D image: the contents of a file arrive as a parameter, and a written file is the value returned.
- `tlk.HtmlCreator` and the HTML output of the dialog modes: they produce text only and state nothing about the graph.
- `main.TranslationTools`, `main.IMode`, `dialog.parser.IParser` and `tlk.linearizer.IDialogLinearizer`: command-line dispatch and interfaces with no logic. The linearisers and parsers are called directly as modules.
- `status_image.ExtendedBufferedImage`: a pixel-for-pixel copy of an image. `StatusColumn` paints its own `array` of rows instead.
- The regular-expression engine: a parser is handed each line's match as the groups it captures, and `Parameters.RangeMatch` and `IdFiles.StringRefDigits` define what the two patterns that decide a result accept.
- `dialog.Mode.invoke` and `tlk.DialogStructureMode.invoke` as whole methods: their steps are modelled one by one. `DialogGroupCreating.ChopBeforeGroups` shows why the chop must run before the groups are made.
- `HashMap` and `HashSet` iteration order is not specified by Java. The model takes it ascending: the "first key" of the cyclic linearisers is the smallest key, the script lineariser lists its keys ascending, and the creature report lists pertaining IDs ascending.
- Items.ParseItems, Creatures.ParseCreatures: `TreeSet.add` is modelled as insertion into the sequence kept in `compareTo` order, where a record that compares equal to one already there is not added. That is the content and order of the code's `TreeSet` whenever no ID subtraction overflows, which holds for IDs from -1 to `Integer.MAX_VALUE - 1` (`IdCompare.OrdinaryComparable`). Once a subtraction wraps, `compareTo` is not an order (see Findings) and the tree's result depends on its shape; the model's insertion is then one possible outcome, not claimed to be the code's. Listing the folder and sorting it by path is I/O: the files arrive in that order.
- `String.compareTo` compares UTF-16 code units; `JavaLang.CompareStrings` compares Dafny characters, which are Unicode scalar values. The two orders differ only for characters outside the Basic Multilingual Plane.
- A `NullPointerException` from `get` on a missing key is avoided by a precondition of each graph operation (`Consistent`, `FamilyClosed`, `Drainable`). `DialogMode` proves phase by phase, in the order of `dialog/Mode.java:162-176`, that the parsers establish `Drainable`. `DialogGroupCreating.ChopBeforeGroups` proves that the chop keeps it. The model composes these per-file lemmas by hand: no single lemma runs a whole `invoke`, because the file listings are I/O.
- Grouping.NonDialogGroup: the loop `for (int i = min; i <= max; i++)` never ends when `max` is `Integer.MAX_VALUE`, because `i` wraps. The model counts with unbounded integers, and its loop ends there.
- DialogString.CompareTo: `id - o.id` is taken exactly. Internal IDs come from a counter that starts at zero, so the difference fits in an `int` for any run that does not create more than 2^31 records.
- `Integer.parseInt` also accepts digits from other Unicode scripts. `JavaLang` reads ASCII digits only, with an optional sign.
- Progress.Percentage: the quotient is computed in `double` and cast to `int`. The model divides exactly, truncates toward zero and saturates at the `int` bounds, as the cast does. That the double quotient never crosses an integer for `int` operands is argued, not proved: floating point is not modelled.
- StatusColumn.Flags states only that there is one flag per entry. Which entry each flag belongs to is stated through `StatusImage.SameColumn` and `StatusColumn.EntryRow`.
- `dialog/TranslationString.java` and `dialog/linearizer/NonCycleDialogLinearizer.java` are not part of this model. The dialog package's record and acyclic lineariser are modelled after their `tlk` twins (`tlk/DialogString.java`, `tlk/linearizer/NonCycleDialogLinearizer.java`), with the neighbour set the dialog package's parsers use.
- `item/ItemMode.java` and `dialog/creature/CreatureMode.java` share the parsing, chopping and reporting code of `item/Mode.java` and `creature/Mode.java`. They differ in `invoke`: it takes the command line, checks it with its own `checkParameters`, reads the range through the pattern `^(\d+)-(\d+)$` and writes fixed output file names into the input folder. `Items` and `Creatures` model the shared code, the rows above cite whichever copy is clearer, and `Parameters` covers their `checkParameters`, which is the one of `tlk/DialogStructureMode.java` with the key prefix `--` (the prefix length is a parameter of `Parameters.Pairs`).
- Tables.Table.IsInRange: the documentation of `Table.isInRange` says "all IDs in the range", but the loop returns true on the first ID in the range. `Tables.Table.IsInRange` follows the code.
- ScriptLinearizing.Linearize: `ScriptLinearizer.linearize` returns `keySet()` in `HashMap` order; the model lists the keys ascending, which is one order the code may produce.
- NonCycleLinearizing.AcyclicOrderCovers: after the rotation falls back to the smallest ID, the order may put a string before one of its parents. For the acyclic group with edges 1→3, 1→4, 5→4, 2→5, 2→6 and 3→6, string 4 comes before its parent 5. The model follows the code and does not claim parent-first order. `NonCycleLinearizing.AcyclicOrderCovers` states what the order always gives: every string of the group exactly once.
- The default branch of the dialog `GroupCreator.create`: a string that is neither dialog nor script adds an empty group, and the next `Collections.min` of the `TreeSet` ordering by minimum throws `NoSuchElementException`. `DialogGroupCreating` models this as the outcome `NoSuchElement`.

## Findings

| source | as written | input that shows it | evidently intended | confidence | as-written member | corrected member |
|---|---|---|---|---|---|---|
| src/main/java/item/Item.java:183 | `compareTo` returns `min - minO` at the first differing ID, in `int` arithmetic (also `creature/Creature.java:134`) | ID sets `{-2147483648}` and `{0}`: each compares below the other, because the difference wraps | the sign of `Integer.compare(min, minO)` | not executed | IdCompare.WrapBreaksAntisymmetry | IdCompare.IntendedAntisymmetric |
| src/main/java/tlk/DialogStructureMode.java:197-205 | the range check accepts whatever `split("-")` cuts into two pieces that `Integer.valueOf` reads | `+1-2` (a sign) and `1-2-` (a trailing dash, dropped by `split`) pass the check, then `invoke`'s pattern `^(\d+)-(\d+)$` does not match and `group(1)` throws `IllegalStateException` | accept only two digit runs joined by one dash, so that `invoke` reads back the range that was checked | not executed | Parameters.SignedRangeSlipsThrough | Parameters.DigitRangeReadsBack |
| src/main/java/dialog/parser/ScriptStructureParser.java:52-58 | `ids.remove(each)` inside the for-each over the same `HashSet` | a file listing dialog ID 1 before script ID 2: removing 1 makes the iterator throw `ConcurrentModificationException`. Inside `dialog.Mode` the lists of script files hold only script IDs, so the removal never happens there | keep the listed IDs whose record is a script string (`removeIf`) | not executed | ScriptParsing.FilterAsWrittenThrows | ScriptParsing.ScriptIds |
| src/main/java/status_image/ImageMode.java:70-72 | the translated count is `completeIds.size() - outOfDateIds.size()` | complete `{1}`, out of date `{2, 3}`: the image paints ID 1 green and prints `-100 % done` | count the complete IDs that are not out of date, as the image does | not executed | StatusImage.SizesNotIntersection | StatusImage.DonePercentIntendedMeaning |
