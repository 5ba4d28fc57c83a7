/**
 * The content parsers of the dialog files (`dialog.parser.DialogContentParser`
 * and its TLK twin `tlk.ContentParser`): every dialog block registers its
 * strings under their string IDs and their internal IDs, and the file's list
 * of string IDs gets the first SAY of each block.
 *
 * The regular expressions are not modelled: a block arrives as the groups
 * its matches captured, in the order `find` returns them.  Each string ID
 * group goes through `Integer.parseInt`, which throws on a number above
 * `Integer.MAX_VALUE`.  `DialogContentParser` calls `parseInt` and `put` in
 * turn; the model reads every ID first (`ReadBlocks`) and registers after.
 * Nothing catches a throw (the run ends), so that order cannot be observed.
 */
module ContentParsing {
  import opened Collections
  import opened JavaLang
  import opened DialogString
  import opened StringGraph

  /** The two groups of a SAY, REPLY or JOURNAL match: the string ID and the text between the tildes. */
  datatype Said = Said(id: int, text: string)

  /**
   * One block between `~ THEN BEGIN n` and its `END`: the BEGIN number as
   * written, the first SAY (if any), then every REPLY, every
   * `AddJournalEntry(n` and every JOURNAL match of the block.
   */
  datatype ContentBlock = ContentBlock(begin: string, say: Option<Said>, replies: seq<Said>, addJournals: seq<int>, journals: seq<Said>)

  /** One `put` pair of the parser: a string ID, its internal ID, and the text and kind of its record. */
  datatype Registration = Registration(id: int, internalId: string, text: string, kind: StringType)

  /** Text of an `AddJournalEntry` record in a dialog file. */
  const DIALOG_PLACEHOLDER: string := "** No text specified in file **"
  /** Text of an `AddJournalEntry` record in a TLK file. */
  const TLK_PLACEHOLDER: string := "** No text specified in TLK file **"

  /** `fileName + ':' + n`: the internal ID of a block and of its SAY. */
  function BlockId(fileName: string, begin: string): string
  {
    fileName + ":" + begin
  }

  /** `blockId + '.' + i`: the internal ID of the i-th REPLY. */
  function ReplyId(blockId: string, i: nat): string
  {
    blockId + "." + NatToString(i)
  }

  /** `blockId + ".Journal." + k`: the internal ID of the k-th journal entry. */
  function JournalId(blockId: string, k: nat): string
  {
    blockId + ".Journal." + NatToString(k)
  }

  /** The file name without its last extension: `substring(0, lastIndexOf('.'))`, which throws when there is no dot. */
  function StripExtension(name: string): (r: Option<string>)
    ensures r.Some? ==> |r.value| < |name| && name[|r.value|] == '.' && r.value == name[..|r.value|]
    ensures r.Some? ==> '.' !in name[|r.value| + 1..]
    ensures r.None? <==> '.' !in name
    decreases |name|
  {
    if name == [] then None
    else if name[|name| - 1] == '.' then Some(name[..|name| - 1])
    else
      match StripExtension(name[..|name| - 1])
      case None =>
        assert forall i :: 0 <= i < |name| - 1 ==> name[i] == name[..|name| - 1][i];
        None
      case Some(s) =>
        assert name[..|name| - 1][|s| + 1..] + [name[|name| - 1]] == name[|s| + 1..];
        Some(s)
  }

  /** The REPLY registrations of a block: the i-th gets internal ID `<block>.<i>` and kind DIALOG. */
  function ReplyRegistrations(blockId: string, replies: seq<Said>): (r: seq<Registration>)
    ensures |r| == |replies|
  {
    seq(|replies|, i requires 0 <= i < |replies| => Registration(replies[i].id, ReplyId(blockId, i), replies[i].text, Dialog))
  }

  /** The `AddJournalEntry` registrations: numbered from 0, JOURNAL kind, placeholder text. */
  function AddJournalRegistrations(blockId: string, ids: seq<int>, placeholder: string): (r: seq<Registration>)
    ensures |r| == |ids|
  {
    seq(|ids|, k requires 0 <= k < |ids| => Registration(ids[k], JournalId(blockId, k), placeholder, Journal))
  }

  /** The JOURNAL registrations: numbered on from `first`, JOURNAL kind. */
  function JournalRegistrations(blockId: string, journals: seq<Said>, first: nat): (r: seq<Registration>)
    ensures |r| == |journals|
  {
    seq(|journals|, k requires 0 <= k < |journals| => Registration(journals[k].id, JournalId(blockId, first + k), journals[k].text, Journal))
  }

  /** Everything one block registers, in the order of `parseBlock`. */
  function BlockRegistrations(blockId: string, say: Said, b: ContentBlock, placeholder: string): (r: seq<Registration>)
    ensures |r| == 1 + |b.replies| + |b.addJournals| + |b.journals|
  {
    [Registration(say.id, blockId, say.text, Dialog)]
      + ReplyRegistrations(blockId, b.replies)
      + AddJournalRegistrations(blockId, b.addJournals, placeholder)
      + JournalRegistrations(blockId, b.journals, |b.addJournals|)
  }

  /** The first registration of a block is its SAY, under the block's internal ID. */
  lemma SayAt(blockId: string, say: Said, b: ContentBlock, placeholder: string)
    ensures BlockRegistrations(blockId, say, b, placeholder)[0] == Registration(say.id, blockId, say.text, Dialog)
  {
  }

  /** The i-th REPLY comes right after the SAY and the REPLYs before it. */
  lemma ReplyAt(blockId: string, say: Said, b: ContentBlock, placeholder: string, i: nat)
    requires i < |b.replies|
    ensures BlockRegistrations(blockId, say, b, placeholder)[1 + i] ==
      Registration(b.replies[i].id, ReplyId(blockId, i), b.replies[i].text, Dialog)
  {
    var r := BlockRegistrations(blockId, say, b, placeholder);
    assert r[1 + i] == ReplyRegistrations(blockId, b.replies)[i];
  }

  /** The k-th `AddJournalEntry` follows the REPLYs, as journal entry k. */
  lemma AddJournalAt(blockId: string, say: Said, b: ContentBlock, placeholder: string, k: nat)
    requires k < |b.addJournals|
    ensures BlockRegistrations(blockId, say, b, placeholder)[1 + |b.replies| + k] ==
      Registration(b.addJournals[k], JournalId(blockId, k), placeholder, Journal)
  {
    var r := BlockRegistrations(blockId, say, b, placeholder);
    assert r[1 + |b.replies| + k] == AddJournalRegistrations(blockId, b.addJournals, placeholder)[k];
  }

  /** The l-th JOURNAL comes last, as journal entry `|addJournals| + l`. */
  lemma JournalAt(blockId: string, say: Said, b: ContentBlock, placeholder: string, l: nat)
    requires l < |b.journals|
    ensures BlockRegistrations(blockId, say, b, placeholder)[1 + |b.replies| + |b.addJournals| + l] ==
      Registration(b.journals[l].id, JournalId(blockId, |b.addJournals| + l), b.journals[l].text, Journal)
  {
    var r := BlockRegistrations(blockId, say, b, placeholder);
    assert r[1 + |b.replies| + |b.addJournals| + l] == JournalRegistrations(blockId, b.journals, |b.addJournals|)[l];
  }

  predicate AllSaid(blocks: seq<ContentBlock>)
  {
    forall i :: 0 <= i < |blocks| ==> blocks[i].say.Some?
  }

  /** Everything a file registers: its blocks' registrations, block after block. */
  function FileRegistrations(fileName: string, blocks: seq<ContentBlock>, placeholder: string): seq<Registration>
    requires AllSaid(blocks)
  {
    if blocks == [] then []
    else
      var b := blocks[|blocks| - 1];
      FileRegistrations(fileName, blocks[..|blocks| - 1], placeholder)
        + BlockRegistrations(BlockId(fileName, b.begin), b.say.value, b, placeholder)
  }

  /** The IDs `parseBlock` appends to the file's list: the first SAY of every block. */
  function SayIds(blocks: seq<ContentBlock>): (r: seq<int>)
    requires AllSaid(blocks)
    ensures |r| == |blocks| && forall i :: 0 <= i < |blocks| ==> r[i] == blocks[i].say.value.id
  {
    seq(|blocks|, i requires 0 <= i < |blocks| && AllSaid(blocks) => blocks[i].say.value.id)
  }

  /** One more block of a file: its registrations and its SAY come last. */
  lemma FileSnoc(fileName: string, blocks: seq<ContentBlock>, j: nat, placeholder: string)
    requires j < |blocks| && AllSaid(blocks[..j]) && blocks[j].say.Some?
    ensures AllSaid(blocks[..j + 1])
    ensures FileRegistrations(fileName, blocks[..j + 1], placeholder) == FileRegistrations(fileName, blocks[..j], placeholder) +
      BlockRegistrations(BlockId(fileName, blocks[j].begin), blocks[j].say.value, blocks[j], placeholder)
    ensures SayIds(blocks[..j + 1]) == SayIds(blocks[..j]) + [blocks[j].say.value.id]
  {
    assert blocks[..j + 1][..j] == blocks[..j];
  }

  /** The record `create` makes for a registration: the counter value, the file, no edges. */
  function Created(reg: Registration, fileName: string, counter: int): TranslationString
  {
    TranslationString(counter, fileName, reg.text, reg.kind, [], [], [])
  }

  /** `idsToDialogs` after the registrations, each `put` replacing what was there. */
  function Registered(g: Graph, regs: seq<Registration>, fileName: string, counter: int): Graph
  {
    if regs == [] then g
    else
      var n := |regs| - 1;
      Registered(g, regs[..n], fileName, counter)[regs[n].id := Created(regs[n], fileName, counter + n)]
  }

  /** `internalIdsToIds` after the registrations. */
  function Internals(m: map<string, int>, regs: seq<Registration>): map<string, int>
  {
    if regs == [] then m
    else
      var n := |regs| - 1;
      Internals(m, regs[..n])[regs[n].internalId := regs[n].id]
  }

  /** Registering two runs in turn is registering them together; the counter runs on. */
  lemma {:induction false} RegisteredConcat(g: Graph, a: seq<Registration>, b: seq<Registration>, fileName: string, counter: int)
    ensures Registered(g, a + b, fileName, counter) == Registered(Registered(g, a, fileName, counter), b, fileName, counter + |a|)
    decreases |b|
  {
    if b != [] {
      var n := |b| - 1;
      assert (a + b)[..|a| + n] == a + b[..n];
      RegisteredConcat(g, a, b[..n], fileName, counter);
    } else {
      assert a + b == a;
    }
  }

  lemma {:induction false} InternalsConcat(m: map<string, int>, a: seq<Registration>, b: seq<Registration>)
    ensures Internals(m, a + b) == Internals(Internals(m, a), b)
    decreases |b|
  {
    if b != [] {
      var n := |b| - 1;
      assert (a + b)[..|a| + n] == a + b[..n];
      InternalsConcat(m, a, b[..n]);
    } else {
      assert a + b == a;
    }
  }

  /** A single registration is one `put` on each map. */
  lemma RegisteredSingle(g: Graph, m: map<string, int>, reg: Registration, fileName: string, counter: int)
    ensures Registered(g, [reg], fileName, counter) == g[reg.id := Created(reg, fileName, counter)]
    ensures Internals(m, [reg]) == m[reg.internalId := reg.id]
  {
    assert [reg][..0] == [];
  }

  /** Registering a run after a prefix is registering the whole. */
  lemma RegisteredStep(g: Graph, m: map<string, int>, done: seq<Registration>, regs: seq<Registration>, fileName: string, counter: int,
                       g0: Graph, m0: map<string, int>, c0: int, g1: Graph, m1: map<string, int>)
    requires g0 == Registered(g, done, fileName, counter) && m0 == Internals(m, done) && c0 == counter + |done|
    requires g1 == Registered(g0, regs, fileName, c0) && m1 == Internals(m0, regs)
    ensures g1 == Registered(g, done + regs, fileName, counter) && m1 == Internals(m, done + regs)
  {
    RegisteredConcat(g, done, regs, fileName, counter);
    InternalsConcat(m, done, regs);
  }

  /** One more registration of a run: its record is `put` with the next counter value. */
  lemma RegisteredSnoc(g: Graph, m: map<string, int>, regs: seq<Registration>, n: nat, fileName: string, counter: int)
    requires n < |regs|
    ensures Registered(g, regs[..n + 1], fileName, counter) ==
      Registered(g, regs[..n], fileName, counter)[regs[n].id := Created(regs[n], fileName, counter + n)]
    ensures Internals(m, regs[..n + 1]) == Internals(m, regs[..n])[regs[n].internalId := regs[n].id]
  {
    assert regs[..n + 1][..n] == regs[..n];
  }

  /** The keys after the registrations: the old keys and the registered IDs. */
  lemma {:induction false} RegisteredKeys(g: Graph, regs: seq<Registration>, fileName: string, counter: int)
    ensures forall id :: id in Registered(g, regs, fileName, counter) <==>
      id in g || exists i :: 0 <= i < |regs| && regs[i].id == id
    decreases |regs|
  {
    if regs != [] {
      var n := |regs| - 1;
      RegisteredKeys(g, regs[..n], fileName, counter);
      assert forall i :: 0 <= i < n ==> regs[..n][i] == regs[i];
    }
  }

  /** Every registered ID holds the record of its last registration. */
  lemma {:induction false} RegisteredLast(g: Graph, regs: seq<Registration>, fileName: string, counter: int, i: nat)
    requires i < |regs| && forall j :: i < j < |regs| ==> regs[j].id != regs[i].id
    ensures regs[i].id in Registered(g, regs, fileName, counter)
    ensures Registered(g, regs, fileName, counter)[regs[i].id] == Created(regs[i], fileName, counter + i)
    decreases |regs|
  {
    var n := |regs| - 1;
    if i < n {
      RegisteredLast(g, regs[..n], fileName, counter, i);
    }
  }

  /** An ID no registration names keeps its old record. */
  lemma {:induction false} RegisteredUntouched(g: Graph, regs: seq<Registration>, fileName: string, counter: int, id: int)
    requires id in g && forall i :: 0 <= i < |regs| ==> regs[i].id != id
    ensures id in Registered(g, regs, fileName, counter) && Registered(g, regs, fileName, counter)[id] == g[id]
    decreases |regs|
  {
    if regs != [] {
      var n := |regs| - 1;
      RegisteredUntouched(g, regs[..n], fileName, counter, id);
    }
  }

  /** The internal IDs after the registrations: the old ones and the registered ones. */
  lemma {:induction false} InternalsKeys(m: map<string, int>, regs: seq<Registration>)
    ensures forall s :: s in Internals(m, regs) <==> s in m || exists i :: 0 <= i < |regs| && regs[i].internalId == s
    decreases |regs|
  {
    if regs != [] {
      var n := |regs| - 1;
      InternalsKeys(m, regs[..n]);
      assert forall i :: 0 <= i < n ==> regs[..n][i] == regs[i];
    }
  }

  /** Every registered internal ID names the string of its last registration. */
  lemma {:induction false} InternalsLast(m: map<string, int>, regs: seq<Registration>, i: nat)
    requires i < |regs| && forall j :: i < j < |regs| ==> regs[j].internalId != regs[i].internalId
    ensures regs[i].internalId in Internals(m, regs) && Internals(m, regs)[regs[i].internalId] == regs[i].id
    decreases |regs|
  {
    var n := |regs| - 1;
    if i < n {
      InternalsLast(m, regs[..n], i);
    }
  }

  /** Every record in the graph is still without edges. */
  predicate AllBare(g: Graph)
  {
    forall id :: id in g ==> Bare(g[id])
  }

  /** Every internal ID names a string that is a key: the lookups of the structure parser find a record. */
  predicate Resolves(internals: map<string, int>, g: Graph)
  {
    forall s :: s in internals ==> internals[s] in g
  }

  /** Registration keeps every record bare, and every internal ID resolving. */
  lemma {:induction false} RegisteredKeeps(g: Graph, m: map<string, int>, regs: seq<Registration>, fileName: string, counter: int)
    requires AllBare(g) && Resolves(m, g)
    ensures AllBare(Registered(g, regs, fileName, counter))
    ensures Resolves(Internals(m, regs), Registered(g, regs, fileName, counter))
    decreases |regs|
  {
    if regs != [] {
      RegisteredKeeps(g, m, regs[..|regs| - 1], fileName, counter);
    }
  }

  // ------------------------------------------------- internal ID naming

  lemma PrefixCancel(a: string, x: string, y: string)
    requires a + x == a + y
    ensures x == y
  {
    assert x == (a + x)[|a|..];
    assert y == (a + y)[|a|..];
  }

  /** Two REPLYs of a block have different internal IDs, none of them the block's own. */
  lemma ReplyIdsDistinct(blockId: string, i: nat, j: nat)
    ensures ReplyId(blockId, i) != blockId
    ensures i != j ==> ReplyId(blockId, i) != ReplyId(blockId, j)
  {
    assert |ReplyId(blockId, i)| > |blockId|;
    if i != j && ReplyId(blockId, i) == ReplyId(blockId, j) {
      PrefixCancel(blockId + ".", NatToString(i), NatToString(j));
      NatToStringInjective(i, j);
    }
  }

  /** Two journal entries of a block have different internal IDs, none the block's own or a REPLY's. */
  lemma JournalIdsDistinct(blockId: string, k: nat, l: nat, i: nat)
    ensures JournalId(blockId, k) != blockId
    ensures JournalId(blockId, k) != ReplyId(blockId, i)
    ensures k != l ==> JournalId(blockId, k) != JournalId(blockId, l)
  {
    assert |JournalId(blockId, k)| > |blockId|;
    var n := |blockId|;
    assert JournalId(blockId, k)[n + 1] == 'J';
    assert ReplyId(blockId, i)[n + 1] == NatToString(i)[0];
    if k != l && JournalId(blockId, k) == JournalId(blockId, l) {
      PrefixCancel(blockId + ".Journal.", NatToString(k), NatToString(l));
      NatToStringInjective(k, l);
    }
  }

  /** The internal ID of the `i`-th registration of a block with `nr` REPLYs. */
  function InternalIdOf(blockId: string, nr: nat, i: nat): string
  {
    if i == 0 then blockId
    else if i <= nr then ReplyId(blockId, i - 1)
    else JournalId(blockId, i - 1 - nr)
  }

  lemma InternalIdAt(blockId: string, say: Said, b: ContentBlock, placeholder: string, i: nat)
    requires i < |BlockRegistrations(blockId, say, b, placeholder)|
    ensures BlockRegistrations(blockId, say, b, placeholder)[i].internalId == InternalIdOf(blockId, |b.replies|, i)
  {
    var nr := |b.replies|;
    var na := |b.addJournals|;
    if i == 0 {
      SayAt(blockId, say, b, placeholder);
    } else if i <= nr {
      ReplyAt(blockId, say, b, placeholder, i - 1);
    } else if i <= nr + na {
      AddJournalAt(blockId, say, b, placeholder, i - 1 - nr);
    } else {
      JournalAt(blockId, say, b, placeholder, i - 1 - nr - na);
    }
  }

  lemma InternalIdOfDistinct(blockId: string, nr: nat, i: nat, j: nat)
    requires i < j
    ensures InternalIdOf(blockId, nr, i) != InternalIdOf(blockId, nr, j)
  {
    if i == 0 {
      if j <= nr {
        ReplyIdsDistinct(blockId, j - 1, j - 1);
      } else {
        JournalIdsDistinct(blockId, j - 1 - nr, 0, 0);
      }
    } else if i <= nr {
      if j <= nr {
        ReplyIdsDistinct(blockId, i - 1, j - 1);
      } else {
        JournalIdsDistinct(blockId, j - 1 - nr, 0, i - 1);
      }
    } else {
      JournalIdsDistinct(blockId, i - 1 - nr, j - 1 - nr, 0);
    }
  }

  /**
   * Every string of a block gets its own internal ID: the SAY the block's ID,
   * the REPLYs `<block>.<i>`, the two journal kinds one shared run of
   * `<block>.Journal.<k>`.
   */
  lemma BlockInternalIdsDistinct(blockId: string, say: Said, b: ContentBlock, placeholder: string)
    ensures var r := BlockRegistrations(blockId, say, b, placeholder);
      forall i, j :: 0 <= i < j < |r| ==> r[i].internalId != r[j].internalId
  {
    var r := BlockRegistrations(blockId, say, b, placeholder);
    forall i, j | 0 <= i < j < |r| ensures r[i].internalId != r[j].internalId {
      InternalIdAt(blockId, say, b, placeholder, i);
      InternalIdAt(blockId, say, b, placeholder, j);
      InternalIdOfDistinct(blockId, |b.replies|, i, j);
    }
  }

  /**
   * After a block, the block's internal ID names its SAY, `<block>.<i>` the
   * i-th REPLY, and `<block>.Journal.<k>` the k-th journal entry, counting
   * the `AddJournalEntry` matches first.
   */
  lemma BlockNaming(m: map<string, int>, blockId: string, say: Said, b: ContentBlock, placeholder: string, i: nat)
    requires i < 1 + |b.replies| + |b.addJournals| + |b.journals|
    ensures var r := Internals(m, BlockRegistrations(blockId, say, b, placeholder));
      InternalIdOf(blockId, |b.replies|, i) in r &&
      r[InternalIdOf(blockId, |b.replies|, i)] == BlockRegistrations(blockId, say, b, placeholder)[i].id
  {
    var regs := BlockRegistrations(blockId, say, b, placeholder);
    BlockInternalIdsDistinct(blockId, say, b, placeholder);
    InternalIdAt(blockId, say, b, placeholder, i);
    InternalsLast(m, regs, i);
  }

  /** The SAY of a block is what the block's internal ID names. */
  lemma SayNaming(m: map<string, int>, blockId: string, say: Said, b: ContentBlock, placeholder: string)
    ensures var r := Internals(m, BlockRegistrations(blockId, say, b, placeholder));
      blockId in r && r[blockId] == say.id
  {
    BlockNaming(m, blockId, say, b, placeholder, 0);
  }

  // ------------------------------------------------- reading the IDs

  /** A SAY, REPLY or JOURNAL match as captured: the digits of its string ID and its text. */
  datatype SaidMatch = SaidMatch(digits: string, text: string)

  /** A block as its matches capture it, every string ID still the digits `\d+` matched. */
  datatype CapturedBlock = CapturedBlock(begin: string, say: Option<SaidMatch>, replies: seq<SaidMatch>, addJournals: seq<string>, journals: seq<SaidMatch>)

  predicate SaidParses(s: SaidMatch)
  {
    ParseInt(s.digits).Some?
  }

  /** `Integer.parseInt(group(1))` and `group(2)` of one match. */
  function ReadSaid(s: SaidMatch): Said
    requires SaidParses(s)
  {
    Said(ParseInt(s.digits).value, s.text)
  }

  /** Every ID group of the block is one `Integer.parseInt` accepts. */
  predicate IdsParse(b: CapturedBlock)
  {
    (b.say.Some? ==> SaidParses(b.say.value)) &&
    (forall i :: 0 <= i < |b.replies| ==> SaidParses(b.replies[i])) &&
    (forall k :: 0 <= k < |b.addJournals| ==> ParseInt(b.addJournals[k]).Some?) &&
    (forall l :: 0 <= l < |b.journals| ==> SaidParses(b.journals[l]))
  }

  /** The block with every ID group parsed. */
  function ReadBlock(b: CapturedBlock): ContentBlock
    requires IdsParse(b)
  {
    ContentBlock(
      b.begin,
      if b.say.Some? then Some(ReadSaid(b.say.value)) else None,
      seq(|b.replies|, i requires 0 <= i < |b.replies| && IdsParse(b) => ReadSaid(b.replies[i])),
      seq(|b.addJournals|, k requires 0 <= k < |b.addJournals| && IdsParse(b) => ParseInt(b.addJournals[k]).value),
      seq(|b.journals|, l requires 0 <= l < |b.journals| && IdsParse(b) => ReadSaid(b.journals[l])))
  }

  predicate AllIdsParse(blocks: seq<CapturedBlock>)
  {
    forall j :: 0 <= j < |blocks| ==> IdsParse(blocks[j])
  }

  function ReadBlocks(blocks: seq<CapturedBlock>): (r: seq<ContentBlock>)
    requires AllIdsParse(blocks)
    ensures |r| == |blocks|
  {
    seq(|blocks|, j requires 0 <= j < |blocks| && AllIdsParse(blocks) => ReadBlock(blocks[j]))
  }

  /** What the patterns capture: every ID group is a run of decimal digits. */
  predicate DigitGroups(b: CapturedBlock)
  {
    (b.say.Some? ==> IsDigits(b.say.value.digits)) &&
    (forall i :: 0 <= i < |b.replies| ==> IsDigits(b.replies[i].digits)) &&
    (forall k :: 0 <= k < |b.addJournals| ==> IsDigits(b.addJournals[k])) &&
    (forall l :: 0 <= l < |b.journals| ==> IsDigits(b.journals[l].digits))
  }

  /**
   * On what the patterns capture, `parseInt` throws on none of the block's
   * IDs exactly when none is above `Integer.MAX_VALUE`, and then every
   * string ID read is the decimal value of its digits, with its text.
   */
  lemma ReadBlockMeaning(b: CapturedBlock)
    requires DigitGroups(b)
    ensures IdsParse(b) <==>
      (b.say.Some? ==> DigitsValue(b.say.value.digits) <= INT_MAX) &&
      (forall i :: 0 <= i < |b.replies| ==> DigitsValue(b.replies[i].digits) <= INT_MAX) &&
      (forall k :: 0 <= k < |b.addJournals| ==> DigitsValue(b.addJournals[k]) <= INT_MAX) &&
      (forall l :: 0 <= l < |b.journals| ==> DigitsValue(b.journals[l].digits) <= INT_MAX)
    ensures IdsParse(b) ==> var r := ReadBlock(b);
      r.begin == b.begin &&
      (r.say.Some? <==> b.say.Some?) &&
      (b.say.Some? ==> r.say.value == Said(DigitsValue(b.say.value.digits), b.say.value.text)) &&
      |r.replies| == |b.replies| && |r.addJournals| == |b.addJournals| && |r.journals| == |b.journals| &&
      (forall i :: 0 <= i < |b.replies| ==> r.replies[i] == Said(DigitsValue(b.replies[i].digits), b.replies[i].text)) &&
      (forall k :: 0 <= k < |b.addJournals| ==> r.addJournals[k] == DigitsValue(b.addJournals[k])) &&
      (forall l :: 0 <= l < |b.journals| ==> r.journals[l] == Said(DigitsValue(b.journals[l].digits), b.journals[l].text))
  {
    if b.say.Some? {
      ParseIntOfDigits(b.say.value.digits);
    }
    forall i | 0 <= i < |b.replies| {
      ParseIntOfDigits(b.replies[i].digits);
    }
    forall k | 0 <= k < |b.addJournals| {
      ParseIntOfDigits(b.addJournals[k]);
    }
    forall l | 0 <= l < |b.journals| {
      ParseIntOfDigits(b.journals[l].digits);
    }
  }

  /**
   * A content parser (`DialogContentParser` with the dialog placeholder,
   * `tlk.ContentParser` with the TLK one), sharing the maps of its mode.
   */
  class ContentParser {
    const maps: Registry
    const factory: StringFactory
    const placeholder: string

    constructor (maps: Registry, factory: StringFactory, placeholder: string)
      ensures this.maps == maps && this.factory == factory && this.placeholder == placeholder
    {
      this.maps := maps;
      this.factory := factory;
      this.placeholder := placeholder;
    }

    /**
     * `DialogContentParser.parse`: internal IDs use the file name without its
     * last extension.  A name without a dot throws, and so does an ID that
     * `parseInt` rejects.
     */
    method ParseDialogFile(name: string, captured: seq<CapturedBlock>) returns (parsed: bool)
      modifies maps, factory
      ensures parsed <==> StripExtension(name).Some? && AllIdsParse(captured) && AllSaid(ReadBlocks(captured))
      ensures parsed ==> var f, blocks := StripExtension(name).value, ReadBlocks(captured);
        maps.idsToDialogs == Registered(old(maps.idsToDialogs), FileRegistrations(f, blocks, placeholder), f, old(factory.counter)) &&
        maps.internalIdsToIds == Internals(old(maps.internalIdsToIds), FileRegistrations(f, blocks, placeholder)) &&
        maps.fileNamesToIds == old(maps.fileNamesToIds)[f := SayIds(blocks)]
    {
      var f := StripExtension(name);
      if f.None? || !AllIdsParse(captured) {
        return false;
      }
      parsed := ParseBegin(f.value, ReadBlocks(captured));
    }

    /**
     * `tlk.ContentParser.parse`: internal IDs use the capture of the
     * `// argument : (.*)\.DLG` line.  `group` throws when the file has
     * none, and `parseInt` throws on an ID it rejects.
     */
    method ParseTlkFile(capture: Option<string>, captured: seq<CapturedBlock>) returns (parsed: bool)
      modifies maps, factory
      ensures parsed <==> capture.Some? && AllIdsParse(captured) && AllSaid(ReadBlocks(captured))
      ensures parsed ==> var f, blocks := capture.value, ReadBlocks(captured);
        maps.idsToDialogs == Registered(old(maps.idsToDialogs), FileRegistrations(f, blocks, placeholder), f, old(factory.counter)) &&
        maps.internalIdsToIds == Internals(old(maps.internalIdsToIds), FileRegistrations(f, blocks, placeholder)) &&
        maps.fileNamesToIds == old(maps.fileNamesToIds)[f := SayIds(blocks)]
    {
      if capture.None? || !AllIdsParse(captured) {
        return false;
      }
      parsed := ParseBegin(capture.value, ReadBlocks(captured));
    }

    /**
     * `parseBegin`: the file's list starts empty, then every block is
     * registered in turn.  A block without a SAY makes `group` throw; the
     * method then answers `false`.
     */
    method ParseBegin(fileName: string, blocks: seq<ContentBlock>) returns (parsed: bool)
      modifies maps, factory
      ensures parsed <==> AllSaid(blocks)
      ensures parsed ==> (maps.idsToDialogs ==
        Registered(old(maps.idsToDialogs), FileRegistrations(fileName, blocks, placeholder), fileName, old(factory.counter)))
      ensures parsed ==> maps.internalIdsToIds == Internals(old(maps.internalIdsToIds), FileRegistrations(fileName, blocks, placeholder))
      ensures parsed ==> maps.fileNamesToIds == old(maps.fileNamesToIds)[fileName := SayIds(blocks)]
      ensures parsed ==> factory.counter == old(factory.counter) + |FileRegistrations(fileName, blocks, placeholder)|
    {
      ghost var g := maps.idsToDialogs;
      ghost var m := maps.internalIdsToIds;
      ghost var c := factory.counter;
      assert blocks[..0] == [];
      maps.fileNamesToIds := maps.fileNamesToIds[fileName := []];
      ghost var files0 := old(maps.fileNamesToIds);
      ghost var done: seq<Registration> := [];
      var j := 0;
      while j < |blocks|
        invariant 0 <= j <= |blocks| && AllSaid(blocks[..j])
        invariant done == FileRegistrations(fileName, blocks[..j], placeholder)
        invariant maps.idsToDialogs == Registered(g, done, fileName, c)
        invariant maps.internalIdsToIds == Internals(m, done)
        invariant maps.fileNamesToIds == files0[fileName := SayIds(blocks[..j])]
        invariant factory.counter == c + |done|
      {
        var b := blocks[j];
        if b.say.None? {
          return false;
        }
        ghost var regs := BlockRegistrations(BlockId(fileName, b.begin), b.say.value, b, placeholder);
        ghost var g0, m0, c0 := maps.idsToDialogs, maps.internalIdsToIds, factory.counter;
        ghost var files := maps.fileNamesToIds;
        ParseBlock(fileName, BlockId(fileName, b.begin), b);
        FileSnoc(fileName, blocks, j, placeholder);
        PutTwice(files0, fileName, SayIds(blocks[..j]), SayIds(blocks[..j + 1]));
        RegisteredStep(g, m, done, regs, fileName, c, g0, m0, c0, maps.idsToDialogs, maps.internalIdsToIds);
        done := done + regs;
        j := j + 1;
      }
      assert blocks[..j] == blocks;
      parsed := true;
    }

    /** One string of a block: `create` its record, `put` it under its ID, and `put` its internal ID. */
    method Put(fileName: string, reg: Registration)
      modifies maps, factory
      ensures maps.idsToDialogs == old(maps.idsToDialogs)[reg.id := Created(reg, fileName, old(factory.counter))]
      ensures maps.internalIdsToIds == old(maps.internalIdsToIds)[reg.internalId := reg.id]
      ensures maps.fileNamesToIds == old(maps.fileNamesToIds)
      ensures factory.counter == old(factory.counter) + 1
    {
      var record := factory.Create(reg.text, reg.kind, fileName);
      maps.idsToDialogs := maps.idsToDialogs[reg.id := record];
      maps.internalIdsToIds := maps.internalIdsToIds[reg.internalId := reg.id];
    }

    /** The SAY of `parseBlock`, then its three loops, the strings numbered block by block. */
    method ParseBlock(fileName: string, blockId: string, b: ContentBlock)
      requires b.say.Some? && fileName in maps.fileNamesToIds
      modifies maps, factory
      ensures maps.idsToDialogs ==
        Registered(old(maps.idsToDialogs), BlockRegistrations(blockId, b.say.value, b, placeholder), fileName, old(factory.counter))
      ensures maps.internalIdsToIds == Internals(old(maps.internalIdsToIds), BlockRegistrations(blockId, b.say.value, b, placeholder))
      ensures maps.fileNamesToIds == old(maps.fileNamesToIds)[fileName := old(maps.fileNamesToIds)[fileName] + [b.say.value.id]]
      ensures factory.counter == old(factory.counter) + 1 + |b.replies| + |b.addJournals| + |b.journals|
    {
      ghost var g := maps.idsToDialogs;
      ghost var m := maps.internalIdsToIds;
      ghost var c := factory.counter;
      var say := b.say.value;
      ghost var first := [Registration(say.id, blockId, say.text, Dialog)];
      ghost var replies := ReplyRegistrations(blockId, b.replies);
      ghost var adds := AddJournalRegistrations(blockId, b.addJournals, placeholder);
      ghost var journals := JournalRegistrations(blockId, b.journals, |b.addJournals|);
      Put(fileName, Registration(say.id, blockId, say.text, Dialog));
      maps.fileNamesToIds := maps.fileNamesToIds[fileName := maps.fileNamesToIds[fileName] + [say.id]];
      RegisteredSingle(g, m, first[0], fileName, c);
      ghost var g1, m1, c1 := maps.idsToDialogs, maps.internalIdsToIds, factory.counter;
      ParseReplies(fileName, blockId, b.replies);
      RegisteredStep(g, m, first, replies, fileName, c, g1, m1, c1, maps.idsToDialogs, maps.internalIdsToIds);
      ghost var g2, m2, c2 := maps.idsToDialogs, maps.internalIdsToIds, factory.counter;
      ParseAddJournals(fileName, blockId, b.addJournals);
      RegisteredStep(g, m, first + replies, adds, fileName, c, g2, m2, c2, maps.idsToDialogs, maps.internalIdsToIds);
      ghost var g3, m3, c3 := maps.idsToDialogs, maps.internalIdsToIds, factory.counter;
      ParseJournals(fileName, blockId, b.journals, |b.addJournals|);
      RegisteredStep(g, m, first + replies + adds, journals, fileName, c, g3, m3, c3, maps.idsToDialogs, maps.internalIdsToIds);
      assert BlockRegistrations(blockId, say, b, placeholder) == first + replies + adds + journals;
    }

    /** The REPLY loop of `parseBlock`: the i-th REPLY under `<block>.<i>`. */
    method ParseReplies(fileName: string, blockId: string, replies: seq<Said>)
      modifies maps, factory
      ensures maps.idsToDialogs ==
        Registered(old(maps.idsToDialogs), ReplyRegistrations(blockId, replies), fileName, old(factory.counter))
      ensures maps.internalIdsToIds == Internals(old(maps.internalIdsToIds), ReplyRegistrations(blockId, replies))
      ensures maps.fileNamesToIds == old(maps.fileNamesToIds)
      ensures factory.counter == old(factory.counter) + |replies|
    {
      ghost var g := maps.idsToDialogs;
      ghost var m := maps.internalIdsToIds;
      ghost var c := factory.counter;
      ghost var regs := ReplyRegistrations(blockId, replies);
      var i := 0;
      while i < |replies|
        invariant 0 <= i <= |replies|
        invariant maps.idsToDialogs == Registered(g, regs[..i], fileName, c)
        invariant maps.internalIdsToIds == Internals(m, regs[..i])
        invariant factory.counter == c + i && maps.fileNamesToIds == old(maps.fileNamesToIds)
      {
        var reply := replies[i];
        Put(fileName, Registration(reply.id, blockId + "." + NatToString(i), reply.text, Dialog));
        RegisteredSnoc(g, m, regs, i, fileName, c);
        i := i + 1;
      }
      assert regs[..i] == regs;
    }

    /** The `AddJournalEntry` loop: the k-th under `<block>.Journal.<k>`, with the placeholder text. */
    method ParseAddJournals(fileName: string, blockId: string, ids: seq<int>)
      modifies maps, factory
      ensures maps.idsToDialogs ==
        Registered(old(maps.idsToDialogs), AddJournalRegistrations(blockId, ids, placeholder), fileName, old(factory.counter))
      ensures maps.internalIdsToIds == Internals(old(maps.internalIdsToIds), AddJournalRegistrations(blockId, ids, placeholder))
      ensures maps.fileNamesToIds == old(maps.fileNamesToIds)
      ensures factory.counter == old(factory.counter) + |ids|
    {
      ghost var g := maps.idsToDialogs;
      ghost var m := maps.internalIdsToIds;
      ghost var c := factory.counter;
      ghost var regs := AddJournalRegistrations(blockId, ids, placeholder);
      var k := 0;
      while k < |ids|
        invariant 0 <= k <= |ids|
        invariant maps.idsToDialogs == Registered(g, regs[..k], fileName, c)
        invariant maps.internalIdsToIds == Internals(m, regs[..k])
        invariant factory.counter == c + k && maps.fileNamesToIds == old(maps.fileNamesToIds)
      {
        var id := ids[k];
        Put(fileName, Registration(id, blockId + ".Journal." + NatToString(k), placeholder, Journal));
        RegisteredSnoc(g, m, regs, k, fileName, c);
        k := k + 1;
      }
      assert regs[..k] == regs;
    }

    /** The JOURNAL loop: the journal counter `k` goes on from where the `AddJournalEntry` loop left it. */
    method ParseJournals(fileName: string, blockId: string, journals: seq<Said>, k: nat)
      modifies maps, factory
      ensures maps.idsToDialogs ==
        Registered(old(maps.idsToDialogs), JournalRegistrations(blockId, journals, k), fileName, old(factory.counter))
      ensures maps.internalIdsToIds == Internals(old(maps.internalIdsToIds), JournalRegistrations(blockId, journals, k))
      ensures maps.fileNamesToIds == old(maps.fileNamesToIds)
      ensures factory.counter == old(factory.counter) + |journals|
    {
      ghost var g := maps.idsToDialogs;
      ghost var m := maps.internalIdsToIds;
      ghost var c := factory.counter;
      ghost var regs := JournalRegistrations(blockId, journals, k);
      var l := 0;
      while l < |journals|
        invariant 0 <= l <= |journals|
        invariant maps.idsToDialogs == Registered(g, regs[..l], fileName, c)
        invariant maps.internalIdsToIds == Internals(m, regs[..l])
        invariant factory.counter == c + l && maps.fileNamesToIds == old(maps.fileNamesToIds)
      {
        var journal := journals[l];
        Put(fileName, Registration(journal.id, blockId + ".Journal." + NatToString(k + l), journal.text, Journal));
        RegisteredSnoc(g, m, regs, l, fileName, c);
        l := l + 1;
      }
      assert regs[..l] == regs;
    }
  }
}
