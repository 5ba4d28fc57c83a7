/**
 * One string of a dialog (`tlk.DialogString`, and its twin in the dialog
 * package, which adds a third edge set, the neighbours of a script string).
 *
 * A record carries an internal ID that only tells records apart, the name of
 * the file that holds it, its text, its kind, and three insertion-ordered
 * sets of string IDs: the strings it leads to (children), the strings that
 * lead to it (parents), and, for script strings, the strings of the same
 * script file (neighbours).
 */
module DialogString {
  import opened Collections
  import opened JavaLang

  /** `DialogString.Type`; the two script kinds exist only in the dialog package. */
  datatype StringType = Dialog | Journal | ScriptHead | ScriptJournal | Error

  /** Which of a record's three ID sets an edge operation works on. */
  datatype Side = ChildSide | ParentSide | NeighborSide

  /** The set an edge is recorded in at its other end. */
  function Opposite(side: Side): Side
  {
    match side
    case ChildSide => ParentSide
    case ParentSide => ChildSide
    case NeighborSide => NeighborSide
  }

  datatype TranslationString = TranslationString(
    internalId: int,
    filename: string,
    text: string,
    kind: StringType,
    children: seq<int>,
    parents: seq<int>,
    neighbors: seq<int>)
  {
    /** Every `Set` of the Java object holds each ID once. */
    predicate Valid()
    {
      NoDup(children) && NoDup(parents) && NoDup(neighbors)
    }

    function Edges(side: Side): seq<int>
    {
      match side
      case ChildSide => children
      case ParentSide => parents
      case NeighborSide => neighbors
    }

    /** The record with `side` replaced; identity, text, kind and the other two sets kept. */
    function WithEdges(side: Side, s: seq<int>): (r: TranslationString)
      ensures r.Edges(side) == s
      ensures forall o :: o != side ==> r.Edges(o) == Edges(o)
      ensures r.internalId == internalId && r.filename == filename && r.text == text && r.kind == kind
    {
      match side
      case ChildSide => this.(children := s)
      case ParentSide => this.(parents := s)
      case NeighborSide => this.(neighbors := s)
    }

    /** `addChild`, `addParent`, `addNeighbor`: `LinkedHashSet.add` on one of the three sets. */
    function Add(side: Side, id: int): (r: TranslationString)
      ensures Elems(r.Edges(side)) == Elems(Edges(side)) + {id}
      ensures |r.Edges(side)| <= |Edges(side)| + 1
      ensures side != ChildSide ==> r.children == children
      ensures side != ParentSide ==> r.parents == parents
      ensures side != NeighborSide ==> r.neighbors == neighbors
      ensures r.internalId == internalId && r.filename == filename && r.text == text && r.kind == kind
      ensures id !in Edges(side) ==> r.Edges(side) == Edges(side) + [id]
      ensures id in Edges(side) ==> r == this
    {
      if id in Edges(side) then
        match side
        case ChildSide => this
        case ParentSide => this
        case NeighborSide => this
      else
        InsertFresh(Edges(side), id);
        WithEdges(side, Insert(Edges(side), id))
    }

    /** `removeChild`, `removeParent`, `removeNeighbor`: `Set.remove` on one of the three sets. */
    function Drop(side: Side, id: int): (r: TranslationString)
      ensures Elems(r.Edges(side)) == Elems(Edges(side)) - {id}
      ensures side != ChildSide ==> r.children == children
      ensures side != ParentSide ==> r.parents == parents
      ensures side != NeighborSide ==> r.neighbors == neighbors
      ensures r.internalId == internalId && r.filename == filename && r.text == text && r.kind == kind
      ensures r.Edges(side) == FilterOut(Edges(side), {id}) && Subsequence(r.Edges(side), Edges(side))
      ensures id !in Edges(side) ==> r == this
    {
      RemoveIsFilterOut(Edges(side), id);
      if id !in Edges(side) then
        RemoveAbsent(Edges(side), id);
        match side
        case ChildSide => this
        case ParentSide => this
        case NeighborSide => this
      else
        WithEdges(side, Remove(Edges(side), id))
    }

    /**
     * `getText(f)`: the bare text when the record comes from file `f`,
     * otherwise the text prefixed with the record's own file name and ": ".
     */
    function GetText(f: string): (r: string)
      ensures |r| >= |text| && r[|r| - |text|..] == text
      ensures (r == text) <==> (filename == f)
      ensures filename != f ==> |r| == |filename| + 2 + |text| && r[..|filename|] == filename && r[|filename|..|filename| + 2] == ": "
    {
      if filename == f then text else filename + ": " + text
    }
  }

  /** A string of a script file: SCRIPT_HEAD or SCRIPT_JOURNAL. */
  predicate IsScript(kind: StringType)
  {
    kind == ScriptHead || kind == ScriptJournal
  }

  /** A fresh record: no edges yet. */
  predicate Bare(r: TranslationString)
  {
    r.children == [] && r.parents == [] && r.neighbors == []
  }

  /** Adding and removing keep every set duplicate-free. */
  lemma EditValid(r: TranslationString, side: Side, id: int)
    requires r.Valid()
    ensures r.Add(side, id).Valid() && r.Drop(side, id).Valid()
  {
    var s := r.Edges(side);
    assert NoDup(s);
    assert NoDup(Insert(s, id)) && NoDup(Remove(s, id));
    match side
    case ChildSide =>
    case ParentSide =>
    case NeighborSide =>
  }

  /** Removing an ID that was just added restores the set, when it was not there before. */
  lemma DropAfterAdd(r: TranslationString, side: Side, id: int)
    requires id !in r.Edges(side)
    ensures r.Add(side, id).Drop(side, id) == r
  {
    var s := r.Edges(side);
    InsertFresh(s, id);
    RemoveAppended(s, id);
    RemoveAbsent(s, id);
    match side
    case ChildSide =>
    case ParentSide =>
    case NeighborSide =>
  }

  /** Adding an ID twice is adding it once. */
  lemma AddIdempotent(r: TranslationString, side: Side, id: int)
    ensures r.Add(side, id).Add(side, id) == r.Add(side, id)
  {
  }

  /** Removing an ID twice is removing it once. */
  lemma DropIdempotent(r: TranslationString, side: Side, id: int)
    ensures r.Drop(side, id).Drop(side, id) == r.Drop(side, id)
  {
    RemoveAbsent(Remove(r.Edges(side), id), id);
  }

  /**
   * `compareTo`: by text first (`String.compareTo`), and between equal texts
   * by internal ID.  The Java code returns `id - o.id`; the internal IDs are
   * small counters, so the subtraction is taken exactly.
   */
  function CompareTo(a: TranslationString, b: TranslationString): int
  {
    var byText := CompareStrings(a.text, b.text);
    if byText != 0 then byText else a.internalId - b.internalId
  }

  /** Swapping the operands negates the comparison. */
  lemma CompareToAntisymmetric(a: TranslationString, b: TranslationString)
    ensures CompareTo(a, b) == -CompareTo(b, a)
  {
    CompareStringsAntisymmetric(a.text, b.text);
  }

  /** Two records compare equal exactly when they have the same text and the same internal ID. */
  lemma CompareToZero(a: TranslationString, b: TranslationString)
    ensures CompareTo(a, b) == 0 <==> a.text == b.text && a.internalId == b.internalId
  {
    CompareStringsZero(a.text, b.text);
  }

  /**
   * The static `counter` behind `DialogString.create`: every created record
   * gets the current value as its internal ID, and the counter moves on.
   */
  class StringFactory {
    var counter: int

    constructor ()
      ensures counter == 0
    {
      counter := 0;
    }

    /** `create(text, type, filename)`: a record with no edges and the next internal ID. */
    method Create(text: string, kind: StringType, filename: string) returns (r: TranslationString)
      modifies this
      ensures r == TranslationString(old(counter), filename, text, kind, [], [], [])
      ensures counter == old(counter) + 1
    {
      r := TranslationString(counter, filename, text, kind, [], [], []);
      counter := counter + 1;
    }
  }

  /** Records made by different `create` calls never compare equal, whatever their texts. */
  lemma CreatedRecordsDiffer(a: TranslationString, b: TranslationString)
    requires a.internalId < b.internalId
    ensures CompareTo(a, b) != 0 && CompareTo(a, b) == -CompareTo(b, a)
  {
    CompareToZero(a, b);
    CompareToAntisymmetric(a, b);
  }
}
