/**
 * The string graph every dialog mode builds: `idsToDialogs` maps a string ID
 * to its record, `internalIdsToIds` maps an internal ID such as `file:3` to a
 * string ID, and `fileNamesToIds` lists the string IDs of each source file.
 * The three maps are owned by a mode and handed by reference to the parsers,
 * which is why they live together in one shared `Registry` object here.
 *
 * The sentinel ID -1 stands for every reference that could not be resolved.
 */
module StringGraph {
  import opened Collections
  import opened JavaLang
  import opened DialogString

  type Graph = map<int, TranslationString>

  /** ID of the `INVALID REFERENCE` record. */
  const INVALID_ID: int := -1

  /** Every ID recorded in an edge set is a key: `idsToDialogs.get` never returns null. */
  predicate Closed(g: Graph)
  {
    forall id, side, x :: id in g && x in g[id].Edges(side) ==> x in g
  }

  /** Every edge is recorded at both ends: a child knows its parent, a neighbour its neighbour. */
  predicate Symmetric(g: Graph)
  {
    forall a, b, side :: a in g && b in g && b in g[a].Edges(side) ==> a in g[b].Edges(Opposite(side))
  }

  /** Every record's three sets are duplicate-free. */
  predicate WellFormed(g: Graph)
  {
    forall id :: id in g ==> g[id].Valid()
  }

  /** The graph invariant the parsers establish and the chop relies on. */
  predicate Consistent(g: Graph)
  {
    Closed(g) && Symmetric(g) && WellFormed(g)
  }

  lemma OppositeInvolutive(side: Side)
    ensures Opposite(Opposite(side)) == side
  {
  }

  /**
   * `get(a).addChild(b); get(b).addParent(a)` and the neighbour analogue:
   * `b` enters `a`'s `side` set, then `a` enters `b`'s opposite set (of the
   * same record when `a == b`).
   */
  function Linked(g: Graph, a: int, b: int, side: Side): (r: Graph)
    requires a in g && b in g
    ensures r.Keys == g.Keys
  {
    var g1 := g[a := g[a].Add(side, b)];
    g1[b := g1[b].Add(Opposite(side), a)]
  }

  /** Linking only adds: each set of record `k` gains at most the one new ID meant for it. */
  lemma LinkEdgesAt(g: Graph, a: int, b: int, side: Side, k: int)
    requires a in g && b in g && k in g
    ensures forall s, y :: y in Linked(g, a, b, side)[k].Edges(s) <==>
      y in g[k].Edges(s) || (k == a && s == side && y == b) || (k == b && s == Opposite(side) && y == a)
    ensures Linked(g, a, b, side)[k].internalId == g[k].internalId && Linked(g, a, b, side)[k].text == g[k].text
    ensures Linked(g, a, b, side)[k].kind == g[k].kind && Linked(g, a, b, side)[k].filename == g[k].filename
    ensures side != NeighborSide ==> Linked(g, a, b, side)[k].neighbors == g[k].neighbors
  {
    var g1 := g[a := g[a].Add(side, b)];
    var r := Linked(g, a, b, side);
    assert r == g1[b := g1[b].Add(Opposite(side), a)];
    if k == b {
      assert r[k] == g1[b].Add(Opposite(side), a);
      if k == a {
        assert g1[b] == g[a].Add(side, b);
      } else {
        assert g1[b] == g[b];
      }
    } else if k == a {
      assert r[k] == g[a].Add(side, b);
    } else {
      assert r[k] == g[k];
    }
  }

  /** Linking two registered strings keeps every edge recorded at both ends. */
  lemma LinkSymmetric(g: Graph, a: int, b: int, side: Side)
    requires a in g && b in g && Symmetric(g)
    ensures Symmetric(Linked(g, a, b, side))
  {
    var r := Linked(g, a, b, side);
    forall p, q, s | p in r && q in r && q in r[p].Edges(s)
      ensures p in r[q].Edges(Opposite(s))
    {
      LinkEdgesAt(g, a, b, side, p);
      LinkEdgesAt(g, a, b, side, q);
      if q in g[p].Edges(s) {
        assert p in g[q].Edges(Opposite(s));
      } else if p == a && s == side && q == b {
        assert p in r[q].Edges(Opposite(s));
      } else {
        assert p == b && s == Opposite(side) && q == a;
        OppositeInvolutive(side);
      }
    }
  }

  /** Linking two registered strings adds no dangling reference. */
  lemma LinkClosed(g: Graph, a: int, b: int, side: Side)
    requires a in g && b in g && Closed(g)
    ensures Closed(Linked(g, a, b, side))
  {
    var r := Linked(g, a, b, side);
    forall id, s, x | id in r && x in r[id].Edges(s)
      ensures x in r
    {
      LinkEdgesAt(g, a, b, side, id);
    }
  }

  /** Linking keeps every set duplicate-free. */
  lemma LinkWellFormed(g: Graph, a: int, b: int, side: Side)
    requires a in g && b in g && WellFormed(g)
    ensures WellFormed(Linked(g, a, b, side))
  {
    var g1 := g[a := g[a].Add(side, b)];
    EditValid(g[a], side, b);
    assert WellFormed(g1);
    EditValid(g1[b], Opposite(side), a);
  }

  /** Linking two registered strings keeps the graph consistent. */
  lemma LinkConsistent(g: Graph, a: int, b: int, side: Side)
    requires a in g && b in g && Consistent(g)
    ensures Consistent(Linked(g, a, b, side))
  {
    LinkSymmetric(g, a, b, side);
    LinkClosed(g, a, b, side);
    LinkWellFormed(g, a, b, side);
  }

  /** Record `t` with every ID of `drop` filtered out of its three sets. */
  function StripRecord(t: TranslationString, drop: set<int>): TranslationString
  {
    t.(children := FilterOut(t.children, drop),
       parents := FilterOut(t.parents, drop),
       neighbors := FilterOut(t.neighbors, drop))
  }

  lemma StripEdges(t: TranslationString, drop: set<int>, side: Side)
    ensures StripRecord(t, drop).Edges(side) == FilterOut(t.Edges(side), drop)
  {
  }

  /** No record has neighbours: the shape of every graph of the TLK package, whose records have no such set. */
  predicate NoNeighbors(g: Graph)
  {
    forall k :: k in g ==> g[k].neighbors == []
  }

  /** The graph without the IDs of `drop`, both as keys and inside the surviving records. */
  function Strip(g: Graph, drop: set<int>): (r: Graph)
    ensures r.Keys == g.Keys - drop
  {
    map k | k in g && k !in drop :: StripRecord(g[k], drop)
  }

  /** The keys outside `[lo, hi]`. */
  function OutOfRange(keys: set<int>, lo: int, hi: int): (r: set<int>)
    ensures forall k :: k in r <==> k in keys && (k < lo || k > hi)
  {
    set k | k in keys && (k < lo || k > hi)
  }

  /** Visiting one more key `x` adds it to the removed keys exactly when it lies outside `[lo, hi]`. */
  lemma OutOfRangeStep(keys: set<int>, todo: set<int>, x: int, lo: int, hi: int)
    requires x in todo && todo <= keys
    ensures OutOfRange(keys - (todo - {x}), lo, hi) ==
      if x < lo || x > hi then OutOfRange(keys - todo, lo, hi) + {x} else OutOfRange(keys - todo, lo, hi)
  {
  }

  /** `for (each : ids) get(each).remove<side>(x)`: the records named in `ids` lose `x` from `side`. */
  function Detach(g: Graph, x: int, ids: seq<int>, side: Side): (r: Graph)
    ensures r.Keys == g.Keys
  {
    map k | k in g :: if k in ids then g[k].Drop(side, x) else g[k]
  }

  /** One more step of the inner chop loop: the record `ids[i]` loses `x` as well. */
  lemma DetachStep(g: Graph, x: int, ids: seq<int>, i: int, side: Side)
    requires 0 <= i < |ids| && ids[i] in g
    ensures Detach(g, x, ids[..i + 1], side) ==
      Detach(g, x, ids[..i], side)[ids[i] := Detach(g, x, ids[..i], side)[ids[i]].Drop(side, x)]
  {
    var y := ids[i];
    var d := Detach(g, x, ids[..i], side);
    var e := Detach(g, x, ids[..i + 1], side);
    var u := d[y := d[y].Drop(side, x)];
    forall k | k in g
      ensures e[k] == u[k]
    {
      DetachStepAt(g, x, ids, i, side, k);
    }
    GraphExt(e, u);
  }

  /** `DetachStep` at one key. */
  lemma DetachStepAt(g: Graph, x: int, ids: seq<int>, i: int, side: Side, k: int)
    requires 0 <= i < |ids| && ids[i] in g && k in g
    ensures var d := Detach(g, x, ids[..i], side);
      Detach(g, x, ids[..i + 1], side)[k] == d[ids[i] := d[ids[i]].Drop(side, x)][k]
  {
    var y := ids[i];
    assert ids[..i + 1] == ids[..i] + [y];
    assert k in ids[..i + 1] <==> k in ids[..i] || k == y;
    if k == y {
      DropIdempotent(g[y], side, x);
    }
  }

  /**
   * One removal of the chop loop: `x`'s children lose parent `x`, then (its
   * record re-read) its parents lose child `x`, then its neighbours lose
   * neighbour `x`, and finally `x` itself goes.
   */
  function Unlink(g: Graph, x: int, withNeighbors: bool): (r: Graph)
    requires x in g
    ensures r.Keys == g.Keys - {x}
  {
    var g1 := Detach(g, x, g[x].children, ParentSide);
    var g2 := Detach(g1, x, g1[x].parents, ChildSide);
    var g3 := if withNeighbors then Detach(g2, x, g2[x].neighbors, NeighborSide) else g2;
    g3 - {x}
  }

  /** Filtering out one more ID: from `drop` to `drop + {x}` the sequence loses `x` exactly when it held it. */
  lemma FilterOutStep(s: seq<int>, drop: set<int>, x: int, had: bool)
    requires had <==> x in s
    ensures FilterOut(s, drop + {x}) == if had && x !in drop then Remove(FilterOut(s, drop), x) else FilterOut(s, drop)
  {
    FilterOutMore(s, drop, x);
    if !(had && x !in drop) {
      RemoveAbsent(FilterOut(s, drop), x);
    }
  }

  /** `t.remove<side>(x)` when `c` holds, `t` otherwise. */
  function DropIf(t: TranslationString, side: Side, x: int, c: bool): TranslationString
  {
    if c then t.Drop(side, x) else t
  }

  /**
   * A stripped record that loses `x` from exactly the sets that hold it is
   * the record stripped of one more ID.
   */
  lemma StripRecordStep(t: TranslationString, drop: set<int>, x: int, lp: bool, lc: bool, ln: bool, withNeighbors: bool)
    requires x !in drop
    requires lp <==> x in t.parents
    requires lc <==> x in t.children
    requires ln <==> x in t.neighbors
    requires withNeighbors || !ln
    ensures DropIf(DropIf(DropIf(StripRecord(t, drop), ParentSide, x, lp), ChildSide, x, lc), NeighborSide, x, withNeighbors && ln)
      == StripRecord(t, drop + {x})
  {
    FilterOutStep(t.children, drop, x, lc);
    FilterOutStep(t.parents, drop, x, lp);
    FilterOutStep(t.neighbors, drop, x, ln);
  }

  /** By symmetry, `x` lies in `k`'s `side` set exactly when `k` lies in `x`'s opposite set. */
  lemma SymmetricAt(g: Graph, x: int, k: int, side: Side)
    requires Symmetric(g) && x in g && k in g
    ensures x in g[k].Edges(side) <==> k in g[x].Edges(Opposite(side))
  {
    OppositeInvolutive(side);
  }

  /** In a closed graph the three sets of a record name keys only. */
  lemma ClosedAt(g: Graph, x: int)
    requires Closed(g) && x in g
    ensures Elems(g[x].children) <= g.Keys && Elems(g[x].parents) <= g.Keys && Elems(g[x].neighbors) <= g.Keys
  {
    forall y | y in g[x].children ensures y in g {
      assert y in g[x].Edges(ChildSide);
    }
    forall y | y in g[x].parents ensures y in g {
      assert y in g[x].Edges(ParentSide);
    }
    forall y | y in g[x].neighbors ensures y in g {
      assert y in g[x].Edges(NeighborSide);
    }
  }

  lemma DetachAt(m: Graph, x: int, ids: seq<int>, side: Side, k: int)
    requires k in m
    ensures Detach(m, x, ids, side)[k] == DropIf(m[k], side, x, k in ids)
  {
  }

  /** Dropping `x` leaves every other ID where it was. */
  lemma DropIfKeeps(t: TranslationString, side: Side, x: int, c: bool, k: int)
    requires k != x
    ensures k in DropIf(t, side, x, c).children <==> k in t.children
    ensures k in DropIf(t, side, x, c).parents <==> k in t.parents
    ensures k in DropIf(t, side, x, c).neighbors <==> k in t.neighbors
  {
    assert DropIf(t, side, x, c).Edges(ChildSide) == DropIf(t, side, x, c).children;
    assert DropIf(t, side, x, c).Edges(ParentSide) == DropIf(t, side, x, c).parents;
    assert DropIf(t, side, x, c).Edges(NeighborSide) == DropIf(t, side, x, c).neighbors;
  }

  /** What one removal does to another record `k`: it loses `x` from each set whose counterpart in `x` names `k`. */
  lemma UnlinkAt(m: Graph, x: int, withNeighbors: bool, k: int)
    requires x in m && k in m && k != x
    ensures Unlink(m, x, withNeighbors)[k] ==
      DropIf(DropIf(DropIf(m[k], ParentSide, x, k in m[x].children), ChildSide, x, k in m[x].parents),
             NeighborSide, x, withNeighbors && k in m[x].neighbors)
  {
    var g1 := Detach(m, x, m[x].children, ParentSide);
    DetachAt(m, x, m[x].children, ParentSide, k);
    DetachAt(m, x, m[x].children, ParentSide, x);
    DropIfKeeps(m[x], ParentSide, x, x in m[x].children, k);
    var g2 := Detach(g1, x, g1[x].parents, ChildSide);
    DetachAt(g1, x, g1[x].parents, ChildSide, k);
    DetachAt(g1, x, g1[x].parents, ChildSide, x);
    DropIfKeeps(g1[x], ChildSide, x, x in g1[x].parents, k);
    var g3 := if withNeighbors then Detach(g2, x, g2[x].neighbors, NeighborSide) else g2;
    if withNeighbors {
      DetachAt(g2, x, g2[x].neighbors, NeighborSide, k);
    }
    MinusAt(g3, x, k);
  }

  lemma MinusAt(m: Graph, x: int, k: int)
    requires k in m && k != x
    ensures k in m - {x} && (m - {x})[k] == m[k]
  {
  }

  /** Symmetry between the records `x` and `k`, set by set. */
  lemma SymmetricRecords(g: Graph, x: int, k: int)
    requires Symmetric(g) && x in g && k in g
    ensures x in g[k].parents <==> k in g[x].children
    ensures x in g[k].children <==> k in g[x].parents
    ensures x in g[k].neighbors <==> k in g[x].neighbors
  {
    SymmetricAt(g, x, k, ChildSide);
    SymmetricAt(g, x, k, ParentSide);
    SymmetricAt(g, x, k, NeighborSide);
    assert g[k].Edges(ParentSide) == g[k].parents && g[k].Edges(ChildSide) == g[k].children;
    assert g[x].Edges(ParentSide) == g[x].parents && g[x].Edges(ChildSide) == g[x].children;
  }

  /** The fate of one surviving record `k` when `x` is removed. */
  lemma UnlinkStripAt(g: Graph, drop: set<int>, x: int, withNeighbors: bool, k: int)
    requires x in g && x !in drop && k in g && k !in drop && k != x
    requires x in g[k].parents <==> k in g[x].children
    requires x in g[k].children <==> k in g[x].parents
    requires x in g[k].neighbors <==> k in g[x].neighbors
    requires withNeighbors || g[x].neighbors == []
    ensures Unlink(Strip(g, drop), x, withNeighbors)[k] == StripRecord(g[k], drop + {x})
  {
    var s := Strip(g, drop);
    assert s[x] == StripRecord(g[x], drop);
    assert s[k] == StripRecord(g[k], drop);
    UnlinkAt(s, x, withNeighbors, k);
    StripRecordStep(g[k], drop, x, k in g[x].children, k in g[x].parents, k in g[x].neighbors, withNeighbors);
  }

  /**
   * Removing `x` from a graph that is already stripped of `drop` strips it
   * of `drop + {x}`: by symmetry, the records that lose a reference to `x`
   * are exactly those that hold one.
   */
  lemma UnlinkStrip(g: Graph, drop: set<int>, x: int, withNeighbors: bool)
    requires Symmetric(g)
    requires x in g && x !in drop
    requires withNeighbors || g[x].neighbors == []
    ensures Unlink(Strip(g, drop), x, withNeighbors) == Strip(g, drop + {x})
  {
    var u := Unlink(Strip(g, drop), x, withNeighbors);
    var t := Strip(g, drop + {x});
    forall k | k in t
      ensures u[k] == t[k]
    {
      UnlinkStripSym(g, drop, x, withNeighbors, k);
    }
    GraphExt(u, t);
  }

  lemma UnlinkStripSym(g: Graph, drop: set<int>, x: int, withNeighbors: bool, k: int)
    requires Symmetric(g)
    requires x in g && x !in drop && k in g && k !in drop && k != x
    requires withNeighbors || g[x].neighbors == []
    ensures Unlink(Strip(g, drop), x, withNeighbors)[k] == StripRecord(g[k], drop + {x})
  {
    SymmetricRecords(g, x, k);
    UnlinkStripAt(g, drop, x, withNeighbors, k);
  }

  lemma GraphExt(u: Graph, t: Graph)
    requires u.Keys == t.Keys
    requires forall k :: k in t ==> u[k] == t[k]
    ensures u == t
  {
    assert forall k :: k in u ==> k in t && u[k] == t[k];
  }

  /** `removeIf(i -> !keys.contains(i))` on every file list, and every list left empty removed. */
  function ChopFiles(files: map<string, seq<int>>, keys: set<int>): (r: map<string, seq<int>>)
    ensures forall n :: n in r <==> n in files && FilterIn(files[n], keys) != []
  {
    map n | n in files && FilterIn(files[n], keys) != [] :: FilterIn(files[n], keys)
  }

  /** The registry after `chopMappingsToRange(lo, hi)`. */
  function Chopped(g: Graph, lo: int, hi: int): Graph
  {
    Strip(g, OutOfRange(g.Keys, lo, hi))
  }

  /** After the chop, the keys are exactly the old keys inside `[lo, hi]`. */
  lemma ChoppedKeys(g: Graph, lo: int, hi: int)
    ensures forall k :: k in Chopped(g, lo, hi) <==> k in g && lo <= k <= hi
  {
  }

  /**
   * A surviving record keeps its identity, text and kind, and each of its
   * sets becomes the old set restricted to the survivors, in the old order.
   */
  lemma ChoppedRecords(g: Graph, lo: int, hi: int)
    requires Closed(g)
    ensures forall k :: k in Chopped(g, lo, hi) ==>
      var c := Chopped(g, lo, hi);
      c[k].internalId == g[k].internalId && c[k].filename == g[k].filename &&
      c[k].text == g[k].text && c[k].kind == g[k].kind &&
      c[k].children == FilterIn(g[k].children, c.Keys) &&
      c[k].parents == FilterIn(g[k].parents, c.Keys) &&
      c[k].neighbors == FilterIn(g[k].neighbors, c.Keys)
  {
    var c := Chopped(g, lo, hi);
    var drop := OutOfRange(g.Keys, lo, hi);
    forall k | k in c
      ensures c[k].children == FilterIn(g[k].children, c.Keys)
      ensures c[k].parents == FilterIn(g[k].parents, c.Keys)
      ensures c[k].neighbors == FilterIn(g[k].neighbors, c.Keys)
    {
      assert forall y :: y in g[k].children ==> y in g by {
        assert forall y :: y in g[k].Edges(ChildSide) ==> y in g;
      }
      assert forall y :: y in g[k].parents ==> y in g by {
        assert forall y :: y in g[k].Edges(ParentSide) ==> y in g;
      }
      assert forall y :: y in g[k].neighbors ==> y in g by {
        assert forall y :: y in g[k].Edges(NeighborSide) ==> y in g;
      }
      FilterOutIn(g[k].children, drop, c.Keys);
      FilterOutIn(g[k].parents, drop, c.Keys);
      FilterOutIn(g[k].neighbors, drop, c.Keys);
    }
  }

  /** The chop leaves no survivor referring to a removed ID. */
  lemma ChoppedClosed(g: Graph, lo: int, hi: int)
    requires Closed(g)
    ensures Closed(Chopped(g, lo, hi))
  {
    var c := Chopped(g, lo, hi);
    var drop := OutOfRange(g.Keys, lo, hi);
    forall id, side, x | id in c && x in c[id].Edges(side)
      ensures x in c
    {
      StripEdges(g[id], drop, side);
      assert x in g[id].Edges(side) && x !in drop;
    }
  }

  /** The chop keeps every surviving edge recorded at both ends. */
  lemma ChoppedSymmetric(g: Graph, lo: int, hi: int)
    requires Symmetric(g)
    ensures Symmetric(Chopped(g, lo, hi))
  {
    var c := Chopped(g, lo, hi);
    var drop := OutOfRange(g.Keys, lo, hi);
    forall a, b, side | a in c && b in c && b in c[a].Edges(side)
      ensures a in c[b].Edges(Opposite(side))
    {
      StripEdges(g[a], drop, side);
      StripEdges(g[b], drop, Opposite(side));
      assert b in g[a].Edges(side);
      assert a in g[b].Edges(Opposite(side));
    }
  }

  /** The chop keeps every surviving set duplicate-free. */
  lemma ChoppedWellFormed(g: Graph, lo: int, hi: int)
    requires WellFormed(g)
    ensures WellFormed(Chopped(g, lo, hi))
  {
    var c := Chopped(g, lo, hi);
    forall k | k in c
      ensures c[k].Valid()
    {
      assert g[k].Valid();
    }
  }

  /** The chop keeps the graph consistent. */
  lemma ChoppedConsistent(g: Graph, lo: int, hi: int)
    requires Consistent(g)
    ensures Consistent(Chopped(g, lo, hi))
  {
    ChoppedClosed(g, lo, hi);
    ChoppedSymmetric(g, lo, hi);
    ChoppedWellFormed(g, lo, hi);
  }

  /** Concrete case: with range `[100, 200]` and an edge 50 -> 150, 50 is removed and 150 loses its parent. */
  lemma ChopExample()
    ensures
      var r50 := TranslationString(0, "a", "x", Dialog, [150], [], []);
      var r150 := TranslationString(1, "a", "y", Dialog, [], [50], []);
      Chopped(map[50 := r50, 150 := r150], 100, 200) == map[150 := r150.(parents := [])]
  {
    var r50 := TranslationString(0, "a", "x", Dialog, [150], [], []);
    var r150 := TranslationString(1, "a", "y", Dialog, [], [50], []);
    var g := map[50 := r50, 150 := r150];
    var drop := OutOfRange(g.Keys, 100, 200);
    assert drop == {50};
    var c := Chopped(g, 100, 200);
    assert c.Keys == {150};
    assert FilterOut([50], drop) == [];
  }

  /**
   * The three maps a mode shares with its parsers, its chop and its group
   * creator.
   */
  class Registry {
    var idsToDialogs: Graph
    var internalIdsToIds: map<string, int>
    var fileNamesToIds: map<string, seq<int>>

    constructor ()
      ensures idsToDialogs == map[] && internalIdsToIds == map[] && fileNamesToIds == map[]
    {
      idsToDialogs := map[];
      internalIdsToIds := map[];
      fileNamesToIds := map[];
    }

    /** `prepareMappings`: the sentinel -1 is an ERROR record "INVALID REFERENCE" with no file name. */
    method PrepareMappings(factory: StringFactory)
      modifies this, factory
      ensures idsToDialogs == old(idsToDialogs)[INVALID_ID := TranslationString(old(factory.counter), "", "INVALID REFERENCE", Error, [], [], [])]
      ensures factory.counter == old(factory.counter) + 1
      ensures internalIdsToIds == old(internalIdsToIds) && fileNamesToIds == old(fileNamesToIds)
    {
      var r := factory.Create("INVALID REFERENCE", Error, "");
      idsToDialogs := idsToDialogs[INVALID_ID := r];
    }

    /** Writes the edge `a -> b` on both ends. */
    method Link(a: int, b: int, side: Side)
      requires a in idsToDialogs && b in idsToDialogs
      modifies this
      ensures idsToDialogs == Linked(old(idsToDialogs), a, b, side)
      ensures internalIdsToIds == old(internalIdsToIds) && fileNamesToIds == old(fileNamesToIds)
    {
      idsToDialogs := idsToDialogs[a := idsToDialogs[a].Add(side, b)];
      idsToDialogs := idsToDialogs[b := idsToDialogs[b].Add(Opposite(side), a)];
    }

    /** `get(a).addChild(b)` and the like on its own: one end of an edge. */
    method AddEdge(a: int, side: Side, b: int)
      requires a in idsToDialogs
      modifies this
      ensures idsToDialogs == old(idsToDialogs)[a := old(idsToDialogs)[a].Add(side, b)]
      ensures internalIdsToIds == old(internalIdsToIds) && fileNamesToIds == old(fileNamesToIds)
    {
      idsToDialogs := idsToDialogs[a := idsToDialogs[a].Add(side, b)];
    }

    /** One inner loop of the chop: every record named in `ids` loses `x` from its `side` set. */
    method DetachAll(x: int, ids: seq<int>, side: Side)
      requires Elems(ids) <= idsToDialogs.Keys
      modifies this
      ensures idsToDialogs == Detach(old(idsToDialogs), x, ids, side)
      ensures internalIdsToIds == old(internalIdsToIds) && fileNamesToIds == old(fileNamesToIds)
    {
      ghost var g := idsToDialogs;
      var i := 0;
      while i < |ids|
        invariant 0 <= i <= |ids|
        invariant idsToDialogs == Detach(g, x, ids[..i], side)
        invariant internalIdsToIds == old(internalIdsToIds) && fileNamesToIds == old(fileNamesToIds)
      {
        assert ids[i] in Elems(ids);
        DetachOne(x, ids, i, side, g);
        i := i + 1;
      }
      assert ids[..i] == ids;
    }

    /** One turn of that loop: `get(ids[i]).remove<side>(x)`. */
    method DetachOne(x: int, ids: seq<int>, i: int, side: Side, ghost g: Graph)
      requires 0 <= i < |ids| && ids[i] in g && idsToDialogs == Detach(g, x, ids[..i], side)
      modifies this
      ensures idsToDialogs == Detach(g, x, ids[..i + 1], side)
      ensures internalIdsToIds == old(internalIdsToIds) && fileNamesToIds == old(fileNamesToIds)
    {
      DetachStep(g, x, ids, i, side);
      idsToDialogs := idsToDialogs[ids[i] := idsToDialogs[ids[i]].Drop(side, x)];
    }

    /** Removes string `x`: the inner loops of the chop over its children, parents and neighbours, then `iterator.remove`. */
    method Remove(x: int, withNeighbors: bool)
      requires x in idsToDialogs && Closed(idsToDialogs)
      modifies this
      ensures idsToDialogs == Unlink(old(idsToDialogs), x, withNeighbors)
      ensures internalIdsToIds == old(internalIdsToIds) && fileNamesToIds == old(fileNamesToIds)
    {
      ghost var g := idsToDialogs;
      ClosedAt(g, x);
      DetachAll(x, idsToDialogs[x].children, ParentSide);
      DetachAt(g, x, g[x].children, ParentSide, x);
      DetachAll(x, idsToDialogs[x].parents, ChildSide);
      if withNeighbors {
        ghost var g1 := Detach(g, x, g[x].children, ParentSide);
        DetachAt(g1, x, g1[x].parents, ChildSide, x);
        DetachAll(x, idsToDialogs[x].neighbors, NeighborSide);
      }
      idsToDialogs := idsToDialogs - {x};
    }

    /**
     * `chopMappingsToRange(lo, hi)`: walks the keys in ascending order and
     * removes every one outside `[lo, hi]` together with its back-references,
     * then filters the file lists to the surviving strings.  The Java code
     * dereferences every ID it meets in an edge set, so the graph must be
     * closed; symmetry makes sure no edge set names an ID removed earlier.
     */
    method ChopMappingsToRange(lo: int, hi: int, withNeighbors: bool)
      requires Closed(idsToDialogs) && Symmetric(idsToDialogs)
      requires withNeighbors || NoNeighbors(idsToDialogs)
      modifies this
      ensures idsToDialogs == Chopped(old(idsToDialogs), lo, hi)
      ensures fileNamesToIds == ChopFiles(old(fileNamesToIds), idsToDialogs.Keys)
      ensures internalIdsToIds == old(internalIdsToIds)
    {
      ghost var g := idsToDialogs;
      // the keys not yet visited; the TreeMap iterator visits them smallest first
      var todo := idsToDialogs.Keys;
      FilterOutNothingAll(g);
      assert OutOfRange(g.Keys - todo, lo, hi) == {};
      while todo != {}
        invariant todo <= g.Keys
        invariant idsToDialogs == Strip(g, OutOfRange(g.Keys - todo, lo, hi))
        invariant internalIdsToIds == old(internalIdsToIds) && fileNamesToIds == old(fileNamesToIds)
        decreases todo
      {
        ghost var removed := OutOfRange(g.Keys - todo, lo, hi);
        ghost var least := SetMin(todo);
        var x :| x in todo && forall y :: y in todo ==> x <= y;
        if x < lo || x > hi {
          StripClosed(g, removed);
          Remove(x, withNeighbors);
          UnlinkStrip(g, removed, x, withNeighbors);
        }
        OutOfRangeStep(g.Keys, todo, x, lo, hi);
        todo := todo - {x};
      }
      assert g.Keys - todo == g.Keys;
      FilterFileLists();
    }

    /** The second loop of the chop: each file list keeps the registered IDs, and an emptied list goes. */
    method FilterFileLists()
      modifies this
      ensures fileNamesToIds == ChopFiles(old(fileNamesToIds), idsToDialogs.Keys)
      ensures idsToDialogs == old(idsToDialogs) && internalIdsToIds == old(internalIdsToIds)
    {
      ghost var f := fileNamesToIds;
      var keys := idsToDialogs.Keys;
      var todo := fileNamesToIds.Keys;
      PartChopNone(f, keys);
      while todo != {}
        invariant todo <= f.Keys
        invariant fileNamesToIds == PartChop(f, f.Keys - todo, keys)
        invariant idsToDialogs == old(idsToDialogs) && internalIdsToIds == old(internalIdsToIds)
        decreases todo
      {
        var n :| n in todo;
        PartChopStep(f, f.Keys - todo, keys, n);
        var kept := FilterIn(fileNamesToIds[n], keys);
        if kept == [] {
          fileNamesToIds := fileNamesToIds - {n};
        } else {
          fileNamesToIds := fileNamesToIds[n := kept];
        }
        assert f.Keys - (todo - {n}) == (f.Keys - todo) + {n};
        todo := todo - {n};
      }
      PartChopAll(f, keys);
    }
  }

  /** The file map with the lists of `done` filtered and emptied ones dropped; the other lists as they were. */
  function PartChop(f: map<string, seq<int>>, done: set<string>, keys: set<int>): map<string, seq<int>>
  {
    map n | n in f && (n in done ==> FilterIn(f[n], keys) != []) :: if n in done then FilterIn(f[n], keys) else f[n]
  }

  lemma PartChopNone(f: map<string, seq<int>>, keys: set<int>)
    ensures PartChop(f, {}, keys) == f
  {
  }

  lemma PartChopAll(f: map<string, seq<int>>, keys: set<int>)
    ensures PartChop(f, f.Keys, keys) == ChopFiles(f, keys)
  {
  }

  lemma PartChopStep(f: map<string, seq<int>>, done: set<string>, keys: set<int>, n: string)
    requires n in f && n !in done
    ensures n in PartChop(f, done, keys) && PartChop(f, done, keys)[n] == f[n]
    ensures FilterIn(f[n], keys) == [] ==> PartChop(f, done + {n}, keys) == PartChop(f, done, keys) - {n}
    ensures FilterIn(f[n], keys) != [] ==> PartChop(f, done + {n}, keys) == PartChop(f, done, keys)[n := FilterIn(f[n], keys)]
  {
  }

  /** Stripping nothing is the identity. */
  lemma FilterOutNothingAll(g: Graph)
    ensures Strip(g, {}) == g
  {
    forall k | k in g
      ensures StripRecord(g[k], {}) == g[k]
    {
      FilterOutNothing(g[k].children);
      FilterOutNothing(g[k].parents);
      FilterOutNothing(g[k].neighbors);
    }
  }

  /** A stripped closed graph is closed. */
  lemma StripClosed(g: Graph, drop: set<int>)
    requires Closed(g)
    ensures Closed(Strip(g, drop))
  {
    var s := Strip(g, drop);
    forall id, side, x | id in s && x in s[id].Edges(side)
      ensures x in s
    {
      assert x in g[id].Edges(side);
    }
  }
}
