/**
 * What the two group creators (`tlk.GroupCreator` and `dialog.GroupCreator`)
 * share: the `TreeSet` of groups ordered by their smallest ID, the group of
 * the IDs of the range that no string uses, and the recursive removal that
 * cuts one connected group out of the map being drained.
 */
module Grouping {
  import opened Collections
  import opened DialogString
  import opened StringGraph
  import opened CycleLinearizing
  import NonCycleLinearizing

  // ------------------------------------------- the TreeSet of groups

  /**
   * The groups of a `TreeSet<Set<Integer>>` compared by `Collections.min`:
   * none is empty, and the minima strictly increase.
   */
  predicate SortedByMin(gs: seq<seq<int>>)
  {
    (forall i :: 0 <= i < |gs| ==> gs[i] != []) &&
    forall i, j :: 0 <= i < j < |gs| && gs[i] != [] && gs[j] != [] ==> SeqMin(gs[i]) < SeqMin(gs[j])
  }

  /** Some group of `gs` has the smallest ID `m`: the comparator calls such a group equal to any with that minimum. */
  predicate HasMin(gs: seq<seq<int>>, m: int)
  {
    exists i :: 0 <= i < |gs| && gs[i] != [] && SeqMin(gs[i]) == m
  }

  /**
   * `groups.add(g)` for a non-empty group: it goes to its place by minimum,
   * unless a group with the same minimum is there already, in which case the
   * set stays as it was.
   */
  function InsertByMin(gs: seq<seq<int>>, g: seq<int>): (r: seq<seq<int>>)
    requires SortedByMin(gs) && g != []
    ensures SortedByMin(r)
    ensures forall h :: h in r <==> h in gs || (h == g && !HasMin(gs, SeqMin(g)))
    ensures |r| == if HasMin(gs, SeqMin(g)) then |gs| else |gs| + 1
    decreases |gs|
  {
    if gs == [] then [g]
    else if SeqMin(gs[0]) == SeqMin(g) then gs
    else if SeqMin(g) < SeqMin(gs[0]) then
      InsertFront(gs, g);
      [g] + gs
    else
      var tail := gs[1..];
      SortedTail(gs);
      var r := InsertByMin(tail, g);
      InsertBehind(gs, g, r);
      [gs[0]] + r
  }

  lemma SortedTail(gs: seq<seq<int>>)
    requires SortedByMin(gs) && gs != []
    ensures SortedByMin(gs[1..])
    ensures forall h :: h in gs[1..] ==> h != [] && SeqMin(gs[0]) < SeqMin(h)
    ensures forall m :: HasMin(gs, m) <==> SeqMin(gs[0]) == m || HasMin(gs[1..], m)
  {
    TailAbove(gs);
    forall m | HasMin(gs, m)
      ensures SeqMin(gs[0]) == m || HasMin(gs[1..], m)
    {
      var i :| 0 <= i < |gs| && gs[i] != [] && SeqMin(gs[i]) == m;
      if i > 0 {
        assert gs[1..][i - 1] == gs[i];
      }
    }
    forall m | HasMin(gs[1..], m)
      ensures HasMin(gs, m)
    {
      var i :| 0 <= i < |gs[1..]| && gs[1..][i] != [] && SeqMin(gs[1..][i]) == m;
      assert gs[i + 1] == gs[1..][i];
    }
    assert gs[0] != [] && HasMin(gs, SeqMin(gs[0])) by {
      assert 0 < |gs|;
    }
  }

  /** A group smaller than every group goes first. */
  lemma InsertFront(gs: seq<seq<int>>, g: seq<int>)
    requires SortedByMin(gs) && g != [] && gs != [] && SeqMin(g) < SeqMin(gs[0])
    ensures SortedByMin([g] + gs) && !HasMin(gs, SeqMin(g))
  {
    var r := [g] + gs;
    forall i, j | 0 <= i < j < |r| && r[i] != [] && r[j] != []
      ensures SeqMin(r[i]) < SeqMin(r[j])
    {
      assert r[j] == gs[j - 1];
      if i > 0 {
        assert r[i] == gs[i - 1];
      } else if j > 1 {
        assert SeqMin(gs[0]) < SeqMin(gs[j - 1]);
      }
    }
  }

  /** A group larger than the first goes behind it. */
  lemma InsertBehind(gs: seq<seq<int>>, g: seq<int>, r: seq<seq<int>>)
    requires SortedByMin(gs) && g != [] && gs != [] && SeqMin(gs[0]) < SeqMin(g)
    requires SortedByMin(r) && forall h :: h in r ==> h in gs[1..] || h == g
    ensures SortedByMin([gs[0]] + r)
  {
    TailAbove(gs);
    assert forall h :: h in r ==> h != [] && SeqMin(gs[0]) < SeqMin(h);
    ConsSorted(gs[0], r);
  }

  /** A group below every group of a sorted set can go in front of it. */
  lemma ConsSorted(a: seq<int>, r: seq<seq<int>>)
    requires a != [] && SortedByMin(r) && forall h :: h in r ==> h != [] && SeqMin(a) < SeqMin(h)
    ensures SortedByMin([a] + r)
  {
    var q := [a] + r;
    forall i | 0 <= i < |q|
      ensures q[i] != []
    {
      if i > 0 {
        assert q[i] == r[i - 1];
      }
    }
    forall i, j | 0 <= i < j < |q| && q[i] != [] && q[j] != []
      ensures SeqMin(q[i]) < SeqMin(q[j])
    {
      ConsPair(a, r, i, j);
    }
  }

  lemma ConsPair(a: seq<int>, r: seq<seq<int>>, i: int, j: int)
    requires a != [] && SortedByMin(r) && forall h :: h in r ==> h != [] && SeqMin(a) < SeqMin(h)
    requires 0 <= i < j <= |r|
    ensures ([a] + r)[i] != [] && ([a] + r)[j] != [] && SeqMin(([a] + r)[i]) < SeqMin(([a] + r)[j])
  {
    var q := [a] + r;
    assert q[j] == r[j - 1];
    if i > 0 {
      assert q[i] == r[i - 1];
    } else {
      assert r[j - 1] in r;
    }
  }

  /** Behind the first group of a sorted set, every group has a larger minimum. */
  lemma TailAbove(gs: seq<seq<int>>)
    requires SortedByMin(gs) && gs != []
    ensures forall h :: h in gs[1..] ==> h != [] && SeqMin(gs[0]) < SeqMin(h)
  {
    forall h | h in gs[1..]
      ensures h != [] && SeqMin(gs[0]) < SeqMin(h)
    {
      var k :| 0 <= k < |gs[1..]| && gs[1..][k] == h;
      assert gs[k + 1] == h;
    }
  }

  /** A map that lost one of its keys and nothing else was added to is smaller: a drain makes progress. */
  lemma Shrinks(m: Graph, rest: Graph, id: int)
    requires SubMap(rest, m) && id in m && id !in rest
    ensures |rest.Keys| < |m.Keys|
  {
    SubsetCard(rest.Keys, m.Keys - {id});
  }

  // ------------------------------------------- the non-dialog group

  /**
   * `createNonDialogGroup`: a `TreeSet` of every ID from `lo` to `hi`, then
   * `removeAll` of the keys; computed before the map is drained.
   */
  method NonDialogGroup(lo: int, hi: int, keys: set<int>) returns (r: seq<int>)
    ensures Increasing(r)
    ensures forall x :: x in r <==> lo <= x <= hi && x !in keys
  {
    var all: seq<int> := [];
    var i := lo;
    while i <= hi
      invariant lo <= i && (i <= hi + 1 || i == lo)
      invariant |all| == i - lo && forall j :: 0 <= j < |all| ==> all[j] == lo + j
      decreases hi - i
    {
      all := all + [i];
      i := i + 1;
    }
    assert forall x :: x in all <==> lo <= x <= hi by {
      forall x | lo <= x <= hi
        ensures x in all
      {
        assert all[x - lo] == x;
      }
    }
    assert Increasing(all);
    FilterOutIncreasing(all, keys);
    r := FilterOut(all, keys);
  }

  // ------------------------------------------- cutting out one group

  /**
   * Script strings are linked only to the other strings of their file
   * (neighbours), every other string only to parents and children: the
   * parsers write parent and child edges between dialog strings, and
   * neighbour edges between script strings only.
   */
  predicate Separated(g: Graph)
  {
    forall k :: k in g ==> if IsScript(g[k].kind) then g[k].parents == [] && g[k].children == [] else g[k].neighbors == []
  }

  /** What the dialog group creator needs of the map it drains. */
  predicate Drainable(g: Graph)
  {
    Consistent(g) && Separated(g)
  }

  /** The IDs the recursion follows: parents, then children for a dialog group; neighbours for a script group. */
  function Followed(t: TranslationString, dialog: bool): seq<int>
  {
    if dialog then t.parents + t.children else t.neighbors
  }

  /**
   * What is left of the map after `createDialogGroup(id)` (`dialog`) or
   * `createScriptGroup(id)`: `id` is removed, then every followed ID that is
   * still a key is removed the same way, one after the other.
   */
  function Gather(m: Graph, id: int, dialog: bool): (rest: Graph)
    ensures SubMap(rest, m) && |rest.Keys| <= |m.Keys| && id !in rest
    decreases |m.Keys|, 1, 0
  {
    if id !in m then m
    else
      var m1 := m - {id};
      assert m1.Keys == m.Keys - {id};
      GatherAll(m1, Followed(m[id], dialog), dialog)
  }

  function GatherAll(m: Graph, ids: seq<int>, dialog: bool): (rest: Graph)
    ensures SubMap(rest, m) && |rest.Keys| <= |m.Keys|
    ensures forall x :: x in ids ==> x !in rest
    decreases |m.Keys|, 2, |ids|
  {
    if ids == [] then m
    else
      var a := Gather(m, ids[0], dialog);
      assert forall x :: x in ids ==> x == ids[0] || x in ids[1..];
      GatherAll(a, ids[1..], dialog)
  }

  /** The records the removal took out: the group handed to a lineariser. */
  function Removed(m: Graph, rest: Graph): (group: Graph)
    ensures forall k :: k in group <==> k in m && k !in rest
  {
    map k | k in m && k !in rest :: m[k]
  }

  /** Nothing the removal took out still follows an ID that is left. */
  predicate Swept(m: Graph, rest: Graph, dialog: bool)
  {
    forall k, x :: k in m && k !in rest && x in Followed(m[k], dialog) ==> x !in rest
  }

  lemma {:induction false} GatherSwept(m: Graph, id: int, dialog: bool)
    ensures Swept(m, Gather(m, id, dialog), dialog)
    decreases |m.Keys|, 1, 0
  {
    if id in m {
      var m1 := m - {id};
      assert m1.Keys == m.Keys - {id};
      var rest := Gather(m, id, dialog);
      GatherAllSwept(m1, Followed(m[id], dialog), dialog);
      forall k, x | k in m && k !in rest && x in Followed(m[k], dialog)
        ensures x !in rest
      {
        if k != id {
          assert m1[k] == m[k];
        }
      }
    }
  }

  lemma {:induction false} GatherAllSwept(m: Graph, ids: seq<int>, dialog: bool)
    ensures Swept(m, GatherAll(m, ids, dialog), dialog)
    decreases |m.Keys|, 2, |ids|
  {
    if ids != [] {
      var a := Gather(m, ids[0], dialog);
      var rest := GatherAll(m, ids, dialog);
      GatherSwept(m, ids[0], dialog);
      GatherAllSwept(a, ids[1..], dialog);
      forall k, x | k in m && k !in rest && x in Followed(m[k], dialog)
        ensures x !in rest
      {
        if k in a {
          assert a[k] == m[k];
        }
      }
    }
  }

  /** Followed IDs know their follower back. */
  predicate FollowSym(m: Graph, dialog: bool)
  {
    forall a, x :: a in m && x in m && x in Followed(m[a], dialog) ==> a in Followed(m[x], dialog)
  }

  /** A script seed takes out only script strings, a dialog seed none. */
  predicate AllSided(m: Graph, rest: Graph, dialog: bool)
  {
    forall k :: k in m && k !in rest ==> IsScript(m[k].kind) != dialog
  }

  lemma SubMapKeeps(a: Graph, b: Graph, dialog: bool)
    requires SubMap(a, b) && Separated(b) && FollowSym(b, dialog)
    ensures Separated(a) && FollowSym(a, dialog)
  {
  }

  /** A followed ID that is a key has the kind of its follower, because it follows it back. */
  lemma FollowedSided(m: Graph, a: int, x: int, dialog: bool)
    requires Separated(m) && FollowSym(m, dialog) && a in m && x in m && x in Followed(m[a], dialog)
    ensures IsScript(m[x].kind) != dialog
  {
    assert a in Followed(m[x], dialog);
  }

  lemma {:induction false} GatherSided(m: Graph, id: int, dialog: bool)
    requires Separated(m) && FollowSym(m, dialog) && (id in m ==> IsScript(m[id].kind) != dialog)
    ensures AllSided(m, Gather(m, id, dialog), dialog)
    decreases |m.Keys|, 1, 0
  {
    if id in m {
      var m1 := m - {id};
      assert m1.Keys == m.Keys - {id};
      var fs := Followed(m[id], dialog);
      SubMapKeeps(m1, m, dialog);
      forall x | x in fs && x in m1
        ensures IsScript(m1[x].kind) != dialog
      {
        FollowedSided(m, id, x, dialog);
      }
      GatherAllSided(m1, fs, dialog);
    }
  }

  lemma {:induction false} GatherAllSided(m: Graph, ids: seq<int>, dialog: bool)
    requires Separated(m) && FollowSym(m, dialog) && forall x :: x in ids && x in m ==> IsScript(m[x].kind) != dialog
    ensures AllSided(m, GatherAll(m, ids, dialog), dialog)
    decreases |m.Keys|, 2, |ids|
  {
    if ids != [] {
      var first := ids[0];
      assert first in ids;
      var a := Gather(m, first, dialog);
      GatherSided(m, first, dialog);
      SubMapKeeps(a, m, dialog);
      assert forall x :: x in ids[1..] ==> x in ids;
      GatherAllSided(a, ids[1..], dialog);
    }
  }

  /** Symmetric edges make the followed IDs follow back. */
  lemma SymmetricFollows(m: Graph, dialog: bool)
    requires Symmetric(m)
    ensures FollowSym(m, dialog)
  {
    forall a, x | a in m && x in m && x in Followed(m[a], dialog)
      ensures a in Followed(m[x], dialog)
    {
      var t := m[a];
      if !dialog {
        assert x in t.Edges(NeighborSide);
        assert a in m[x].Edges(Opposite(NeighborSide));
      } else if x in t.parents {
        assert x in t.Edges(ParentSide);
        assert a in m[x].Edges(Opposite(ParentSide));
      } else {
        assert x in t.Edges(ChildSide);
        assert a in m[x].Edges(Opposite(ChildSide));
      }
    }
  }

  /**
   * Cutting out a group keeps the map drainable: an ID that is left was
   * linked to a removed one only if that one follows it back, and the
   * removed strings have no edges of the other kind.
   */
  lemma LeftClosedAt(m: Graph, rest: Graph, dialog: bool, k: int, side: Side, x: int)
    requires Drainable(m) && SubMap(rest, m) && Swept(m, rest, dialog) && AllSided(m, rest, dialog)
    requires k in rest && x in rest[k].Edges(side)
    ensures x in rest
  {
    var t := m[k];
    assert x in t.Edges(side);
    assert x in m;
    var u := m[x];
    assert k in u.Edges(Opposite(side));
    assert side == NeighborSide ==> k in u.neighbors;
    assert side != NeighborSide ==> k in u.parents || k in u.children;
    assert x !in rest ==> IsScript(u.kind) != dialog;
    assert x !in rest ==> k in Followed(u, dialog);
  }

  lemma GatherKeeps(m: Graph, id: int, dialog: bool)
    requires Drainable(m) && id in m && IsScript(m[id].kind) != dialog
    ensures var rest := Gather(m, id, dialog);
      Drainable(rest) && Swept(m, rest, dialog) && AllSided(m, rest, dialog) && id in Removed(m, rest)
  {
    var rest := Gather(m, id, dialog);
    SymmetricFollows(m, dialog);
    GatherSwept(m, id, dialog);
    GatherSided(m, id, dialog);
    SubMapKeeps(rest, m, dialog);
    forall k, side, x | k in rest && x in rest[k].Edges(side)
      ensures x in rest
    {
      LeftClosedAt(m, rest, dialog, k, side, x);
    }
    assert Closed(rest);
  }

  /** A dialog group is closed under parents and children, as the acyclic lineariser needs. */
  lemma DialogGroupClosed(m: Graph, rest: Graph)
    requires Drainable(m) && SubMap(rest, m) && Swept(m, rest, true)
    ensures NonCycleLinearizing.FamilyClosed(Removed(m, rest))
  {
    var group := Removed(m, rest);
    forall a, x | a in group && x in group[a].children
      ensures x in group && a in group[x].parents
    {
      var t := m[a];
      assert x in t.Edges(ChildSide) && x in Followed(t, true);
      assert x in m;
      assert a in m[x].Edges(Opposite(ChildSide));
    }
    forall a, x | a in group && x in group[a].parents
      ensures x in group && a in group[x].children
    {
      var t := m[a];
      assert x in t.Edges(ParentSide) && x in Followed(t, true);
      assert x in m;
      assert a in m[x].Edges(Opposite(ParentSide));
    }
  }

  /** The loop over `a` and then the loop over `b` remove what one loop over `a + b` would. */
  lemma {:induction false} GatherAllConcat(m: Graph, a: seq<int>, b: seq<int>, dialog: bool)
    ensures GatherAll(m, a + b, dialog) == GatherAll(GatherAll(m, a, dialog), b, dialog)
    decreases |a|
  {
    if a == [] {
      assert a + b == b;
    } else {
      assert (a + b)[0] == a[0] && (a + b)[1..] == a[1..] + b;
      GatherAllConcat(Gather(m, a[0], dialog), a[1..], b, dialog);
    }
  }

  /** `result.putAll` of the next group adds exactly what the next removal took out. */
  lemma RemovedChain(into: Graph, a: Graph, b: Graph, c: Graph)
    requires SubMap(b, a) && SubMap(c, b)
    ensures into + Removed(a, b) + Removed(b, c) == into + Removed(a, c)
  {
    var u := into + Removed(a, b) + Removed(b, c);
    var v := into + Removed(a, c);
    forall k
      ensures (k in u <==> k in v) && (k in u ==> u[k] == v[k])
    {
      RemovedChainAt(into, a, b, c, k);
    }
    GraphExt(u, v);
  }

  /** `RemovedChain` at one key. */
  lemma RemovedChainAt(into: Graph, a: Graph, b: Graph, c: Graph, k: int)
    requires SubMap(b, a) && SubMap(c, b)
    ensures var u := into + Removed(a, b) + Removed(b, c); var v := into + Removed(a, c);
      (k in u <==> k in v) && (k in u ==> u[k] == v[k])
  {
    if k in b {
      assert b[k] == a[k];
    }
  }

  /** The seed's own record, then the rest of its group. */
  lemma RemovedSeed(m: Graph, id: int, rest: Graph)
    requires id in m && SubMap(rest, m - {id})
    ensures map[id := m[id]] + Removed(m - {id}, rest) == Removed(m, rest)
  {
    var u := map[id := m[id]] + Removed(m - {id}, rest);
    var v := Removed(m, rest);
    assert forall k :: k in u <==> k in v;
    assert forall k :: k in u ==> u[k] == v[k];
  }

  // ------------------------------------------- what a group is

  /** `p` walks the keys of `m` along followed edges. */
  predicate Walk(m: Graph, p: seq<int>, dialog: bool)
  {
    |p| > 0 && (forall i :: 0 <= i < |p| ==> p[i] in m) &&
    forall i :: 0 <= i < |p| - 1 ==> p[i + 1] in Followed(m[p[i]], dialog)
  }

  lemma WalkSubMap(a: Graph, b: Graph, p: seq<int>, dialog: bool)
    requires SubMap(a, b) && Walk(a, p, dialog)
    ensures Walk(b, p, dialog)
  {
    forall i | 0 <= i < |p| - 1
      ensures p[i + 1] in Followed(b[p[i]], dialog)
    {
      var x := p[i];
      assert x in a;
      assert a[x] == b[x];
    }
  }

  lemma WalkPrepend(m: Graph, id: int, p: seq<int>, dialog: bool)
    requires Walk(m, p, dialog) && id in m && p[0] in Followed(m[id], dialog)
    ensures Walk(m, [id] + p, dialog)
  {
    var q := [id] + p;
    forall i | 0 <= i < |q| - 1
      ensures q[i + 1] in Followed(m[q[i]], dialog)
    {
      if i > 0 {
        assert q[i] == p[i - 1] && q[i + 1] == p[i];
      }
    }
  }

  /** Some walk in `m` leads from `x` to `k`. */
  ghost predicate Reaches(m: Graph, x: int, k: int, dialog: bool)
  {
    exists p :: Walk(m, p, dialog) && p[0] == x && p[|p| - 1] == k
  }

  lemma ReachSelf(m: Graph, id: int, dialog: bool)
    requires id in m
    ensures Reaches(m, id, id, dialog)
  {
    assert Walk(m, [id], dialog);
  }

  lemma ReachSubMap(a: Graph, m: Graph, x: int, k: int, dialog: bool)
    requires SubMap(a, m) && Reaches(a, x, k, dialog)
    ensures Reaches(m, x, k, dialog)
  {
    var p :| Walk(a, p, dialog) && p[0] == x && p[|p| - 1] == k;
    WalkSubMap(a, m, p, dialog);
  }

  /** A walk from a followed edge of `id`, in a part of `m`, extends to one from `id`. */
  lemma ReachPrepend(a: Graph, m: Graph, id: int, x: int, k: int, dialog: bool)
    requires SubMap(a, m) && id in m && x in Followed(m[id], dialog) && Reaches(a, x, k, dialog)
    ensures Reaches(m, id, k, dialog)
  {
    var p :| Walk(a, p, dialog) && p[0] == x && p[|p| - 1] == k;
    WalkSubMap(a, m, p, dialog);
    WalkPrepend(m, id, p, dialog);
    var q := [id] + p;
    assert q[0] == id && q[|q| - 1] == k;
  }

  /** Everything the removal took out is reached from the seed. */
  lemma {:induction false} GatherReached(m: Graph, id: int, dialog: bool)
    ensures forall k :: k in m && k !in Gather(m, id, dialog) ==> Reaches(m, id, k, dialog)
    decreases |m.Keys|, 1, 0
  {
    if id in m {
      var m1 := m - {id};
      assert m1.Keys == m.Keys - {id};
      assert SubMap(m1, m);
      var fs := Followed(m[id], dialog);
      var rest := Gather(m, id, dialog);
      GatherAllReached(m1, fs, dialog);
      forall k | k in m && k !in rest
        ensures Reaches(m, id, k, dialog)
      {
        if k == id {
          ReachSelf(m, id, dialog);
        } else {
          assert k in m1;
          var x :| x in fs && Reaches(m1, x, k, dialog);
          ReachPrepend(m1, m, id, x, k, dialog);
        }
      }
    }
  }

  lemma {:induction false} GatherAllReached(m: Graph, ids: seq<int>, dialog: bool)
    ensures forall k :: k in m && k !in GatherAll(m, ids, dialog) ==>
      exists x :: x in ids && Reaches(m, x, k, dialog)
    decreases |m.Keys|, 2, |ids|
  {
    if ids != [] {
      var first := ids[0];
      var a := Gather(m, first, dialog);
      var rest := GatherAll(m, ids, dialog);
      GatherReached(m, first, dialog);
      GatherAllReached(a, ids[1..], dialog);
      forall k | k in m && k !in rest
        ensures exists x :: x in ids && Reaches(m, x, k, dialog)
      {
        if k !in a {
          assert first in ids && Reaches(m, first, k, dialog);
        } else {
          var x :| x in ids[1..] && Reaches(a, x, k, dialog);
          ReachSubMap(a, m, x, k, dialog);
          assert x in ids;
        }
      }
    }
  }

  /** A walk that starts at a removed ID ends at one. */
  lemma {:induction false} WalkSwept(m: Graph, rest: Graph, p: seq<int>, dialog: bool)
    requires Swept(m, rest, dialog) && Walk(m, p, dialog) && p[0] !in rest
    ensures p[|p| - 1] !in rest
    decreases |p|
  {
    if |p| > 1 {
      var q := p[1..];
      var x := p[0];
      assert x in m;
      assert p[1] in Followed(m[x], dialog);
      assert q[0] == p[1];
      assert Walk(m, q, dialog) by {
        forall i | 0 <= i < |q| - 1
          ensures q[i + 1] in Followed(m[q[i]], dialog)
        {
          assert q[i] == p[i + 1] && q[i + 1] == p[i + 2];
        }
      }
      WalkSwept(m, rest, q, dialog);
      assert q[|q| - 1] == p[|p| - 1];
    }
  }

  /**
   * `createDialogGroup(id)` and `createScriptGroup(id)` take out exactly the
   * keys a walk from the seed reaches: through parents and children, or
   * through neighbours.  IDs that are not keys never enter.
   */
  lemma GroupIsReach(m: Graph, id: int, dialog: bool)
    requires id in m
    ensures forall k :: k in Removed(m, Gather(m, id, dialog)) <==>
      k in m && exists p :: Walk(m, p, dialog) && p[0] == id && p[|p| - 1] == k
  {
    var rest := Gather(m, id, dialog);
    GatherReached(m, id, dialog);
    GatherSwept(m, id, dialog);
    forall k, p | Walk(m, p, dialog) && p[0] == id && p[|p| - 1] == k
      ensures k !in rest
    {
      WalkSwept(m, rest, p, dialog);
    }
  }
}
