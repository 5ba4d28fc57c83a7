/**
 * `tlk.GroupCreator`: works on its own copy of the map, drains it smallest
 * key first and puts each group into a `TreeSet` ordered by the group's
 * smallest ID.  `createDialogGroup` is, line for line, the set version of
 * the cyclic lineariser's `createOrder` run on that copy, so the creator
 * keeps its copy in a `SetCycleLinearizer` and calls its `CreateOrder`.
 */
module TlkGroupCreating {
  import opened Collections
  import opened StringGraph
  import opened CycleLinearizing
  import opened NonCycleLinearizing
  import opened Grouping

  /** The group one pass builds from `m`: the set version of the expansion of the smallest key. */
  function PassGroup(m: Graph): (g: seq<int>)
    requires m.Keys != {}
  {
    Dedup(Expand(m, SetMin(m.Keys)).order)
  }

  /** What one pass leaves of `m`. */
  function PassRest(m: Graph): (rest: Graph)
    requires m.Keys != {}
  {
    Expand(m, SetMin(m.Keys)).rest
  }

  /**
   * A pass deletes its seed, the smallest key, and other keys, and nothing
   * else; its group holds exactly the deleted keys and their children, each
   * once, and no deleted key keeps a parent or a child among the keys left.
   */
  lemma PassMeaning(m: Graph)
    requires m.Keys != {}
    ensures var g := PassGroup(m); var rest := PassRest(m);
      SubMap(rest, m) && SetMin(m.Keys) !in rest && |rest.Keys| < |m.Keys| &&
      SetMin(m.Keys) in g && NoDup(g) &&
      (forall x :: x in g <==> Emitted(m, rest, x)) &&
      Drained(m, rest)
  {
    var id := SetMin(m.Keys);
    ExpandMeaning(m, id);
    Shrinks(m, PassRest(m), id);
  }

  /** A pass makes progress and builds a non-empty group without repeats. */
  lemma PassShrinks(m: Graph)
    requires m.Keys != {}
    ensures |PassRest(m).Keys| < |m.Keys| && PassGroup(m) != [] && NoDup(PassGroup(m))
  {
    PassMeaning(m);
  }

  /**
   * The group each pass of the loop of `create` builds from the map `m`, in
   * the order of the passes.
   */
  function Groups(m: Graph): (gs: seq<seq<int>>)
    ensures forall i :: 0 <= i < |gs| ==> gs[i] != [] && NoDup(gs[i])
    ensures |gs| <= |m.Keys|
    decreases |m.Keys|
  {
    if m.Keys == {} then []
    else
      PassShrinks(m);
      var rest := Groups(PassRest(m));
      ConsGroups(PassGroup(m), rest);
      [PassGroup(m)] + rest
  }

  lemma ConsGroups(g: seq<int>, gs: seq<seq<int>>)
    requires g != [] && NoDup(g) && forall i :: 0 <= i < |gs| ==> gs[i] != [] && NoDup(gs[i])
    ensures forall i :: 0 <= i < |[g] + gs| ==> ([g] + gs)[i] != [] && NoDup(([g] + gs)[i])
  {
    forall i | 0 <= i < |[g] + gs|
      ensures ([g] + gs)[i] != [] && NoDup(([g] + gs)[i])
    {
      if i > 0 {
        assert ([g] + gs)[i] == gs[i - 1];
      }
    }
  }

  lemma GroupsUnfold(m: Graph)
    requires m.Keys != {}
    ensures Groups(m) == [PassGroup(m)] + Groups(PassRest(m))
  {
  }

  lemma ConsAt(g: seq<int>, gs: seq<seq<int>>, i: int)
    requires 0 <= i < |gs|
    ensures ([g] + gs)[i + 1] == gs[i]
  {
  }

  /** `groups.add` of each of `todo` in turn into the `TreeSet` `gs`. */
  function Collect(gs: seq<seq<int>>, todo: seq<seq<int>>): (r: seq<seq<int>>)
    requires SortedByMin(gs) && forall i :: 0 <= i < |todo| ==> todo[i] != []
    decreases |todo|
  {
    if todo == [] then gs
    else Collect(InsertByMin(gs, todo[0]), todo[1..])
  }

  /**
   * The `TreeSet` holds what it held and groups it was given, stays ordered
   * by minimum, and holds a group of every minimum it was given; a given
   * group is kept unless an earlier one has its minimum.
   */
  lemma CollectMeaning(gs: seq<seq<int>>, todo: seq<seq<int>>)
    requires SortedByMin(gs) && forall i :: 0 <= i < |todo| ==> todo[i] != []
    ensures var r := Collect(gs, todo);
      SortedByMin(r) &&
      (forall h :: h in r ==> h in gs || h in todo) &&
      (forall h :: h in gs ==> h in r) &&
      (forall i :: 0 <= i < |todo| ==> HasMin(r, SeqMin(todo[i]))) &&
      (forall i :: (0 <= i < |todo| && !HasMin(gs, SeqMin(todo[i])) &&
        forall j :: 0 <= j < i ==> SeqMin(todo[j]) != SeqMin(todo[i])) ==> todo[i] in r)
  {
    CollectKeeps(gs, todo);
    CollectFresh(gs, todo);
  }

  /** The first four parts of `CollectMeaning`. */
  lemma {:induction false} CollectKeeps(gs: seq<seq<int>>, todo: seq<seq<int>>)
    requires SortedByMin(gs) && forall i :: 0 <= i < |todo| ==> todo[i] != []
    ensures var r := Collect(gs, todo);
      SortedByMin(r) &&
      (forall h :: h in r ==> h in gs || h in todo) &&
      (forall h :: h in gs ==> h in r) &&
      (forall i :: 0 <= i < |todo| ==> HasMin(r, SeqMin(todo[i])))
    decreases |todo|
  {
    if todo != [] {
      var g := todo[0];
      var gs1 := InsertByMin(gs, g);
      var tail := todo[1..];
      assert forall i :: 0 <= i < |tail| ==> tail[i] == todo[i + 1];
      CollectKeeps(gs1, tail);
      var r := Collect(gs, todo);
      assert r == Collect(gs1, tail);
      InsertedHasMin(gs, g);
      HasMinKept(gs1, r, SeqMin(g));
    }
  }

  /** The last part of `CollectMeaning`: a group whose minimum is new when it comes is kept. */
  lemma {:induction false} CollectFresh(gs: seq<seq<int>>, todo: seq<seq<int>>)
    requires SortedByMin(gs) && forall i :: 0 <= i < |todo| ==> todo[i] != []
    ensures var r := Collect(gs, todo);
      forall i :: (0 <= i < |todo| && !HasMin(gs, SeqMin(todo[i])) &&
        forall j :: 0 <= j < i ==> SeqMin(todo[j]) != SeqMin(todo[i])) ==> todo[i] in r
    decreases |todo|
  {
    if todo != [] {
      var g := todo[0];
      var gs1 := InsertByMin(gs, g);
      var tail := todo[1..];
      assert forall i :: 0 <= i < |tail| ==> tail[i] == todo[i + 1];
      CollectFresh(gs1, tail);
      CollectKeeps(gs1, tail);
      var r := Collect(gs, todo);
      assert r == Collect(gs1, tail);
      forall i | 0 <= i < |todo| && !HasMin(gs, SeqMin(todo[i])) &&
        (forall j :: 0 <= j < i ==> SeqMin(todo[j]) != SeqMin(todo[i]))
        ensures todo[i] in r
      {
        if i > 0 {
          LaterFresh(gs, todo, i);
        } else {
          assert g in gs1;
        }
      }
    }
  }

  /** After `groups.add(g)` the `TreeSet` has a group of the minimum of `g`. */
  lemma InsertedHasMin(gs: seq<seq<int>>, g: seq<int>)
    requires SortedByMin(gs) && g != []
    ensures HasMin(InsertByMin(gs, g), SeqMin(g))
  {
    var gs1 := InsertByMin(gs, g);
    if HasMin(gs, SeqMin(g)) {
      var i :| 0 <= i < |gs| && gs[i] != [] && SeqMin(gs[i]) == SeqMin(g);
      KeptHasMin(gs, gs1, i);
    } else {
      assert g in gs1;
      var i :| 0 <= i < |gs1| && gs1[i] == g;
    }
  }

  /**
   * A later group whose minimum is new to `gs` and to the groups before it
   * is, in the rest of the run, new to `gs` after the first `add` and to the
   * groups before it there.
   */
  lemma LaterFresh(gs: seq<seq<int>>, todo: seq<seq<int>>, i: int)
    requires SortedByMin(gs) && forall k :: 0 <= k < |todo| ==> todo[k] != []
    requires 0 < i < |todo| && !HasMin(gs, SeqMin(todo[i]))
    requires forall j :: 0 <= j < i ==> SeqMin(todo[j]) != SeqMin(todo[i])
    ensures var tail := todo[1..]; var m := SeqMin(todo[i]);
      tail[i - 1] == todo[i] && !HasMin(InsertByMin(gs, todo[0]), m) &&
      forall j :: 0 <= j < i - 1 ==> SeqMin(tail[j]) != m
  {
    var tail := todo[1..];
    var m := SeqMin(todo[i]);
    assert SeqMin(todo[0]) != m;
    NoNewMin(gs, todo[0], m);
    forall j | 0 <= j < i - 1
      ensures SeqMin(tail[j]) != m
    {
      assert tail[j] == todo[j + 1];
    }
  }

  /** A group kept from one `TreeSet` to a larger one keeps its minimum present. */
  lemma KeptHasMin(gs: seq<seq<int>>, r: seq<seq<int>>, i: int)
    requires 0 <= i < |gs| && gs[i] != [] && gs[i] in r
    ensures HasMin(r, SeqMin(gs[i]))
  {
    var h := gs[i];
    var j :| 0 <= j < |r| && r[j] == h;
  }

  /** When everything of `gs` is still in `r`, a minimum present in `gs` is present in `r`. */
  lemma HasMinKept(gs: seq<seq<int>>, r: seq<seq<int>>, m: int)
    requires HasMin(gs, m) && forall h :: h in gs ==> h in r
    ensures HasMin(r, m)
  {
    var i :| 0 <= i < |gs| && gs[i] != [] && SeqMin(gs[i]) == m;
    KeptHasMin(gs, r, i);
  }

  /** Adding a group of another minimum adds no minimum `m`. */
  lemma NoNewMin(gs: seq<seq<int>>, g: seq<int>, m: int)
    requires SortedByMin(gs) && g != [] && SeqMin(g) != m && !HasMin(gs, m)
    ensures !HasMin(InsertByMin(gs, g), m)
  {
    var r := InsertByMin(gs, g);
    forall i | 0 <= i < |r| && r[i] != []
      ensures SeqMin(r[i]) != m
    {
      var h := r[i];
      assert h in gs || h == g;
      if h in gs {
        var j :| 0 <= j < |gs| && gs[j] == h;
      }
    }
  }

  /** Every key of the map lies in the group of some pass: the pass that removed it. */
  lemma {:induction false} GroupsCover(m: Graph)
    ensures forall k :: k in m ==> exists i :: 0 <= i < |Groups(m)| && k in Groups(m)[i]
    decreases |m.Keys|
  {
    if m.Keys != {} {
      var rest := PassRest(m);
      PassShrinks(m);
      GroupsCover(rest);
      var gs := Groups(m);
      var later := Groups(rest);
      GroupsUnfold(m);
      PassMeaning(m);
      forall k | k in m
        ensures exists i :: 0 <= i < |gs| && k in gs[i]
      {
        if k in rest {
          var i :| 0 <= i < |later| && k in later[i];
          ConsAt(PassGroup(m), later, i);
        } else {
          assert Emitted(m, rest, k);
          assert k in gs[0];
        }
      }
    }
  }

  /** A group holds only keys of the map and children of keys (a child need not be a key). */
  lemma {:induction false} GroupsWithin(m: Graph)
    ensures forall i, x :: 0 <= i < |Groups(m)| && x in Groups(m)[i] ==>
      x in m || exists k :: k in m && x in m[k].children
    decreases |m.Keys|
  {
    if m.Keys != {} {
      var rest := PassRest(m);
      PassShrinks(m);
      GroupsWithin(rest);
      var gs := Groups(m);
      var later := Groups(rest);
      GroupsUnfold(m);
      PassMeaning(m);
      forall i, x | 0 <= i < |gs| && x in gs[i]
        ensures x in m || exists k :: k in m && x in m[k].children
      {
        if i == 0 {
          assert Emitted(m, rest, x);
        } else {
          ConsAt(PassGroup(m), later, i - 1);
          if !(x in rest) {
            var k :| k in rest && x in rest[k].children;
            assert m[k] == rest[k];
          }
        }
      }
    }
  }

  /** The seeds of the passes strictly increase: each pass starts from the smallest key left, above the one before. */
  lemma SeedsIncrease(m: Graph)
    requires m.Keys != {} && PassRest(m).Keys != {}
    ensures SetMin(m.Keys) < SetMin(PassRest(m).Keys)
  {
    PassMeaning(m);
    var next := SetMin(PassRest(m).Keys);
    assert next in m;
  }

  /** What a drain leaves of a family-closed map is family-closed. */
  lemma DrainedFamilyClosed(m: Graph, rest: Graph)
    requires FamilyClosed(m) && SubMap(rest, m) && Drained(m, rest)
    ensures FamilyClosed(rest)
  {
    forall a, x | a in rest && x in rest[a].children
      ensures x in rest && a in rest[x].parents
    {
      assert x in m && a in m[x].parents;
    }
    forall a, x | a in rest && x in rest[a].parents
      ensures x in rest && a in rest[x].children
    {
      assert x in m && a in m[x].children;
    }
  }

  /** In a family-closed map, a drain emits only keys it deleted: a child of a deleted key is a deleted key. */
  lemma EmittedDeleted(m: Graph, rest: Graph, x: int)
    requires FamilyClosed(m) && Drained(m, rest) && Emitted(m, rest, x)
    ensures x in m && x !in rest
  {
    if !(x in m && x !in rest) {
      var k :| k in m && k !in rest && x in m[k].children;
    }
  }

  /**
   * On a family-closed map a pass takes out a closed part: its group is
   * exactly the keys it deletes, its smallest ID is its seed, and the keys
   * left are family-closed again.
   */
  lemma PassClosed(m: Graph)
    requires m.Keys != {} && FamilyClosed(m)
    ensures forall x :: x in PassGroup(m) <==> x in m && x !in PassRest(m)
    ensures SeqMin(PassGroup(m)) == SetMin(m.Keys)
    ensures FamilyClosed(PassRest(m))
    ensures forall x :: x in PassRest(m) ==> x in m && SetMin(m.Keys) < x
  {
    var rest := PassRest(m);
    var g := PassGroup(m);
    assert SubMap(rest, m) && Drained(m, rest) && SetMin(m.Keys) in g && SetMin(m.Keys) !in rest &&
      forall x :: x in g <==> Emitted(m, rest, x) by {
      PassMeaning(m);
    }
    DeletedOnly(m, rest, g);
    SeedIsSmallest(m, rest, g);
    DrainedFamilyClosed(m, rest);
    RestAboveSeed(m, rest);
  }

  /** The keys a pass leaves lie above its seed. */
  lemma RestAboveSeed(m: Graph, rest: Graph)
    requires m.Keys != {} && SubMap(rest, m) && SetMin(m.Keys) !in rest
    ensures forall x :: x in rest ==> x in m && SetMin(m.Keys) < x
  {
  }

  lemma DeletedOnly(m: Graph, rest: Graph, g: seq<int>)
    requires FamilyClosed(m) && Drained(m, rest) && forall x :: x in g <==> Emitted(m, rest, x)
    ensures forall x :: x in g <==> x in m && x !in rest
  {
    forall x | x in g
      ensures x in m && x !in rest
    {
      EmittedDeleted(m, rest, x);
    }
  }

  /** A group of keys that holds the smallest key has it as its smallest ID. */
  lemma SeedIsSmallest(m: Graph, rest: Graph, g: seq<int>)
    requires m.Keys != {} && SetMin(m.Keys) in g && forall x :: x in g ==> x in m
    ensures SeqMin(g) == SetMin(m.Keys)
  {
    assert SeqMin(g) in m;
  }

  /** On a family-closed map the passes' groups come ordered by minimum, and each minimum is a key. */
  lemma {:induction false} GroupsMinima(m: Graph)
    requires FamilyClosed(m)
    ensures SortedByMin(Groups(m))
    ensures forall i :: 0 <= i < |Groups(m)| ==> SeqMin(Groups(m)[i]) in m
    decreases |m.Keys|
  {
    if m.Keys != {} {
      PassShrinks(m);
      PassClosed(m);
      GroupsMinima(PassRest(m));
      GroupsUnfold(m);
      ConsMinima(PassGroup(m), Groups(PassRest(m)), m.Keys, PassRest(m).Keys);
    }
  }

  /** A group put in front of groups whose minima all lie above its own keeps the order by minimum. */
  lemma ConsMinima(g: seq<int>, later: seq<seq<int>>, keys: set<int>, restKeys: set<int>)
    requires g != [] && SeqMin(g) in keys && SortedByMin(later)
    requires forall x :: x in restKeys ==> x in keys && SeqMin(g) < x
    requires forall i :: 0 <= i < |later| ==> SeqMin(later[i]) in restKeys
    ensures SortedByMin([g] + later)
    ensures forall i :: 0 <= i < |[g] + later| ==> SeqMin(([g] + later)[i]) in keys
  {
    var gs := [g] + later;
    forall i | 0 < i < |gs|
      ensures gs[i] != [] && SeqMin(gs[i]) in keys && SeqMin(gs[0]) < SeqMin(gs[i])
    {
      assert gs[i] == later[i - 1];
    }
    forall i, j | 0 <= i < j < |gs|
      ensures SeqMin(gs[i]) < SeqMin(gs[j])
    {
      if i > 0 {
        assert gs[i] == later[i - 1] && gs[j] == later[j - 1];
      }
    }
  }

  /**
   * On a family-closed map the `TreeSet` of `create` drops no group: it
   * holds exactly the passes' groups, and every key of the copy lies in one
   * of its groups.
   */
  lemma CreateCovers(m: Graph)
    requires FamilyClosed(m)
    ensures var r := Collect([], Groups(m));
      (forall h :: h in r <==> h in Groups(m)) &&
      forall k :: k in m ==> exists h :: h in r && k in h
  {
    var gs := Groups(m);
    var r := Collect([], gs);
    assert forall h :: h in r ==> h in gs by {
      CollectMeaning([], gs);
    }
    assert forall i :: 0 <= i < |gs| ==> gs[i] in r by {
      GroupsMinima(m);
      KeepsAll(gs);
    }
    assert forall k :: k in m ==> exists i :: 0 <= i < |gs| && k in gs[i] by {
      GroupsCover(m);
    }
    KeptCover(m, gs, r);
  }

  /** When every group is kept, every key in some group lies in a group of the `TreeSet`. */
  lemma KeptCover(m: Graph, gs: seq<seq<int>>, r: seq<seq<int>>)
    requires forall i :: 0 <= i < |gs| ==> gs[i] in r
    requires forall k :: k in m ==> exists i :: 0 <= i < |gs| && k in gs[i]
    ensures forall k :: k in m ==> exists h :: h in r && k in h
  {
    forall k | k in m
      ensures exists h :: h in r && k in h
    {
      var i :| 0 <= i < |gs| && k in gs[i];
      assert gs[i] in r;
    }
  }

  /** Groups that come ordered by minimum all stay in the `TreeSet`. */
  lemma KeepsAll(gs: seq<seq<int>>)
    requires SortedByMin(gs)
    ensures forall i :: 0 <= i < |gs| ==> gs[i] in Collect([], gs)
  {
    CollectMeaning([], gs);
    forall i | 0 <= i < |gs|
      ensures gs[i] in Collect([], gs)
    {
      assert !HasMin([], SeqMin(gs[i]));
      assert forall j :: 0 <= j < i ==> SeqMin(gs[j]) != SeqMin(gs[i]);
    }
  }

  class TlkGroupCreator {
    const minInclusive: int
    const maxInclusive: int
    /** Holds the creator's own copy of the map, which `create` drains, and runs `createDialogGroup` on it. */
    const dialogs: SetCycleLinearizer

    /** `new TreeMap<>(idsToDialogs)`: a copy, so the caller's map is never drained. */
    constructor (idsToDialogs: Graph, minInclusive: int, maxInclusive: int)
      ensures dialogs.idsToDialogs == idsToDialogs && fresh(dialogs)
      ensures this.minInclusive == minInclusive && this.maxInclusive == maxInclusive
    {
      this.minInclusive := minInclusive;
      this.maxInclusive := maxInclusive;
      dialogs := new SetCycleLinearizer();
      new;
      dialogs.idsToDialogs := idsToDialogs;
    }

    /**
     * `create`, without the writing: the non-dialog group of the range,
     * computed first, and the groups of the drained copy in the `TreeSet`.
     */
    method Create() returns (groups: seq<seq<int>>, nonDialog: seq<int>)
      modifies dialogs
      ensures Increasing(nonDialog)
      ensures forall x :: x in nonDialog <==> minInclusive <= x <= maxInclusive && x !in old(dialogs.idsToDialogs)
      ensures groups == Collect([], Groups(old(dialogs.idsToDialogs)))
      ensures dialogs.idsToDialogs == map[]
    {
      nonDialog := NonDialogGroup(minInclusive, maxInclusive, dialogs.idsToDialogs.Keys);
      groups := [];
      while dialogs.idsToDialogs.Keys != {}
        invariant SortedByMin(groups)
        invariant Collect(groups, Groups(dialogs.idsToDialogs)) == Collect([], Groups(old(dialogs.idsToDialogs)))
        decreases |dialogs.idsToDialogs.Keys|
      {
        ghost var m := dialogs.idsToDialogs;
        var group := NextGroup();
        PassShrinks(m);
        GroupsUnfold(m);
        groups := InsertByMin(groups, group);
      }
      assert dialogs.idsToDialogs == map[] by {
        assert forall k :: k !in dialogs.idsToDialogs;
      }
    }

    /** One pass of the loop: `createDialogGroup(firstKey())` on the copy. */
    method NextGroup() returns (group: seq<int>)
      requires dialogs.idsToDialogs.Keys != {}
      modifies dialogs
      ensures group == PassGroup(old(dialogs.idsToDialogs))
      ensures dialogs.idsToDialogs == PassRest(old(dialogs.idsToDialogs))
    {
      ghost var m := dialogs.idsToDialogs;
      var id := First(dialogs.idsToDialogs.Keys);
      group := dialogs.CreateOrder(id);
    }
  }
}
