/**
 * `dialog.GroupCreator`: drains the mode's own map, smallest key first.  A
 * dialog or journal string seeds a dialog group (its parents and children,
 * recursively) that the acyclic lineariser orders, or the cyclic one when
 * the group has a cycle; a script string seeds a group of its neighbours
 * that the script lineariser lists.  The linearised groups go into a
 * `TreeSet` ordered by their smallest ID.
 */
module DialogGroupCreating {
  import opened Collections
  import opened JavaLang
  import opened DialogString
  import opened StringGraph
  import opened CycleLinearizing
  import opened Grouping
  import NonCycleLinearizing
  import ScriptLinearizing

  /**
   * How `create` ends.  A seed of any other kind (the ERROR sentinel) yields
   * an empty set, and `Collections.min`, which the `TreeSet` comparator
   * calls on it, throws `NoSuchElementException`.
   */
  datatype Outcome = Grouped(groups: seq<seq<int>>) | NoSuchElement

  /** The IDs the two dialog linearisers give a dialog group: the acyclic order, or the cyclic fallback. */
  ghost function DialogOrder(group: Graph): (ids: seq<int>)
    requires NonCycleLinearizing.FamilyClosed(group) && group != map[]
    ensures ids != []
  {
    if exists k :: k in group && NonCycleLinearizing.Cyclic(group, k, {}) then
      var seed := SetMin(group.Keys);
      ExpandMeaning(group, seed);
      Expand(group, seed).order
    else
      NonCycleLinearizing.AcyclicOrderCovers(group);
      var k := SetMin(group.Keys);
      var o := NonCycleLinearizing.OrderFrom(group, NonCycleLinearizing.Roots(group), []);
      assert k in o;
      o
  }

  lemma CyclicOrder(group: Graph)
    requires NonCycleLinearizing.FamilyClosed(group) && group != map[]
    requires exists k :: k in group && NonCycleLinearizing.Cyclic(group, k, {})
    ensures DialogOrder(group) == Expand(group, SetMin(group.Keys)).order
  {
  }

  lemma AcyclicOrder(group: Graph)
    requires NonCycleLinearizing.FamilyClosed(group) && group != map[]
    requires !exists k :: k in group && NonCycleLinearizing.Cyclic(group, k, {})
    ensures DialogOrder(group) == NonCycleLinearizing.OrderFrom(group, NonCycleLinearizing.Roots(group), [])
  {
  }

  /** The IDs of the group `id` seeds, as its lineariser gives them. */
  ghost function GroupIds(m: Graph, id: int, dialog: bool): (ids: seq<int>)
    requires Drainable(m) && id in m && IsScript(m[id].kind) != dialog
    ensures ids != []
  {
    var rest := Gather(m, id, dialog);
    GatherKeeps(m, id, dialog);
    var group := Removed(m, rest);
    assert id in group;
    if dialog then
      DialogGroupClosed(m, rest);
      DialogOrder(group)
    else
      ScriptLinearizing.Linearize(group)
  }

  /** The `while` loop of `create` from the map `m`, with the groups `gs` collected so far. */
  ghost function Drain(m: Graph, gs: seq<seq<int>>): Outcome
    requires Drainable(m) && SortedByMin(gs)
    decreases |m.Keys|
  {
    if m.Keys == {} then Grouped(gs)
    else
      var id := SetMin(m.Keys);
      var kind := m[id].kind;
      if kind == Dialog || kind == Journal || IsScript(kind) then
        var dialog := !IsScript(kind);
        var rest := Gather(m, id, dialog);
        GatherKeeps(m, id, dialog);
        Shrinks(m, rest, id);
        Drain(rest, InsertByMin(gs, GroupIds(m, id, dialog)))
      else
        NoSuchElement
  }

  /**
   * A linearised group starts from the first key of the map and holds
   * exactly the IDs the removal took out; a dialog group is closed under
   * parents and children.
   */
  lemma GroupIdsMeaning(m: Graph, id: int, dialog: bool)
    requires Drainable(m) && m.Keys != {} && id == SetMin(m.Keys) && IsScript(m[id].kind) != dialog
    ensures var group := Removed(m, Gather(m, id, dialog));
      id in GroupIds(m, id, dialog) &&
      (forall x :: x in GroupIds(m, id, dialog) <==> x in group) &&
      (dialog ==> NonCycleLinearizing.FamilyClosed(group))
  {
    var rest := Gather(m, id, dialog);
    GatherKeeps(m, id, dialog);
    var group := Removed(m, rest);
    if dialog {
      DialogGroupIs(m, id);
      DialogOrderMeaning(group);
      if exists k :: k in group && NonCycleLinearizing.Cyclic(group, k, {}) {
        CyclicOrder(group);
        CycleOrderCovers(m, id);
      }
    } else {
      ScriptGroupIs(m, id);
    }
  }

  /** The cyclic fallback on a dialog group emits every ID of it: the group is what a walk from the seed reaches. */
  lemma CycleOrderCovers(m: Graph, id: int)
    requires Drainable(m) && m.Keys != {} && id == SetMin(m.Keys) && !IsScript(m[id].kind)
    ensures var group := Removed(m, Gather(m, id, true));
      forall k :: k in group ==> k in Expand(group, id).order
  {
    var rest := Gather(m, id, true);
    GatherKeeps(m, id, true);
    var group := Removed(m, rest);
    DialogGroupIs(m, id);
    var e := Expand(group, id);
    ExpandMeaning(group, id);
    GroupIsReach(m, id, true);
    forall k | k in group
      ensures k in e.order
    {
      var p :| Walk(m, p, true) && p[0] == id && p[|p| - 1] == k;
      DrainedWalk(m, group, e.rest, p);
      assert Emitted(group, e.rest, k);
    }
  }

  /** The cyclic fallback emits every key that a walk inside the group reaches from the smallest one. */
  lemma CycleOrderReaches(group: Graph)
    requires NonCycleLinearizing.FamilyClosed(group) && group != map[]
    requires forall k :: k in group ==> Reaches(group, SetMin(group.Keys), k, true)
    ensures forall x :: x in group ==> x in Expand(group, SetMin(group.Keys)).order
  {
    var seed := SetMin(group.Keys);
    var e := Expand(group, seed);
    ExpandMeaning(group, seed);
    forall x | x in group
      ensures x in e.order
    {
      var p :| Walk(group, p, true) && p[0] == seed && p[|p| - 1] == x;
      DrainedWalk(group, group, e.rest, p);
      assert Emitted(group, e.rest, x);
    }
  }

  /** Inside a group closed under parents and children, an expansion that deleted the start of a walk deleted all of it. */
  lemma {:induction false} DrainedWalk(m: Graph, group: Graph, rest: Graph, p: seq<int>)
    requires NonCycleLinearizing.FamilyClosed(group) && Drained(group, rest)
    requires forall k :: k in group ==> k in m && group[k] == m[k]
    requires Walk(m, p, true) && p[0] in group && p[0] !in rest
    ensures p[|p| - 1] in group && p[|p| - 1] !in rest
    decreases |p|
  {
    if |p| > 1 {
      var x := p[0];
      var q := p[1..];
      assert p[1] in Followed(m[x], true);
      assert p[1] in group[x].parents || p[1] in group[x].children;
      assert q[0] == p[1];
      assert Walk(m, q, true) by {
        forall i | 0 <= i < |q| - 1
          ensures q[i + 1] in Followed(m[q[i]], true)
        {
          assert q[i] == p[i + 1] && q[i + 1] == p[i + 2];
        }
      }
      DrainedWalk(m, group, rest, q);
      assert q[|q| - 1] == p[|p| - 1];
    }
  }

  /** A dialog group is closed under parents and children, its smallest key is the seed, and the dialog linearisers order it. */
  lemma DialogGroupIs(m: Graph, id: int)
    requires Drainable(m) && m.Keys != {} && id == SetMin(m.Keys) && !IsScript(m[id].kind)
    ensures var group := Removed(m, Gather(m, id, true));
      NonCycleLinearizing.FamilyClosed(group) && group != map[] && SetMin(group.Keys) == id &&
      GroupIds(m, id, true) == DialogOrder(group)
  {
    var rest := Gather(m, id, true);
    GatherKeeps(m, id, true);
    var group := Removed(m, rest);
    DialogGroupClosed(m, rest);
    assert group.Keys <= m.Keys;
    SetMinSub(group.Keys, m.Keys);
  }

  /** A script group's IDs are exactly the removed ones. */
  lemma ScriptGroupIs(m: Graph, id: int)
    requires Drainable(m) && id in m && IsScript(m[id].kind)
    ensures var group := Removed(m, Gather(m, id, false));
      id in group && GroupIds(m, id, false) == ScriptLinearizing.Linearize(group)
  {
    GatherKeeps(m, id, false);
  }

  /**
   * The dialog order starts from the smallest key and stays in the group.
   * It covers the group when the group is acyclic, and also, through the
   * cyclic fallback, when every key is reached from the smallest one by a
   * walk inside the group.
   */
  lemma DialogOrderMeaning(group: Graph)
    requires NonCycleLinearizing.FamilyClosed(group) && group != map[]
    ensures SetMin(group.Keys) in DialogOrder(group)
    ensures forall x :: x in DialogOrder(group) ==> x in group
    ensures !(exists k :: k in group && NonCycleLinearizing.Cyclic(group, k, {})) ==>
      forall x :: x in group ==> x in DialogOrder(group)
    ensures (forall k :: k in group ==> Reaches(group, SetMin(group.Keys), k, true)) ==>
      forall x :: x in group ==> x in DialogOrder(group)
  {
    if exists k :: k in group && NonCycleLinearizing.Cyclic(group, k, {}) {
      CycleOrderWithin(group);
      CyclicOrder(group);
      if forall k :: k in group ==> Reaches(group, SetMin(group.Keys), k, true) {
        CycleOrderReaches(group);
      }
    } else {
      NonCycleLinearizing.AcyclicOrderCovers(group);
    }
  }

  /** The cyclic fallback emits its seed and, in a group closed under parents and children, only the group's IDs. */
  lemma CycleOrderWithin(group: Graph)
    requires NonCycleLinearizing.FamilyClosed(group) && group != map[]
    ensures var seed := SetMin(group.Keys);
      seed in Expand(group, seed).order && forall x :: x in Expand(group, seed).order ==> x in group
  {
    var seed := SetMin(group.Keys);
    var e := Expand(group, seed);
    ExpandMeaning(group, seed);
    EmittedWithin(group, e.rest);
  }

  lemma EmittedWithin(group: Graph, rest: Graph)
    requires NonCycleLinearizing.FamilyClosed(group)
    ensures forall x :: Emitted(group, rest, x) ==> x in group
  {
    forall x | Emitted(group, rest, x)
      ensures x in group
    {
      if !(x in group && x !in rest) {
        var k :| k in group && k !in rest && x in group[k].children;
      }
    }
  }

  /** With no ERROR record among the keys, every seed is a dialog, journal or script string and the drain ends with groups. */
  lemma {:induction false} DrainNoError(m: Graph, gs: seq<seq<int>>)
    requires Drainable(m) && SortedByMin(gs) && forall k :: k in m ==> m[k].kind != Error
    ensures Drain(m, gs).Grouped?
    decreases |m.Keys|
  {
    if m.Keys != {} {
      var id := SetMin(m.Keys);
      var dialog := !IsScript(m[id].kind);
      DrainStep(m, gs, dialog);
      var rest := Gather(m, id, dialog);
      DrainNoError(rest, InsertByMin(gs, GroupIds(m, id, dialog)));
    }
  }

  /**
   * A drain that ends with groups keeps the groups collected before it and
   * puts every key of the map into some group: no group is lost to the
   * comparator, because each new group's smallest ID is its seed, above the
   * smallest IDs of the groups before it.
   */
  lemma {:induction false} DrainCovers(m: Graph, gs: seq<seq<int>>)
    requires Drainable(m) && SortedByMin(gs)
    requires forall i, k :: 0 <= i < |gs| && k in m ==> SeqMin(gs[i]) < k
    ensures Drain(m, gs).Grouped? ==>
      (forall g :: g in gs ==> g in Drain(m, gs).groups) &&
      forall k :: k in m ==> exists g :: g in Drain(m, gs).groups && k in g
    decreases |m.Keys|
  {
    if m.Keys != {} && m[SetMin(m.Keys)].kind != Error {
      var id := SetMin(m.Keys);
      var dialog := !IsScript(m[id].kind);
      DrainStep(m, gs, dialog);
      var rest := Gather(m, id, dialog);
      var g := GroupIds(m, id, dialog);
      var gs' := InsertByMin(gs, g);
      SeedGroupJoins(m, gs, id, dialog);
      DrainCovers(rest, gs');
      if Drain(m, gs).Grouped? {
        var r := Drain(m, gs).groups;
        forall k | k in m
          ensures exists h :: h in r && k in h
        {
          if k !in rest {
            assert g in r && k in g;
          }
        }
      }
    }
  }

  /** The group of the smallest key joins the groups collected before, and its smallest ID is below every key left. */
  lemma SeedGroupJoins(m: Graph, gs: seq<seq<int>>, id: int, dialog: bool)
    requires Drainable(m) && SortedByMin(gs) && m.Keys != {} && id == SetMin(m.Keys) && IsScript(m[id].kind) != dialog
    requires forall i, k :: 0 <= i < |gs| && k in m ==> SeqMin(gs[i]) < k
    ensures var rest := Gather(m, id, dialog); var g := GroupIds(m, id, dialog); var gs' := InsertByMin(gs, g);
      g in gs' && (forall h :: h in gs ==> h in gs') &&
      (forall k :: k in m && k !in rest ==> k in g) &&
      SubMap(rest, m) && forall i, k :: 0 <= i < |gs'| && k in rest ==> SeqMin(gs'[i]) < k
  {
    var rest := Gather(m, id, dialog);
    var g := GroupIds(m, id, dialog);
    GatherKeeps(m, id, dialog);
    SeedIsMin(m, id, dialog);
    assert !HasMin(gs, id);
    var gs' := InsertByMin(gs, g);
    forall i, k | 0 <= i < |gs'| && k in rest
      ensures SeqMin(gs'[i]) < k
    {
      assert gs'[i] in gs';
      assert k in m && k != id;
      if gs'[i] != g {
        var j :| 0 <= j < |gs| && gs[j] == gs'[i];
      }
    }
  }

  /** A linearised group's smallest ID is its seed, and it holds every ID the removal took out. */
  lemma SeedIsMin(m: Graph, id: int, dialog: bool)
    requires Drainable(m) && m.Keys != {} && id == SetMin(m.Keys) && IsScript(m[id].kind) != dialog
    ensures var g := GroupIds(m, id, dialog);
      SeqMin(g) == id && forall k :: k in m && k !in Gather(m, id, dialog) ==> k in g
  {
    var g := GroupIds(m, id, dialog);
    var rest := Gather(m, id, dialog);
    GroupIdsMeaning(m, id, dialog);
    var x := SeqMin(g);
    assert x in Removed(m, rest);
    assert x in m.Keys;
    assert id <= x;
    forall k | k in m && k !in rest
      ensures k in g
    {
      assert k in Removed(m, rest);
    }
  }

  /** The group a dialog or journal seed takes out is closed under parents and children, and holds the seed. */
  lemma DialogGroupReady(m: Graph, id: int)
    requires Drainable(m) && id in m && !IsScript(m[id].kind)
    ensures var group := Removed(m, Gather(m, id, true));
      NonCycleLinearizing.FamilyClosed(group) && id in group
  {
    GatherKeeps(m, id, true);
    DialogGroupClosed(m, Gather(m, id, true));
  }

  /** One pass of the drain from a dialog, journal or script seed: a smaller drainable part of the map is left. */
  lemma DrainStep(m: Graph, gs: seq<seq<int>>, dialog: bool)
    requires Drainable(m) && SortedByMin(gs) && m.Keys != {}
    requires var k := m[SetMin(m.Keys)].kind; k != Error && dialog == !IsScript(k)
    ensures var id := SetMin(m.Keys); var rest := Gather(m, id, dialog);
      Drainable(rest) && |rest.Keys| < |m.Keys| && SubMap(rest, m) &&
      Drain(m, gs) == Drain(rest, InsertByMin(gs, GroupIds(m, id, dialog)))
  {
    var id := SetMin(m.Keys);
    var rest := Gather(m, id, dialog);
    GatherKeeps(m, id, dialog);
    Shrinks(m, rest, id);
  }

  /**
   * The `INVALID REFERENCE` sentinel -1, left in the map and below every
   * other key, is the first seed: its empty group makes `create` throw.
   */
  lemma SentinelFirstThrows(m: Graph, gs: seq<seq<int>>)
    requires Drainable(m) && SortedByMin(gs)
    requires INVALID_ID in m && m[INVALID_ID].kind == Error && forall k :: k in m ==> INVALID_ID <= k
    ensures Drain(m, gs) == NoSuchElement
  {
    assert SetMin(m.Keys) == INVALID_ID;
  }

  /**
   * Why `invoke` chops before it groups: a range of digits starts at 0 or
   * above, so the chop takes out the sentinel -1 and keeps the map drainable;
   * when the sentinel was the only ERROR record, the drain then ends with
   * groups.
   */
  lemma ChopBeforeGroups(g: Graph, lo: int, hi: int)
    requires Drainable(g) && 0 <= lo
    ensures INVALID_ID !in Chopped(g, lo, hi)
    ensures Drainable(Chopped(g, lo, hi))
    ensures (forall k :: k in g && g[k].kind == Error ==> k == INVALID_ID) ==> Drain(Chopped(g, lo, hi), []).Grouped?
  {
    var c := Chopped(g, lo, hi);
    ChoppedKeys(g, lo, hi);
    ChoppedConsistent(g, lo, hi);
    ChoppedRecords(g, lo, hi);
    forall k | k in c
      ensures if IsScript(c[k].kind) then c[k].parents == [] && c[k].children == [] else c[k].neighbors == []
    {
      assert k in g;
    }
    if forall k :: k in g && g[k].kind == Error ==> k == INVALID_ID {
      DrainNoError(c, []);
    }
  }

  /** A map without keys is the empty map. */
  lemma NoKeys(m: Graph)
    requires m.Keys == {}
    ensures m == map[]
  {
    assert forall k :: k !in m;
  }

  class DialogGroupCreator {
    /** The mode's maps themselves, not a copy: `create` empties the mode's `idsToDialogs`. */
    const maps: Registry
    const minInclusive: int
    const maxInclusive: int
    /** The `noncycle` and `cycle` entries of the lineariser map. */
    const noncycle: NonCycleLinearizing.NonCycleLinearizer
    const cycle: ListCycleLinearizer

    constructor (maps: Registry, minInclusive: int, maxInclusive: int)
      ensures this.maps == maps && this.minInclusive == minInclusive && this.maxInclusive == maxInclusive
      ensures fresh(noncycle) && fresh(cycle)
    {
      this.maps := maps;
      this.minInclusive := minInclusive;
      this.maxInclusive := maxInclusive;
      noncycle := new NonCycleLinearizing.NonCycleLinearizer();
      cycle := new ListCycleLinearizer();
    }

    /**
     * `create`, without the writing: the non-dialog group of the range,
     * then the groups the drain of the shared map produces.
     */
    method Create() returns (out: Outcome, nonDialog: seq<int>)
      requires Drainable(maps.idsToDialogs)
      modifies maps, noncycle, cycle
      ensures Increasing(nonDialog)
      ensures forall x :: x in nonDialog <==> minInclusive <= x <= maxInclusive && x !in old(maps.idsToDialogs)
      ensures out == Drain(old(maps.idsToDialogs), [])
      ensures out.Grouped? ==> maps.idsToDialogs == map[]
      ensures maps.internalIdsToIds == old(maps.internalIdsToIds) && maps.fileNamesToIds == old(maps.fileNamesToIds)
    {
      nonDialog := NonDialogGroup(minInclusive, maxInclusive, maps.idsToDialogs.Keys);
      var groups: seq<seq<int>> := [];
      while maps.idsToDialogs.Keys != {}
        invariant Drainable(maps.idsToDialogs) && SortedByMin(groups)
        invariant Drain(maps.idsToDialogs, groups) == Drain(old(maps.idsToDialogs), [])
        invariant maps.internalIdsToIds == old(maps.internalIdsToIds) && maps.fileNamesToIds == old(maps.fileNamesToIds)
        decreases |maps.idsToDialogs.Keys|
      {
        var crashed;
        crashed, groups := DrainOne(groups);
        if crashed {
          return NoSuchElement, nonDialog;
        }
      }
      NoKeys(maps.idsToDialogs);
      out := Grouped(groups);
    }

    /** One pass of the loop of `create`: the group of the first key, linearised and added. */
    method DrainOne(groups: seq<seq<int>>) returns (crashed: bool, next: seq<seq<int>>)
      requires Drainable(maps.idsToDialogs) && maps.idsToDialogs.Keys != {} && SortedByMin(groups)
      modifies maps, noncycle, cycle
      ensures crashed ==> Drain(old(maps.idsToDialogs), groups) == NoSuchElement
      ensures !crashed ==> (Drainable(maps.idsToDialogs) && SortedByMin(next) &&
        |maps.idsToDialogs.Keys| < |old(maps.idsToDialogs).Keys| &&
        Drain(maps.idsToDialogs, next) == Drain(old(maps.idsToDialogs), groups))
      ensures maps.internalIdsToIds == old(maps.internalIdsToIds) && maps.fileNamesToIds == old(maps.fileNamesToIds)
    {
      ghost var m := maps.idsToDialogs;
      var id := First(maps.idsToDialogs.Keys);
      var kind := maps.idsToDialogs[id].kind;
      if kind == Error {
        // the default branch adds an empty set, and the comparator's `Collections.min` on it throws
        return true, groups;
      }
      var dialog := !IsScript(kind);
      var linearized := TakeGroup(id, dialog);
      DrainStep(m, groups, dialog);
      next := InsertByMin(groups, linearized);
      crashed := false;
    }

    /**
     * The branches of `create` for a dialog or journal seed (`dialog`) and
     * for a script seed: the group is taken out of the map and linearised.
     */
    method TakeGroup(id: int, dialog: bool) returns (linearized: seq<int>)
      requires Drainable(maps.idsToDialogs) && id in maps.idsToDialogs
      requires maps.idsToDialogs[id].kind != Error && dialog == !IsScript(maps.idsToDialogs[id].kind)
      modifies maps, noncycle, cycle
      ensures maps.idsToDialogs == Gather(old(maps.idsToDialogs), id, dialog)
      ensures linearized == GroupIds(old(maps.idsToDialogs), id, dialog)
      ensures maps.internalIdsToIds == old(maps.internalIdsToIds) && maps.fileNamesToIds == old(maps.fileNamesToIds)
    {
      if dialog {
        linearized := TakeDialogGroup(id);
      } else {
        linearized := TakeScriptGroup(id);
      }
    }

    /** The dialog and journal branch: `createDialogGroup(id)`, then the `try` of the two linearisers. */
    method TakeDialogGroup(id: int) returns (linearized: seq<int>)
      requires Drainable(maps.idsToDialogs) && id in maps.idsToDialogs && !IsScript(maps.idsToDialogs[id].kind)
      modifies maps, noncycle, cycle
      ensures maps.idsToDialogs == Gather(old(maps.idsToDialogs), id, true)
      ensures linearized == GroupIds(old(maps.idsToDialogs), id, true)
      ensures maps.internalIdsToIds == old(maps.internalIdsToIds) && maps.fileNamesToIds == old(maps.fileNamesToIds)
    {
      DialogGroupReady(maps.idsToDialogs, id);
      var group := CreateDialogGroup(id);
      linearized := LinearizeDialog(group);
    }

    /** The script branch: `createScriptGroup(id)`, then the script lineariser. */
    method TakeScriptGroup(id: int) returns (linearized: seq<int>)
      requires Drainable(maps.idsToDialogs) && id in maps.idsToDialogs && IsScript(maps.idsToDialogs[id].kind)
      modifies maps
      ensures maps.idsToDialogs == Gather(old(maps.idsToDialogs), id, false)
      ensures linearized == GroupIds(old(maps.idsToDialogs), id, false)
      ensures maps.internalIdsToIds == old(maps.internalIdsToIds) && maps.fileNamesToIds == old(maps.fileNamesToIds)
    {
      GatherKeeps(maps.idsToDialogs, id, false);
      var group := CreateScriptGroup(id);
      linearized := ScriptLinearizing.Linearize(group);
    }

    /** The `try`: the acyclic lineariser, and on its `IllegalArgumentException` the cyclic one. */
    method LinearizeDialog(group: Graph) returns (ids: seq<int>)
      requires NonCycleLinearizing.FamilyClosed(group) && group != map[]
      modifies noncycle, cycle
      ensures ids == DialogOrder(group)
    {
      var r := noncycle.Linearize(group);
      if r.HasCycle? {
        var c := cycle.Linearize(group);
        CyclicOrder(group);
        ids := c.value;
      } else {
        AcyclicOrder(group);
        ids := r.ids;
      }
    }

    /** `createDialogGroup(id)`: removes `id`, then the groups of its parents and children that are still keys. */
    method CreateDialogGroup(id: int) returns (result: Graph)
      requires id in maps.idsToDialogs
      modifies maps
      ensures maps.idsToDialogs == Gather(old(maps.idsToDialogs), id, true)
      ensures result == Removed(old(maps.idsToDialogs), maps.idsToDialogs)
      ensures maps.internalIdsToIds == old(maps.internalIdsToIds) && maps.fileNamesToIds == old(maps.fileNamesToIds)
      decreases |maps.idsToDialogs.Keys|, 0
    {
      ghost var m := maps.idsToDialogs;
      var t := maps.idsToDialogs[id];
      maps.idsToDialogs := maps.idsToDialogs - {id};
      assert maps.idsToDialogs.Keys == m.Keys - {id};
      ghost var m1 := maps.idsToDialogs;
      GatherAllConcat(m1, t.parents, t.children, true);
      result := map[id := t];
      result := RemoveEach(t.parents, true, result);
      ghost var a := maps.idsToDialogs;
      result := RemoveEach(t.children, true, result);
      RemovedChain(map[id := t], m1, a, maps.idsToDialogs);
      RemovedSeed(m, id, maps.idsToDialogs);
    }

    /** `createScriptGroup(id)`: removes `id`, then the groups of its neighbours that are still keys. */
    method CreateScriptGroup(id: int) returns (result: Graph)
      requires id in maps.idsToDialogs
      modifies maps
      ensures maps.idsToDialogs == Gather(old(maps.idsToDialogs), id, false)
      ensures result == Removed(old(maps.idsToDialogs), maps.idsToDialogs)
      ensures maps.internalIdsToIds == old(maps.internalIdsToIds) && maps.fileNamesToIds == old(maps.fileNamesToIds)
      decreases |maps.idsToDialogs.Keys|, 0
    {
      ghost var m := maps.idsToDialogs;
      var t := maps.idsToDialogs[id];
      maps.idsToDialogs := maps.idsToDialogs - {id};
      assert maps.idsToDialogs.Keys == m.Keys - {id};
      result := map[id := t];
      result := RemoveEach(t.neighbors, false, result);
      RemovedSeed(m, id, maps.idsToDialogs);
    }

    /** The `for` loops of both: each of `ids` in turn. */
    method RemoveEach(ids: seq<int>, dialog: bool, into: Graph) returns (result: Graph)
      modifies maps
      ensures maps.idsToDialogs == GatherAll(old(maps.idsToDialogs), ids, dialog)
      ensures result == into + Removed(old(maps.idsToDialogs), maps.idsToDialogs)
      ensures maps.internalIdsToIds == old(maps.internalIdsToIds) && maps.fileNamesToIds == old(maps.fileNamesToIds)
      decreases |maps.idsToDialogs.Keys|, 2
    {
      ghost var m0 := maps.idsToDialogs;
      result := into;
      var i := 0;
      assert ids[0..] == ids;
      RemovedChain(into, m0, m0, m0);
      while i < |ids|
        invariant 0 <= i <= |ids|
        invariant SubMap(maps.idsToDialogs, m0)
        invariant GatherAll(m0, ids, dialog) == GatherAll(maps.idsToDialogs, ids[i..], dialog)
        invariant result == into + Removed(m0, maps.idsToDialogs)
        invariant maps.internalIdsToIds == old(maps.internalIdsToIds) && maps.fileNamesToIds == old(maps.fileNamesToIds)
      {
        ghost var cur := maps.idsToDialogs;
        assert ids[i..][0] == ids[i] && ids[i..][1..] == ids[i + 1..];
        SubsetCard(cur.Keys, m0.Keys);
        var r := RemoveOne(ids[i], dialog);
        RemovedChain(into, m0, cur, maps.idsToDialogs);
        result := result + r;
        i := i + 1;
      }
      assert ids[i..] == [];
    }

    /** `if (idsToDialogs.containsKey(each)) result.putAll(create…Group(each))`. */
    method RemoveOne(id: int, dialog: bool) returns (r: Graph)
      modifies maps
      ensures maps.idsToDialogs == Gather(old(maps.idsToDialogs), id, dialog)
      ensures r == Removed(old(maps.idsToDialogs), maps.idsToDialogs)
      ensures maps.internalIdsToIds == old(maps.internalIdsToIds) && maps.fileNamesToIds == old(maps.fileNamesToIds)
      decreases |maps.idsToDialogs.Keys|, 1
    {
      if id !in maps.idsToDialogs {
        r := map[];
        assert r == Removed(maps.idsToDialogs, maps.idsToDialogs);
      } else if dialog {
        r := CreateDialogGroup(id);
      } else {
        r := CreateScriptGroup(id);
      }
    }
  }
}
