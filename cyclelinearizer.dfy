/**
 * The fallback linearisers for dialog groups that may contain cycles:
 * `tlk.linearizer.CycleDialogLinearizer`, which collects into a
 * `LinkedHashSet`, and `dialog.linearizer.CycleDialogLinearizer`, which
 * collects into a `LinkedList`.  Both work on a private copy of the group.
 * `createOrder(id)` deletes `id` from the copy before it expands it, so no ID
 * is expanded twice and the recursion ends on cycles.  An expansion emits the
 * expansions of the parents, then the ID, then all of its children, then the
 * expansions of the children.
 *
 * `Expand` is the list version, stated on values; the set version is proved
 * to emit `Dedup` of it.  `tlk.GroupCreator.createDialogGroup` runs the same
 * set version on the group creator's own copy.
 */
module CycleLinearizing {
  import opened Collections
  import opened JavaLang
  import opened DialogString
  import opened StringGraph

  /** What an expansion emitted, and what is left of the private copy. */
  datatype Expansion = Expansion(order: seq<int>, rest: Graph)

  /** `a` is `b` with some keys deleted and the other records untouched. */
  predicate SubMap(a: Graph, b: Graph)
  {
    a.Keys <= b.Keys && forall k :: k in a ==> a[k] == b[k]
  }

  lemma ConcatAssoc(a: seq<int>, b: seq<int>, c: seq<int>)
    ensures a + b + c == a + (b + c)
  {
  }

  /** `acc` emitted before an expansion `e`. */
  function After(acc: seq<int>, e: Expansion): Expansion
  {
    Expansion(acc + e.order, e.rest)
  }

  /** `createOrder(id)` on the copy `m`, in the list version. */
  function Expand(m: Graph, id: int): (e: Expansion)
    ensures SubMap(e.rest, m) && |e.rest.Keys| <= |m.Keys|
    ensures id !in e.rest
    decreases |m.Keys|, 1, 0
  {
    if id !in m then Expansion([], m)
    else
      var t := m[id];
      var m1 := m - {id};
      assert m1.Keys == m.Keys - {id};
      var p := ExpandAll(m1, t.parents);
      var c := ExpandAll(p.rest, t.children);
      Expansion(p.order + [id] + t.children + c.order, c.rest)
  }

  /** The `for` loop of `createOrder` over `ids`: one expansion after the other on the shrinking copy. */
  function ExpandAll(m: Graph, ids: seq<int>): (e: Expansion)
    ensures SubMap(e.rest, m) && |e.rest.Keys| <= |m.Keys|
    ensures forall x :: x in ids ==> x !in e.rest
    decreases |m.Keys|, 2, |ids|
  {
    if ids == [] then Expansion([], m)
    else
      var a := Expand(m, ids[0]);
      var b := ExpandAll(a.rest, ids[1..]);
      assert forall x :: x in ids ==> x == ids[0] || x in ids[1..];
      Expansion(a.order + b.order, b.rest)
  }

  lemma AfterAfter(x: seq<int>, y: seq<int>, e: Expansion)
    ensures After(x, After(y, e)) == After(x + y, e)
  {
    assert x + (y + e.order) == x + y + e.order;
  }

  lemma ExpandUnfold(m: Graph, id: int)
    requires id in m
    ensures var p := ExpandAll(m - {id}, m[id].parents);
      var c := ExpandAll(p.rest, m[id].children);
      Expand(m, id) == Expansion(p.order + [id] + m[id].children + c.order, c.rest)
  {
  }

  lemma ExpandAllUnfold(m: Graph, ids: seq<int>)
    requires ids != []
    ensures ExpandAll(m, ids) == After(Expand(m, ids[0]).order, ExpandAll(Expand(m, ids[0]).rest, ids[1..]))
  {
  }

  /** `x` is an ID that the expansion from `m` to `rest` deleted, or a child of one. */
  predicate Emitted(m: Graph, rest: Graph, x: int)
  {
    (x in m && x !in rest) || exists k :: k in m && k !in rest && x in m[k].children
  }

  /** A deleted ID and its parents and children are all gone from `rest`. */
  predicate Drained(m: Graph, rest: Graph)
  {
    forall k, x :: k in m && k !in rest && (x in m[k].parents || x in m[k].children) ==> x !in rest
  }

  /**
   * An expansion emits exactly the IDs it deleted and their children, and it
   * deletes a whole connected part of the copy: nothing it deleted keeps a
   * parent or a child in the rest.  The seed is emitted iff it was in the copy.
   */
  lemma {:induction false} ExpandMeaning(m: Graph, id: int)
    ensures var e := Expand(m, id);
      (id in e.order <==> id in m) &&
      (forall x :: x in e.order <==> Emitted(m, e.rest, x)) &&
      Drained(m, e.rest)
    decreases |m.Keys|, 1, 0
  {
    var e := Expand(m, id);
    if id in m {
      var t := m[id];
      var m1 := m - {id};
      assert m1.Keys == m.Keys - {id};
      var p := ExpandAll(m1, t.parents);
      var c := ExpandAll(p.rest, t.children);
      ExpandAllMeaning(m1, t.parents);
      ExpandAllMeaning(p.rest, t.children);
      assert e.order == p.order + [id] + t.children + c.order && e.rest == c.rest;
      forall x | x in e.order
        ensures Emitted(m, e.rest, x)
      {
        if x in p.order {
          assert Emitted(m1, p.rest, x);
        } else if x in c.order {
          assert Emitted(p.rest, c.rest, x);
        }
      }
      forall x | Emitted(m, e.rest, x)
        ensures x in e.order
      {
        if x in m && x !in e.rest {
          if x == id {
          } else if x !in p.rest {
            assert Emitted(m1, p.rest, x);
          } else {
            assert Emitted(p.rest, c.rest, x);
          }
        } else {
          var k :| k in m && k !in e.rest && x in m[k].children;
          if k == id {
          } else if k !in p.rest {
            assert k in m1 && m1[k] == m[k];
            assert Emitted(m1, p.rest, x);
          } else {
            assert p.rest[k] == m[k];
            assert Emitted(p.rest, c.rest, x);
          }
        }
      }
      forall k, x | k in m && k !in e.rest && (x in m[k].parents || x in m[k].children)
        ensures x !in e.rest
      {
        if k == id {
        } else if k !in p.rest {
          assert k in m1 && m1[k] == m[k];
        } else {
          assert p.rest[k] == m[k];
        }
      }
    }
  }

  lemma {:induction false} ExpandAllMeaning(m: Graph, ids: seq<int>)
    ensures var e := ExpandAll(m, ids);
      (forall x :: x in e.order <==> Emitted(m, e.rest, x)) &&
      Drained(m, e.rest)
    decreases |m.Keys|, 2, |ids|
  {
    var e := ExpandAll(m, ids);
    if ids != [] {
      var a := Expand(m, ids[0]);
      var b := ExpandAll(a.rest, ids[1..]);
      ExpandMeaning(m, ids[0]);
      ExpandAllMeaning(a.rest, ids[1..]);
      assert e.order == a.order + b.order && e.rest == b.rest;
      forall x | x in e.order
        ensures Emitted(m, e.rest, x)
      {
        if x in a.order {
          assert Emitted(m, a.rest, x);
        } else {
          assert Emitted(a.rest, b.rest, x);
        }
      }
      forall x | Emitted(m, e.rest, x)
        ensures x in e.order
      {
        if x in m && x !in e.rest {
          if x !in a.rest {
            assert Emitted(m, a.rest, x);
          } else {
            assert Emitted(a.rest, b.rest, x);
          }
        } else {
          var k :| k in m && k !in e.rest && x in m[k].children;
          if k in a.rest {
            assert a.rest[k] == m[k];
            assert Emitted(a.rest, b.rest, x);
          } else {
            assert Emitted(m, a.rest, x);
          }
        }
      }
      forall k, x | k in m && k !in e.rest && (x in m[k].parents || x in m[k].children)
        ensures x !in e.rest
      {
        if k in a.rest {
          assert a.rest[k] == m[k];
        }
      }
    }
  }

  /** The list version repeats IDs: with 5 and 6 each the other's parent and child, it emits 6, 5, 5, 6. */
  lemma ListVersionRepeats()
    ensures var t5 := TranslationString(0, "", "five", Dialog, [6], [6], []);
      var t6 := TranslationString(1, "", "six", Dialog, [5], [5], []);
      var m := map[5 := t5, 6 := t6];
      Expand(m, 5).order == [6, 5, 5, 6] && Dedup(Expand(m, 5).order) == [6, 5] && Expand(m, 5).rest == map[]
  {
    var t5 := TranslationString(0, "", "five", Dialog, [6], [6], []);
    var t6 := TranslationString(1, "", "six", Dialog, [5], [5], []);
    var m := map[5 := t5, 6 := t6];
    var m1 := map[6 := t6];
    var none: Graph := map[];
    var empty := Expansion([], none);
    assert m - {5} == m1 && m1 - {6} == none;
    assert ExpandAll(none, []) == empty;
    ExpandAllUnfold(none, [5]);
    ExpandAllUnfold(none, [6]);
    assert ExpandAll(none, [5]) == empty && ExpandAll(none, [6]) == empty;
    ExpandUnfold(m1, 6);
    assert Expand(m1, 6) == Expansion([6, 5], none);
    ExpandAllUnfold(m1, [6]);
    assert ExpandAll(m1, [6]) == Expansion([6, 5], none);
    ExpandUnfold(m, 5);
    assert Expand(m, 5) == Expansion([6, 5, 5, 6], none);
    assert Dedup([6, 5, 5, 6]) == [6, 5];
  }

  /** `tlk.linearizer.CycleDialogLinearizer`: collects into a `LinkedHashSet`. */
  class SetCycleLinearizer {
    /** The private copy that `createOrder` deletes from. */
    var idsToDialogs: Graph

    constructor()
      ensures idsToDialogs == map[]
    {
      idsToDialogs := map[];
    }

    /**
     * `linearize`: copies the group and expands its first key (the smallest
     * here).  An empty group has no first key (`NoSuchElementException`),
     * reported as `None`.
     */
    method Linearize(group: Graph) returns (order: Option<seq<int>>)
      modifies this
      ensures order.None? <==> group == map[]
      ensures order.Some? ==> order.value == Dedup(Expand(group, SetMin(group.Keys)).order)
    {
      idsToDialogs := group;
      if idsToDialogs.Keys == {} {
        assert group == map[];
        return None;
      }
      var r := CreateOrder(SetMin(idsToDialogs.Keys));
      order := Some(r);
    }

    /** `createOrder(id)`: the set version of `Expand` on the copy. */
    method CreateOrder(id: int) returns (result: seq<int>)
      modifies this
      ensures result == Dedup(Expand(old(idsToDialogs), id).order)
      ensures idsToDialogs == Expand(old(idsToDialogs), id).rest
      decreases |idsToDialogs.Keys|, 1, 0
    {
      if id !in idsToDialogs {
        assert Expand(idsToDialogs, id) == Expansion([], idsToDialogs);
        assert Dedup([]) == [];
        return [];
      }
      var t := idsToDialogs[id];
      ExpandUnfold(idsToDialogs, id);
      idsToDialogs := idsToDialogs - {id};
      assert idsToDialogs.Keys == old(idsToDialogs).Keys - {id};
      ghost var p := ExpandAll(idsToDialogs, t.parents);
      result := AddEach(t.parents, []);
      ghost var c := ExpandAll(idsToDialogs, t.children);
      result := Insert(result, id);
      result := AddAll(result, t.children);
      result := AddEach(t.children, result);
      AddAllSnoc([], p.order, id);
      AddAllConcat([], p.order + [id], t.children);
      AddAllConcat([], p.order + [id] + t.children, c.order);
    }

    /** The two `for` loops of `createOrder`: `result.addAll(createOrder(each))` for each of `ids`. */
    method AddEach(ids: seq<int>, into: seq<int>) returns (result: seq<int>)
      modifies this
      ensures result == AddAll(into, ExpandAll(old(idsToDialogs), ids).order)
      ensures idsToDialogs == ExpandAll(old(idsToDialogs), ids).rest
      decreases |idsToDialogs.Keys|, 2, |ids|
    {
      ghost var m0 := idsToDialogs;
      ghost var done: seq<int> := [];
      result := into;
      var i := 0;
      assert ids[0..] == ids;
      assert [] + ExpandAll(m0, ids).order == ExpandAll(m0, ids).order;
      while i < |ids|
        invariant 0 <= i <= |ids|
        invariant SubMap(idsToDialogs, m0)
        invariant result == AddAll(into, done)
        invariant ExpandAll(m0, ids) == After(done, ExpandAll(idsToDialogs, ids[i..]))
      {
        ghost var before := idsToDialogs;
        ghost var a := Expand(before, ids[i]);
        ExpandAllUnfold(before, ids[i..]);
        assert ids[i..][0] == ids[i] && ids[i..][1..] == ids[i + 1..];
        SubsetCard(idsToDialogs.Keys, m0.Keys);
        var r := CreateOrder(ids[i]);
        ghost var tail := ExpandAll(idsToDialogs, ids[i + 1..]);
        AfterAfter(done, a.order, tail);
        AddAllOfDedup(result, a.order);
        AddAllConcat(into, done, a.order);
        result := AddAll(result, r);
        done := done + a.order;
        i := i + 1;
      }
      assert ids[i..] == [];
      assert done + [] == done;
    }
  }

  /** `dialog.linearizer.CycleDialogLinearizer`: collects into a `LinkedList`, so IDs can repeat. */
  class ListCycleLinearizer {
    /** The private copy that `createOrder` deletes from. */
    var idsToDialogs: Graph

    /** `getInstance`. */
    constructor()
      ensures idsToDialogs == map[]
    {
      idsToDialogs := map[];
    }

    /** `linearize`: copies the group and expands its first key; `None` for an empty group. */
    method Linearize(group: Graph) returns (order: Option<seq<int>>)
      modifies this
      ensures order.None? <==> group == map[]
      ensures order.Some? ==> order.value == Expand(group, SetMin(group.Keys)).order
    {
      idsToDialogs := group;
      if idsToDialogs.Keys == {} {
        assert group == map[];
        return None;
      }
      var r := CreateOrder(SetMin(idsToDialogs.Keys));
      order := Some(r);
    }

    /** `createOrder(id)`: `Expand` on the copy. */
    method CreateOrder(id: int) returns (result: seq<int>)
      modifies this
      ensures result == Expand(old(idsToDialogs), id).order
      ensures idsToDialogs == Expand(old(idsToDialogs), id).rest
      decreases |idsToDialogs.Keys|, 1, 0
    {
      if id !in idsToDialogs {
        assert Expand(idsToDialogs, id) == Expansion([], idsToDialogs);
        assert Dedup([]) == [];
        return [];
      }
      var t := idsToDialogs[id];
      ExpandUnfold(idsToDialogs, id);
      idsToDialogs := idsToDialogs - {id};
      assert idsToDialogs.Keys == old(idsToDialogs).Keys - {id};
      ghost var p := ExpandAll(idsToDialogs, t.parents);
      result := AddEach(t.parents, []);
      assert result == p.order;
      ghost var c := ExpandAll(idsToDialogs, t.children);
      result := result + [id];
      result := result + t.children;
      ghost var head := result;
      result := AddEach(t.children, result);
      assert result == head + c.order;
    }

    /** The two `for` loops of `createOrder`: `result.addAll(createOrder(each))` for each of `ids`. */
    method AddEach(ids: seq<int>, into: seq<int>) returns (result: seq<int>)
      modifies this
      ensures result == into + ExpandAll(old(idsToDialogs), ids).order
      ensures idsToDialogs == ExpandAll(old(idsToDialogs), ids).rest
      decreases |idsToDialogs.Keys|, 2, |ids|
    {
      ghost var m0 := idsToDialogs;
      ghost var done: seq<int> := [];
      result := into;
      var i := 0;
      assert ids[0..] == ids;
      assert [] + ExpandAll(m0, ids).order == ExpandAll(m0, ids).order;
      while i < |ids|
        invariant 0 <= i <= |ids|
        invariant SubMap(idsToDialogs, m0)
        invariant result == into + done
        invariant ExpandAll(m0, ids) == After(done, ExpandAll(idsToDialogs, ids[i..]))
      {
        ghost var before := idsToDialogs;
        ghost var a := Expand(before, ids[i]);
        ExpandAllUnfold(before, ids[i..]);
        assert ids[i..][0] == ids[i] && ids[i..][1..] == ids[i + 1..];
        SubsetCard(idsToDialogs.Keys, m0.Keys);
        var r := CreateOrder(ids[i]);
        ghost var tail := ExpandAll(idsToDialogs, ids[i + 1..]);
        AfterAfter(done, a.order, tail);
        ConcatAssoc(into, done, r);
        result := result + r;
        done := done + a.order;
        i := i + 1;
      }
      assert ids[i..] == [];
      assert done + [] == done;
    }
  }
}
