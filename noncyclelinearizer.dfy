/**
 * `NonCycleDialogLinearizer`: the ordering of a dialog group without cycles.
 *
 * `linearize` first refuses a group in which some key reaches a cycle along
 * child edges (`IllegalArgumentException`).  It then starts a deque with the
 * roots (the keys without parents, ascending) and, while the deque is not
 * empty:
 *  - rotates the deque until its front is a candidate: all of its parents
 *    are emitted already, and so are all parents of those parents' children;
 *    after `deque.size()` failed tries it rotates to the smallest ID instead;
 *  - emits the front's siblings (the children of its parents, or the front
 *    alone when it has no parents) and removes them from the deque;
 *  - pushes the children of the siblings to the front of the deque,
 *    skipping those queued or emitted already; distinct children keep the
 *    order collected, and a child collected twice goes where its last
 *    occurrence is.
 *
 * The group is modelled by value; the record type is the one of the dialog
 * package, whose lineariser runs the same algorithm.
 */
module NonCycleLinearizing {
  import opened Collections
  import opened DialogString
  import opened StringGraph

  /** Parent and child edges name only keys and are recorded at both ends: what `get` and the loop bound rely on. */
  predicate FamilyClosed(g: Graph)
  {
    (forall a, x :: a in g && x in g[a].children ==> x in g && a in g[x].parents) &&
    (forall a, x :: a in g && x in g[a].parents ==> x in g && a in g[x].children)
  }

  /** The invariant the parsers and the chop keep is enough. */
  lemma ConsistentIsFamilyClosed(g: Graph)
    requires Consistent(g)
    ensures FamilyClosed(g)
  {
    forall a, x | a in g && x in g[a].children
      ensures x in g && a in g[x].parents
    {
      var t := g[a];
      assert x in t.Edges(ChildSide);
      assert x in g;
      assert Opposite(ChildSide) == ParentSide;
      assert a in g[x].Edges(ParentSide);
    }
    forall a, x | a in g && x in g[a].parents
      ensures x in g && a in g[x].children
    {
      var t := g[a];
      assert x in t.Edges(ParentSide);
      assert x in g;
      assert Opposite(ParentSide) == ChildSide;
      assert a in g[x].Edges(ChildSide);
    }
  }

  // ------------------------------------------------------------------ cycles

  /** `checkForCycles(id, predecessors)`. */
  function Cyclic(g: Graph, id: int, preds: set<int>): bool
    requires FamilyClosed(g) && id in g
    decreases |g.Keys - preds|, 1, 0
  {
    if id in preds then true
    else
      assert (g.Keys - preds) - {id} == g.Keys - (preds + {id});
      AnyCyclic(g, g[id].children, preds + {id})
  }

  /** The loop of `checkForCycles` over the children, which stops at the first cycle found. */
  function AnyCyclic(g: Graph, cs: seq<int>, preds: set<int>): bool
    requires FamilyClosed(g) && forall c :: c in cs ==> c in g
    decreases |g.Keys - preds|, 2, |cs|
  {
    if cs == [] then false
    else Cyclic(g, cs[0], preds) || AnyCyclic(g, cs[1..], preds)
  }

  lemma {:induction false} AnyCyclicSome(g: Graph, cs: seq<int>, preds: set<int>)
    requires FamilyClosed(g) && forall c :: c in cs ==> c in g
    ensures AnyCyclic(g, cs, preds) <==> exists i :: 0 <= i < |cs| && Cyclic(g, cs[i], preds)
    decreases |cs|
  {
    if cs != [] {
      AnyCyclicSome(g, cs[1..], preds);
      assert forall i :: 1 <= i < |cs| ==> cs[i] == cs[1..][i - 1];
      if exists i :: 0 <= i < |cs| && Cyclic(g, cs[i], preds) {
        var i :| 0 <= i < |cs| && Cyclic(g, cs[i], preds);
        if i > 0 {
          assert Cyclic(g, cs[1..][i - 1], preds);
        }
      }
    }
  }

  /**
   * A walk along child edges from `p[0]` whose IDs are all new (none in
   * `preds`, none repeated) up to the last one, which closes a loop: it is
   * in `preds` or earlier on the walk.  With `preds` empty, a cycle
   * reachable from `p[0]`.
   */
  predicate Lasso(g: Graph, p: seq<int>, preds: set<int>)
  {
    |p| >= 1 &&
    (forall i :: 0 <= i < |p| - 1 ==> p[i] in g && p[i] !in preds && p[i + 1] in g[p[i]].children) &&
    NoDup(p[..|p| - 1]) &&
    (p[|p| - 1] in preds || p[|p| - 1] in p[..|p| - 1])
  }

  /** A cycle found comes with a walk that closes a loop. */
  lemma {:induction false} CyclicWitness(g: Graph, id: int, preds: set<int>) returns (p: seq<int>)
    requires FamilyClosed(g) && id in g && Cyclic(g, id, preds)
    ensures Lasso(g, p, preds) && p[0] == id
    decreases |g.Keys - preds|
  {
    if id in preds {
      p := [id];
      assert p[..0] == [];
    } else {
      var cs := g[id].children;
      var p2 := preds + {id};
      AnyCyclicSome(g, cs, p2);
      var i :| 0 <= i < |cs| && Cyclic(g, cs[i], p2);
      assert (g.Keys - preds) - {id} == g.Keys - p2;
      var q := CyclicWitness(g, cs[i], p2);
      assert q[0] in g[id].children;
      LassoCons(g, id, q, preds);
      p := [id] + q;
    }
  }

  /** A loop-closing walk from a child, with `id` among the predecessors, extends to one from `id`. */
  lemma LassoCons(g: Graph, id: int, q: seq<int>, preds: set<int>)
    requires id in g && id !in preds && Lasso(g, q, preds + {id}) && q[0] in g[id].children
    ensures Lasso(g, [id] + q, preds)
  {
    var p := [id] + q;
    var p2 := preds + {id};
    var qh := q[..|q| - 1];
    assert p[..|p| - 1] == [id] + qh;
    assert id !in qh by {
      forall j | 0 <= j < |qh|
        ensures qh[j] != id
      {
        assert qh[j] == q[j] && q[j] !in p2;
      }
    }
    NoDupCons(id, qh);
    forall j | 0 <= j < |p| - 1
      ensures p[j] in g && p[j] !in preds && p[j + 1] in g[p[j]].children
    {
      if j > 0 {
        assert p[j] == q[j - 1] && p[j + 1] == q[j];
      }
    }
    assert p[|p| - 1] == q[|q| - 1];
  }

  /** A walk that closes a loop is found. */
  lemma {:induction false} LassoCyclic(g: Graph, p: seq<int>, preds: set<int>)
    requires FamilyClosed(g) && Lasso(g, p, preds) && p[0] in g
    ensures Cyclic(g, p[0], preds)
    decreases |p|
  {
    var id := p[0];
    assert p[..0] == [];
    if id !in preds {
      assert |p| >= 2;
      var q := p[1..];
      var p2 := preds + {id};
      var qh := q[..|q| - 1];
      assert qh == p[1..|p| - 1];
      assert p[..|p| - 1] == [id] + qh;
      NoDupCons(id, qh);
      forall j | 0 <= j < |q| - 1
        ensures q[j] in g && q[j] !in p2 && q[j + 1] in g[q[j]].children
      {
        assert q[j] == p[j + 1] && q[j + 1] == p[j + 2];
        assert q[j] in qh;
      }
      assert q[|q| - 1] == p[|p| - 1];
      assert Lasso(g, q, p2);
      LassoCyclic(g, q, p2);
      var cs := g[id].children;
      assert q[0] in cs;
      var k := IndexOf(cs, q[0]);
      AnyCyclicSome(g, cs, p2);
    }
  }

  /** `checkForCycles(id, P)` is true exactly when a walk from `id` along child edges closes a loop. */
  lemma CyclicMeaning(g: Graph, id: int, preds: set<int>)
    requires FamilyClosed(g) && id in g
    ensures Cyclic(g, id, preds) <==> exists p :: Lasso(g, p, preds) && p[0] == id
  {
    if Cyclic(g, id, preds) {
      var p := CyclicWitness(g, id, preds);
    }
    forall p | Lasso(g, p, preds) && p[0] == id
      ensures Cyclic(g, id, preds)
    {
      LassoCyclic(g, p, preds);
    }
  }

  /** A record with the given children and parents; the other fields do not matter here. */
  function Node(children: seq<int>, parents: seq<int>): TranslationString
  {
    TranslationString(0, "", "", Dialog, children, parents, [])
  }

  /** 1 -> 2 -> 3 -> 1. */
  function Triangle(): Graph
  {
    map[1 := Node([2], [3]), 2 := Node([3], [1]), 3 := Node([1], [2])]
  }

  lemma TriangleIsFamilyClosed()
    ensures FamilyClosed(Triangle())
  {
    var g := Triangle();
    forall a, x | a in g && x in g[a].children
      ensures x in g && a in g[x].parents
    {
      if a == 1 {
        assert x == 2;
      } else if a == 2 {
        assert x == 3;
      } else {
        assert x == 1;
      }
    }
    forall a, x | a in g && x in g[a].parents
      ensures x in g && a in g[x].children
    {
      if a == 1 {
        assert x == 3;
      } else if a == 2 {
        assert x == 1;
      } else {
        assert x == 2;
      }
    }
  }

  /** The triangle is a cycle. */
  lemma TriangleIsCyclic()
    ensures FamilyClosed(Triangle()) && Cyclic(Triangle(), 1, {})
  {
    var g := Triangle();
    TriangleIsFamilyClosed();
    assert {1, 2} + {3} == {1, 2, 3} && {1} + {2} == {1, 2} && {} + {1} == {1};
    assert Cyclic(g, 1, {1, 2, 3});
    assert AnyCyclic(g, [1], {1, 2, 3});
    assert Cyclic(g, 3, {1, 2});
    assert AnyCyclic(g, [3], {1, 2});
    assert Cyclic(g, 2, {1});
    assert AnyCyclic(g, [2], {1});
  }

  /** A parent 1 with the children 2 and 3. */
  function Fan(): Graph
  {
    map[1 := Node([2, 3], []), 2 := Node([], [1]), 3 := Node([], [1])]
  }

  lemma FanIsFamilyClosed()
    ensures FamilyClosed(Fan())
  {
    var g := Fan();
    forall a, x | a in g && x in g[a].children
      ensures x in g && a in g[x].parents
    {
      assert a == 1;
    }
    forall a, x | a in g && x in g[a].parents
      ensures x in g && a in g[x].children
    {
      assert x == 1;
    }
  }

  /** The fan has no cycle from any key. */
  lemma FanIsAcyclic()
    ensures FamilyClosed(Fan()) && forall k :: k in Fan() ==> !Cyclic(Fan(), k, {})
  {
    var g := Fan();
    FanIsFamilyClosed();
    forall p: set<int> | 2 !in p
      ensures !Cyclic(g, 2, p)
    {
      assert AnyCyclic(g, [], p + {2}) == false;
    }
    forall p: set<int> | 3 !in p
      ensures !Cyclic(g, 3, p)
    {
      assert AnyCyclic(g, [], p + {3}) == false;
    }
    assert !Cyclic(g, 2, {1}) && !Cyclic(g, 3, {1});
    assert [2, 3][1..] == [3] && [3][1..] == [];
    assert {} + {1} == {1};
    assert AnyCyclic(g, [3], {1}) == false;
    assert AnyCyclic(g, [2, 3], {1}) == false;
    assert !Cyclic(g, 1, {});
  }

  // ------------------------------------------------------- roots and siblings

  /** The keys without parents. */
  function RootSet(g: Graph): (r: set<int>)
    ensures forall x :: x in r <==> x in g && g[x].parents == []
  {
    set x | x in g && g[x].parents == []
  }

  /** `findRoots`: the keys without parents, in the ascending order of a `TreeSet`. */
  function Roots(g: Graph): (r: seq<int>)
    ensures Increasing(r) && NoDup(r)
    ensures forall x :: x in r <==> x in g && g[x].parents == []
  {
    var r := SortedSeq(RootSet(g));
    IncreasingNoDup(r);
    r
  }

  /** The children of `ids` one after the other, the way `LinkedList.addAll` collects them. */
  function ChildrenOf(g: Graph, ids: seq<int>): (r: seq<int>)
    requires forall x :: x in ids ==> x in g
  {
    if ids == [] then []
    else
      var first := ids[0];
      assert first in ids && forall x :: x in ids[1..] ==> x in ids;
      g[first].children + ChildrenOf(g, ids[1..])
  }

  lemma {:induction false} ChildrenOfMeaning(g: Graph, ids: seq<int>)
    requires forall x :: x in ids ==> x in g
    ensures forall c :: c in ChildrenOf(g, ids) <==> exists p :: p in ids && c in g[p].children
    decreases |ids|
  {
    if ids != [] {
      var first, rest := ids[0], ids[1..];
      assert ids == [first] + rest;
      ChildrenOfMeaning(g, rest);
      assert ChildrenOf(g, ids) == g[first].children + ChildrenOf(g, rest);
      forall c | c in ChildrenOf(g, ids)
        ensures exists p :: p in ids && c in g[p].children
      {
        if c !in g[first].children {
          assert c in ChildrenOf(g, rest);
          var p :| p in rest && c in g[p].children;
          assert p in ids;
        }
      }
      forall c | exists p :: p in ids && c in g[p].children
        ensures c in ChildrenOf(g, ids)
      {
        var p :| p in ids && c in g[p].children;
        if p != first {
          assert p in rest;
        }
      }
    }
  }

  /** The children collected from keys are keys. */
  lemma {:induction false} ChildrenOfKeys(g: Graph, ids: seq<int>)
    requires FamilyClosed(g) && forall x :: x in ids ==> x in g
    ensures forall x :: x in ChildrenOf(g, ids) ==> x in g
    decreases |ids|
  {
    if ids != [] {
      var first := ids[0];
      assert first in ids && forall x :: x in ids[1..] ==> x in ids;
      ChildrenAreKeys(g, first);
      ChildrenOfKeys(g, ids[1..]);
    }
  }

  lemma ParentsAreKeys(g: Graph, id: int)
    requires FamilyClosed(g) && id in g
    ensures forall x :: x in g[id].parents ==> x in g
  {
  }

  lemma ChildrenAreKeys(g: Graph, id: int)
    requires FamilyClosed(g) && id in g
    ensures forall x :: x in g[id].children ==> x in g
  {
  }

  /** The children of the parents from position `i` on, one parent's children at a time. */
  lemma ChildrenOfStep(g: Graph, ps: seq<int>, i: nat)
    requires (forall x :: x in ps ==> x in g) && i < |ps|
    ensures ps[i] in g && ChildrenOf(g, ps[i..]) == g[ps[i]].children + ChildrenOf(g, ps[i + 1..])
  {
    var p := ps[i];
    assert p in ps;
    assert ps[i..][0] == ps[i] && ps[i..][1..] == ps[i + 1..];
  }

  /** `findSiblings(id)`: the ID alone for a root, otherwise the children of its parents, each once. */
  function Siblings(g: Graph, id: int): seq<int>
    requires FamilyClosed(g) && id in g
  {
    if g[id].parents == [] then [id] else Dedup(ChildrenOf(g, g[id].parents))
  }

  /**
   * The siblings are duplicate-free keys; their own ID is among them
   * (because edges are recorded at both ends); and, unless `id` is a root,
   * they are exactly the children of `id`'s parents.
   */
  lemma SiblingsMeaning(g: Graph, id: int)
    requires FamilyClosed(g) && id in g
    ensures var s := Siblings(g, id);
      NoDup(s) && id in s && (forall x :: x in s ==> x in g) &&
      (g[id].parents != [] ==> forall x :: x in s <==> exists p :: p in g[id].parents && x in g[p].children)
  {
    var ps := g[id].parents;
    if ps != [] {
      ParentOfChild(g, id);
      ChildrenOfMeaning(g, ps);
      var p := ps[0];
      assert p in ps && id in g[p].children;
      ChildrenOfKeys(g, ps);
    }
  }

  lemma ParentOfChild(g: Graph, id: int)
    requires FamilyClosed(g) && id in g && g[id].parents != []
    ensures g[id].parents[0] in g && id in g[g[id].parents[0]].children
  {
    var p := g[id].parents[0];
    assert p in g[id].parents;
    assert p in g && id in g[p].children;
  }


  // ------------------------------------------------------------- rotation

  /** Every parent, and every parent of each of that parent's children, is emitted already. */
  predicate Cleared(g: Graph, visited: seq<int>, p: int)
    requires FamilyClosed(g) && p in g
  {
    p in visited && forall c :: c in g[p].children ==> ParentsVisited(g, visited, c)
  }

  predicate ParentsVisited(g: Graph, visited: seq<int>, c: int)
    requires c in g
  {
    forall q :: q in g[c].parents ==> q in visited
  }

  /** The test `rotateToCandidate` applies to the front of the deque. */
  predicate Candidate(g: Graph, visited: seq<int>, id: int)
    requires FamilyClosed(g) && id in g
  {
    forall p :: p in g[id].parents ==> Cleared(g, visited, p)
  }

  /** A parent `q` of a child `c` of a parent `p` of `id`, not yet emitted, makes `id` no candidate. */
  lemma NotCandidate(g: Graph, visited: seq<int>, id: int, p: int, c: int, q: int)
    requires FamilyClosed(g) && id in g && p in g[id].parents && c in g[p].children && q in g[c].parents
    requires q !in visited
    ensures !Candidate(g, visited, id)
  {
    assert p in g && c in g;
    assert !ParentsVisited(g, visited, c);
    assert !Cleared(g, visited, p);
  }

  /** The deque rotated so that it starts at position `k`. */
  function Rotate(s: seq<int>, k: nat): (r: seq<int>)
    requires k <= |s|
    ensures |r| == |s|
  {
    s[k..] + s[..k]
  }

  /** A rotation keeps every element, as often as it was there. */
  lemma RotatePermutes(s: seq<int>, k: nat)
    requires k <= |s|
    ensures multiset(Rotate(s, k)) == multiset(s)
  {
    assert s == s[..k] + s[k..];
  }

  /** The least of the first `n` positions of `d` that holds a candidate, or `n` when none does. */
  function FirstCandidate(g: Graph, visited: seq<int>, d: seq<int>, n: nat): (k: nat)
    requires FamilyClosed(g) && n <= |d| && forall x :: x in d ==> x in g
    ensures k <= n
  {
    if n == 0 then 0
    else if Candidate(g, visited, d[0]) then 0
    else
      assert forall x :: x in d[1..] ==> x in d;
      1 + FirstCandidate(g, visited, d[1..], n - 1)
  }

  /** The search stops at the first candidate among the first `n` IDs, or after them when there is none. */
  lemma FirstCandidateMeaning(g: Graph, visited: seq<int>, d: seq<int>, n: nat)
    requires FamilyClosed(g) && n <= |d| && forall x :: x in d ==> x in g
    ensures var k := FirstCandidate(g, visited, d, n);
      (k < n ==> Candidate(g, visited, d[k])) && forall j :: 0 <= j < k ==> !Candidate(g, visited, d[j])
  {
    FirstCandidateFound(g, visited, d, n);
    FirstCandidateSkips(g, visited, d, n);
  }

  /** A search that stops before `n` stops at a candidate. */
  lemma {:induction false} FirstCandidateFound(g: Graph, visited: seq<int>, d: seq<int>, n: nat)
    requires FamilyClosed(g) && n <= |d| && forall x :: x in d ==> x in g
    ensures var k := FirstCandidate(g, visited, d, n); k < n ==> Candidate(g, visited, d[k])
  {
    if n > 0 && !Candidate(g, visited, d[0]) {
      var e := d[1..];
      assert forall x :: x in e ==> x in d;
      FirstCandidateFound(g, visited, e, n - 1);
      var k' := FirstCandidate(g, visited, e, n - 1);
      assert FirstCandidate(g, visited, d, n) == 1 + k';
      if k' < n - 1 {
        var x := e[k'];
        assert x == d[1 + k'];
        assert Candidate(g, visited, x);
      }
    }
  }

  /** Every ID the search passes over is no candidate. */
  lemma {:induction false} FirstCandidateSkips(g: Graph, visited: seq<int>, d: seq<int>, n: nat)
    requires FamilyClosed(g) && n <= |d| && forall x :: x in d ==> x in g
    ensures var k := FirstCandidate(g, visited, d, n); forall j :: 0 <= j < k ==> !Candidate(g, visited, d[j])
  {
    if n > 0 && !Candidate(g, visited, d[0]) {
      var e := d[1..];
      assert forall x :: x in e ==> x in d;
      FirstCandidateSkips(g, visited, e, n - 1);
      var k' := FirstCandidate(g, visited, e, n - 1);
      assert FirstCandidate(g, visited, d, n) == 1 + k';
      forall j | 1 <= j < 1 + k'
        ensures !Candidate(g, visited, d[j])
      {
        assert d[j] == e[j - 1];
      }
    }
  }

  /** How many fronts `rotateToCandidate(deque, visited, iteration)` tries before it falls back to the minimum. */
  function Tries(size: nat, iteration: nat): nat
  {
    if iteration >= size then 0 else size - iteration
  }

  /** Where `rotateToCandidate(deque, visited, iteration)` leaves the deque. */
  function Rotated(g: Graph, visited: seq<int>, d: seq<int>, iteration: nat): seq<int>
    requires FamilyClosed(g) && |d| > 0 && forall x :: x in d ==> x in g
  {
    var n := Tries(|d|, iteration);
    RotateAt(d, n, FirstCandidate(g, visited, d, n))
  }

  /** The deque after a search of `n` tries that stopped at `k`: at the candidate, or else at the smallest ID. */
  function RotateAt(d: seq<int>, n: nat, k: nat): seq<int>
    requires |d| > 0 && k <= n <= |d|
  {
    if k < n then Rotate(d, k)
    else
      var e := Rotate(d, n);
      Rotate(e, IndexOf(e, SeqMin(e)))
  }

  /** A search stopping at `k` gives what a search, one shorter, of the once-rotated deque gives. */
  lemma RotateAtStep(d: seq<int>, n: nat, k: nat)
    requires |d| > 0 && 1 <= k <= n <= |d|
    ensures RotateAt(Rotate(d, 1), n - 1, k - 1) == RotateAt(d, n, k)
  {
    RotateTwice(d, k);
  }

  /**
   * Called with iteration 0, `rotateToCandidate` only rotates, and it stops
   * at a candidate, or, when no ID of the deque is one, at the smallest ID.
   */
  lemma RotatedMeaning(g: Graph, visited: seq<int>, d: seq<int>)
    requires FamilyClosed(g) && |d| > 0 && forall x :: x in d ==> x in g
    ensures var r := Rotated(g, visited, d, 0);
      multiset(r) == multiset(d) && r[0] in g &&
      (Candidate(g, visited, r[0]) || (r[0] == SeqMin(d) && forall x :: x in d ==> !Candidate(g, visited, x)))
  {
    var n := |d|;
    var k := FirstCandidate(g, visited, d, n);
    FirstCandidateMeaning(g, visited, d, n);
    var r := Rotated(g, visited, d, 0);
    if k < n {
      RotatePermutes(d, k);
      assert r[0] == d[k];
    } else {
      var e := Rotate(d, n);
      assert e == d;
      RotatePermutes(d, IndexOf(d, SeqMin(d)));
      forall x | x in d
        ensures !Candidate(g, visited, x)
      {
        var j :| 0 <= j < |d| && d[j] == x;
      }
    }
    assert r[0] in multiset(d);
  }

  lemma RotateTwice(s: seq<int>, k: nat)
    requires 1 <= k <= |s|
    ensures Rotate(Rotate(s, 1), k - 1) == Rotate(s, k)
  {
    var t := Rotate(s, 1);
    assert t == s[1..] + [s[0]];
    assert t[k - 1..] == s[k..] + [s[0]];
    assert t[..k - 1] == s[1..k];
    assert s[..k] == [s[0]] + s[1..k];
  }

  /** A candidate search depends only on the positions it looks at. */
  lemma FirstCandidateSame(g: Graph, visited: seq<int>, d: seq<int>, e: seq<int>, n: nat)
    requires FamilyClosed(g) && n <= |d| && n <= |e| && d[..n] == e[..n]
    requires (forall x :: x in d ==> x in g) && forall x :: x in e ==> x in g
    ensures FirstCandidate(g, visited, d, n) == FirstCandidate(g, visited, e, n)
  {
    var k, l := FirstCandidate(g, visited, d, n), FirstCandidate(g, visited, e, n);
    FirstCandidateMeaning(g, visited, d, n);
    FirstCandidateMeaning(g, visited, e, n);
    assert forall j :: 0 <= j < n ==> d[j] == d[..n][j] == e[..n][j] == e[j];
  }

  /** Rotating a front that is not the minimum brings the minimum one step closer. */
  lemma RotateMin(d: seq<int>)
    requires |d| > 0 && d[0] != SeqMin(d)
    ensures var t := Rotate(d, 1);
      SeqMin(t) == SeqMin(d) && IndexOf(t, SeqMin(t)) == IndexOf(d, SeqMin(d)) - 1 &&
      Rotate(t, IndexOf(t, SeqMin(t))) == Rotate(d, IndexOf(d, SeqMin(d)))
  {
    var t := Rotate(d, 1);
    var m := SeqMin(d);
    RotateOne(d);
    SameMin(t, d);
    MinInTail(d);
    IndexOfAppend(d[1..], d[0], m);
    RotateTwice(d, IndexOf(d, m));
  }

  lemma RotateOne(d: seq<int>)
    requires |d| > 0
    ensures Rotate(d, 1) == d[1..] + [d[0]] && forall y :: y in Rotate(d, 1) <==> y in d
  {
    var t := Rotate(d, 1);
    assert t == d[1..] + [d[0]];
    assert d == [d[0]] + d[1..];
  }

  /** A minimum that is not at the front is found in the tail, one position earlier. */
  lemma MinInTail(d: seq<int>)
    requires |d| > 0 && d[0] != SeqMin(d)
    ensures SeqMin(d) in d[1..] && IndexOf(d, SeqMin(d)) == 1 + IndexOf(d[1..], SeqMin(d))
  {
    assert d == [d[0]] + d[1..];
  }

  /** Sequences with the same elements have the same minimum. */
  lemma SameMin(a: seq<int>, b: seq<int>)
    requires |a| > 0 && |b| > 0 && forall y :: y in a <==> y in b
    ensures SeqMin(a) == SeqMin(b)
  {
  }

  /** Appending does not move the first occurrence of a present value. */
  lemma {:induction false} IndexOfAppend(s: seq<int>, y: int, x: int)
    requires x in s
    ensures IndexOf(s + [y], x) == IndexOf(s, x)
  {
    if s[0] != x {
      assert (s + [y])[1..] == s[1..] + [y];
      IndexOfAppend(s[1..], y, x);
    }
  }

  /** The search stops at a candidate front, or, after its tries, at the minimum. */
  lemma RotatedDone(g: Graph, visited: seq<int>, d: seq<int>, iteration: nat)
    requires FamilyClosed(g) && |d| > 0 && (forall x :: x in d ==> x in g)
    requires if iteration < |d| then Candidate(g, visited, d[0]) else d[0] == SeqMin(d)
    ensures Rotated(g, visited, d, iteration) == d
  {
    assert Rotate(d, 0) == d;
    if iteration >= |d| {
      assert IndexOf(d, SeqMin(d)) == 0;
    }
  }

  /** After its tries the search rotates one step towards the minimum. */
  lemma RotatedPastTries(g: Graph, visited: seq<int>, d: seq<int>, iteration: nat)
    requires FamilyClosed(g) && |d| > 0 && (forall x :: x in d ==> x in g)
    requires iteration >= |d| && d[0] != SeqMin(d)
    ensures var t := d[1..] + [d[0]];
      (forall x :: x in t ==> x in g) && IndexOf(t, SeqMin(t)) < IndexOf(d, SeqMin(d)) &&
      Rotated(g, visited, t, iteration + 1) == Rotated(g, visited, d, iteration)
  {
    var t := Rotate(d, 1);
    assert t == d[1..] + [d[0]];
    assert forall y :: y in t <==> y in d;
    assert Rotate(d, 0) == d && Rotate(t, 0) == t;
    RotateMin(d);
  }

  /** A pass that tests a front which is not a candidate: the search continues one position further. */
  lemma RotatedStep(g: Graph, visited: seq<int>, d: seq<int>, iteration: nat)
    requires FamilyClosed(g) && |d| > 0 && (forall x :: x in d ==> x in g)
    requires iteration < |d| && !Candidate(g, visited, d[0])
    ensures var t := Rotate(d, 1);
      (forall x :: x in t ==> x in g) && Rotated(g, visited, t, iteration + 1) == Rotated(g, visited, d, iteration)
  {
    var t := Rotate(d, 1);
    RotateOne(d);
    var n := |d| - iteration;
    FirstCandidateRotated(g, visited, d, n);
    var k := FirstCandidate(g, visited, d, n);
    RotateAtStep(d, n, k);
    RotatedIs(g, visited, d, iteration, n, k);
    RotatedIs(g, visited, t, iteration + 1, n - 1, k - 1);
    assert Rotated(g, visited, t, iteration + 1) == RotateAt(t, n - 1, k - 1);
    assert RotateAt(t, n - 1, k - 1) == RotateAt(d, n, k);
    assert RotateAt(d, n, k) == Rotated(g, visited, d, iteration);
  }

  /** Past a front that is no candidate, the search goes on in the rotated deque. */
  lemma FirstCandidateRotated(g: Graph, visited: seq<int>, d: seq<int>, n: nat)
    requires FamilyClosed(g) && 1 <= n <= |d| && (forall x :: x in d ==> x in g) && !Candidate(g, visited, d[0])
    requires forall x :: x in Rotate(d, 1) ==> x in g
    ensures FirstCandidate(g, visited, d, n) == 1 + FirstCandidate(g, visited, Rotate(d, 1), n - 1)
  {
    var t := Rotate(d, 1);
    assert t == d[1..] + [d[0]];
    assert t[..n - 1] == d[1..][..n - 1];
    FirstCandidateSame(g, visited, t, d[1..], n - 1);
  }

  lemma RotatedIs(g: Graph, visited: seq<int>, d: seq<int>, iteration: nat, n: nat, k: nat)
    requires FamilyClosed(g) && |d| > 0 && (forall x :: x in d ==> x in g)
    requires n == Tries(|d|, iteration) && k == FirstCandidate(g, visited, d, n)
    ensures Rotated(g, visited, d, iteration) == RotateAt(d, n, k)
  {
  }

  // ------------------------------------------------------------- the order

  /** The deque and the result of `createOrder`: duplicate-free, made of keys, and disjoint. */
  predicate Queue(g: Graph, d: seq<int>, r: seq<int>)
  {
    NoDup(d) && NoDup(r) && (forall x :: x in d ==> x in g) && (forall x :: x in r ==> x in g) &&
    forall x :: x in d ==> x !in r
  }

  /** The reverse iteration over the collected children that calls `addFirst` on the new ones. */
  function PushFront(d: seq<int>, r: seq<int>, cs: seq<int>): seq<int>
    decreases |cs|
  {
    if cs == [] then d
    else
      var c := cs[|cs| - 1];
      PushFront(if c in d || c in r then d else [c] + d, r, cs[..|cs| - 1])
  }

  /** Pushing keeps the deque as the tail of the new one. */
  lemma {:induction false} PushFrontSuffix(d: seq<int>, r: seq<int>, cs: seq<int>)
    ensures var p := PushFront(d, r, cs); |p| >= |d| && p[|p| - |d|..] == d
    decreases |cs|
  {
    if cs != [] {
      var init, c := cs[..|cs| - 1], cs[|cs| - 1];
      var d1 := if c in d || c in r then d else [c] + d;
      PushFrontSuffix(d1, r, init);
      var p := PushFront(d1, r, init);
      assert p == PushFront(d, r, cs);
      if d1 != d {
        SuffixOfSuffix(p, c, d);
      }
    }
  }

  lemma SuffixOfSuffix(p: seq<int>, c: int, d: seq<int>)
    requires |p| >= |d| + 1 && p[|p| - |d| - 1..] == [c] + d
    ensures p[|p| - |d|..] == d
  {
    assert p[|p| - |d|..] == p[|p| - |d| - 1..][1..];
  }

  /** Pushing adds exactly the children that were neither queued nor emitted, each once. */
  lemma {:induction false} PushFrontElems(d: seq<int>, r: seq<int>, cs: seq<int>)
    ensures var p := PushFront(d, r, cs);
      (forall x :: x in p <==> x in d || (x in cs && x !in r)) && (NoDup(d) ==> NoDup(p))
    decreases |cs|
  {
    if cs != [] {
      var init, c := cs[..|cs| - 1], cs[|cs| - 1];
      assert cs == init + [c];
      var d1 := if c in d || c in r then d else [c] + d;
      PushFrontElems(d1, r, init);
      if NoDup(d) && d1 != d {
        NoDupCons(c, d);
      }
    }
  }

  /**
   * The children the pushes put in front of the deque: those of `cs` not in
   * `drop`, each once, at the place of its last occurrence in `cs` (the
   * descending iterator meets a repeated child there first).
   */
  function NewChildren(cs: seq<int>, drop: set<int>): (n: seq<int>)
    ensures forall x :: x in n <==> x in cs && x !in drop
    ensures NoDup(n)
    decreases |cs|
  {
    if cs == [] then []
    else
      var init, c := cs[..|cs| - 1], cs[|cs| - 1];
      assert cs == init + [c];
      if c in drop then NewChildren(init, drop)
      else
        var m := NewChildren(init, drop + {c});
        NoDupSnoc(m, c);
        m + [c]
  }

  /** The new children come in the order of their last occurrences among the collected ones. */
  lemma {:induction false} NewChildrenOrder(cs: seq<int>, drop: set<int>)
    ensures var n := NewChildren(cs, drop);
      forall i, j :: 0 <= i < j < |n| ==> LastIndex(cs, n[i]) < LastIndex(cs, n[j])
    decreases |cs|
  {
    if cs != [] {
      var init, c := cs[..|cs| - 1], cs[|cs| - 1];
      assert cs == init + [c];
      var n := NewChildren(cs, drop);
      if c in drop {
        NewChildrenOrder(init, drop);
        assert n == NewChildren(init, drop);
        forall i, j | 0 <= i < j < |n|
          ensures LastIndex(cs, n[i]) < LastIndex(cs, n[j])
        {
          assert n[i] in n && n[j] in n;
          LastIndexSnoc(init, c, n[i]);
          LastIndexSnoc(init, c, n[j]);
        }
      } else {
        var more := drop + {c};
        var m := NewChildren(init, more);
        NewChildrenOrder(init, more);
        assert (var n2 := NewChildren(init, more); forall i, j :: 0 <= i < j < |n2| ==> LastIndex(init, n2[i]) < LastIndex(init, n2[j]));
        assert n == m + [c];
        assert LastIndex(cs, c) == |init|;
        forall i, j | 0 <= i < j < |n|
          ensures LastIndex(cs, n[i]) < LastIndex(cs, n[j])
        {
          assert n[i] == m[i] && n[i] in m;
          LastIndexSnoc(init, c, n[i]);
          if j < |m| {
            assert n[j] == m[j] && n[j] in m;
            LastIndexSnoc(init, c, n[j]);
            assert LastIndex(init, m[i]) < LastIndex(init, m[j]);
          } else {
            assert n[j] == c;
            assert LastIndex(init, m[i]) < |init|;
          }
        }
      }
    }
  }

  lemma LastIndexSnoc(init: seq<int>, c: int, x: int)
    requires x in init && x != c
    ensures LastIndex(init + [c], x) == LastIndex(init, x)
  {
    assert (init + [c])[..|init|] == init;
  }

  /** Without repeats, the new children are the collected ones with those in `drop` left out, in the order collected. */
  lemma {:induction false} NewChildrenDistinct(cs: seq<int>, drop: set<int>)
    requires NoDup(cs)
    ensures NewChildren(cs, drop) == FilterOut(cs, drop)
    decreases |cs|
  {
    if cs != [] {
      var init, c := cs[..|cs| - 1], cs[|cs| - 1];
      assert cs == init + [c];
      NoDupSnoc(init, c);
      FilterOutSnoc(init, c, drop);
      if c in drop {
        NewChildrenDistinct(init, drop);
      } else {
        NewChildrenDistinct(init, drop + {c});
        FilterOutMore(init, drop, c);
        RemoveAbsent(FilterOut(init, drop), c);
      }
    }
  }

  /**
   * The reverse iteration with `addFirst` puts the new children in front of
   * the old deque, each at the place of its last occurrence.
   */
  lemma {:induction false} PushFrontOrder(d: seq<int>, r: seq<int>, cs: seq<int>)
    ensures PushFront(d, r, cs) == NewChildren(cs, Elems(d) + Elems(r)) + d
    decreases |cs|
  {
    if cs != [] {
      var init, c := cs[..|cs| - 1], cs[|cs| - 1];
      assert cs == init + [c];
      var d1 := if c in d || c in r then d else [c] + d;
      assert PushFront(d, r, cs) == PushFront(d1, r, init);
      PushFrontOrder(d1, r, init);
      if d1 != d {
        ElemsConsDrop(c, d, r);
        AppendAssoc(NewChildren(init, Elems(d) + Elems(r) + {c}), [c], d);
      }
    }
  }

  /** Distinct children are pushed in the order they were collected. */
  lemma PushFrontDistinct(d: seq<int>, r: seq<int>, cs: seq<int>)
    requires NoDup(cs)
    ensures PushFront(d, r, cs) == FilterOut(cs, Elems(d) + Elems(r)) + d
  {
    PushFrontOrder(d, r, cs);
    NewChildrenDistinct(cs, Elems(d) + Elems(r));
  }

  /** Two siblings sharing child 3, collected as 3, 4, 3: the deque starts 4, 3, not 3, 4. */
  lemma PushFrontRepeated()
    ensures PushFront([], [], [3, 4, 3]) == [4, 3]
  {
    assert [3, 4, 3][..2] == [3, 4] && [3, 4][..1] == [3] && [3][..0] == [];
  }

  lemma AppendAssoc(a: seq<int>, b: seq<int>, c: seq<int>)
    ensures a + (b + c) == (a + b) + c
  {
  }

  lemma ElemsConsDrop(c: int, d: seq<int>, r: seq<int>)
    ensures Elems([c] + d) + Elems(r) == Elems(d) + Elems(r) + {c}
  {
    assert forall x :: x in [c] + d <==> x == c || x in d;
  }

  /** One pass of the `while` loop of `createOrder`. */
  datatype Pass = Pass(deque: seq<int>, result: seq<int>)

  function Step(g: Graph, d: seq<int>, r: seq<int>): (s: Pass)
    requires FamilyClosed(g) && Queue(g, d, r) && d != []
    ensures Queue(g, s.deque, s.result)
    ensures |g.Keys - Elems(s.result)| < |g.Keys - Elems(r)|
  {
    var rot := Rotated(g, r, d, 0);
    RotatedMeaning(g, r, d);
    var sib := Siblings(g, rot[0]);
    SiblingsMeaning(g, rot[0]);
    var rest := FilterOut(rot[1..], Elems(sib));
    var r1 := AddAll(r, sib);
    var cs := ChildrenOf(g, sib);
    StepQueue(g, d, r, rot, sib, rest, r1, cs);
    Pass(PushFront(rest, r1, cs), r1)
  }

  lemma StepQueue(g: Graph, d: seq<int>, r: seq<int>, rot: seq<int>, sib: seq<int>, rest: seq<int>, r1: seq<int>, cs: seq<int>)
    requires FamilyClosed(g) && Queue(g, d, r) && d != []
    requires multiset(rot) == multiset(d) && |rot| > 0
    requires NoDup(sib) && rot[0] in sib && (forall x :: x in sib ==> x in g)
    requires rest == FilterOut(rot[1..], Elems(sib)) && r1 == AddAll(r, sib) && cs == ChildrenOf(g, sib)
    ensures Queue(g, PushFront(rest, r1, cs), r1)
    ensures |g.Keys - Elems(r1)| < |g.Keys - Elems(r)|
  {
    PermutationElems(d, rot);
    RestFacts(rot, sib, rest);
    ChildrenOfKeys(g, sib);
    var q := PushFront(rest, r1, cs);
    PushFrontElems(rest, r1, cs);
    assert NoDup(q) && NoDup(r1);
    assert forall x :: x in r1 ==> x in g;
    assert forall x :: x in q ==> x in g && x !in r1;
    var f := rot[0];
    assert f in d;
    assert f in g.Keys - Elems(r);
    assert g.Keys - Elems(r1) <= (g.Keys - Elems(r)) - {f};
    SubsetCard(g.Keys - Elems(r1), (g.Keys - Elems(r)) - {f});
  }

  /** Sequences that are permutations of each other have the same elements; one is duplicate-free when the other is. */
  lemma PermutationElems(a: seq<int>, b: seq<int>)
    requires multiset(a) == multiset(b)
    ensures (forall x :: x in b <==> x in a) && (NoDup(a) ==> NoDup(b))
  {
    forall x
      ensures x in b <==> x in a
    {
      assert x in b <==> x in multiset(b);
      assert x in a <==> x in multiset(a);
    }
    if NoDup(a) {
      PermutationNoDup(a, b);
    }
  }

  /** The deque behind the front, without the siblings just emitted. */
  lemma RestFacts(rot: seq<int>, sib: seq<int>, rest: seq<int>)
    requires NoDup(rot) && |rot| > 0 && rest == FilterOut(rot[1..], Elems(sib))
    ensures NoDup(rest) && forall x :: x in rest ==> x in rot && x !in sib
  {
    assert rot == [rot[0]] + rot[1..];
    NoDupCons(rot[0], rot[1..]);
  }

  /** What `createOrder` returns for a deque `d` after emitting `r`. */
  function OrderFrom(g: Graph, d: seq<int>, r: seq<int>): seq<int>
    requires FamilyClosed(g) && Queue(g, d, r)
    decreases |g.Keys - Elems(r)|
  {
    if d == [] then r
    else
      var s := Step(g, d, r);
      OrderFrom(g, s.deque, s.result)
  }

  /** Every child of an emitted ID is emitted or queued. */
  predicate ChildrenPending(g: Graph, d: seq<int>, r: seq<int>)
    requires forall x :: x in r ==> x in g
  {
    forall x, c :: x in r && c in g[x].children ==> c in r || c in d
  }

  /**
   * How one pass moves IDs: what was emitted stays in front, what was
   * queued is queued or emitted, and no child of an emitted ID is lost.
   */
  lemma StepMoves(g: Graph, d: seq<int>, r: seq<int>)
    requires FamilyClosed(g) && Queue(g, d, r) && d != []
    ensures var s := Step(g, d, r);
      |s.result| >= |r| && s.result[..|r|] == r &&
      (forall x :: x in d ==> x in s.deque || x in s.result) &&
      (ChildrenPending(g, d, r) ==> ChildrenPending(g, s.deque, s.result))
  {
    var rot := Rotated(g, r, d, 0);
    RotatedMeaning(g, r, d);
    var sib := Siblings(g, rot[0]);
    SiblingsMeaning(g, rot[0]);
    var rest := FilterOut(rot[1..], Elems(sib));
    var r1 := AddAll(r, sib);
    var cs := ChildrenOf(g, sib);
    assert Step(g, d, r) == Pass(PushFront(rest, r1, cs), r1);
    MovesParts(g, d, r, rot, sib, rest, r1, cs);
  }

  lemma MovesParts(g: Graph, d: seq<int>, r: seq<int>, rot: seq<int>, sib: seq<int>, rest: seq<int>, r1: seq<int>, cs: seq<int>)
    requires FamilyClosed(g) && Queue(g, d, r) && d != []
    requires multiset(rot) == multiset(d) && |rot| > 0
    requires NoDup(sib) && rot[0] in sib && (forall x :: x in sib ==> x in g)
    requires rest == FilterOut(rot[1..], Elems(sib)) && r1 == AddAll(r, sib) && cs == ChildrenOf(g, sib)
    ensures var q := PushFront(rest, r1, cs);
      |r1| >= |r| && r1[..|r|] == r && (forall x :: x in d ==> x in q || x in r1) &&
      (ChildrenPending(g, d, r) ==> ChildrenPending(g, q, r1))
  {
    PermutationElems(d, rot);
    AddAllPrefix(r, sib);
    var q := PushFront(rest, r1, cs);
    PushFrontElems(rest, r1, cs);
    forall x | x in d
      ensures x in q || x in r1
    {
      HeadOrTail(rot, x);
    }
    if ChildrenPending(g, d, r) {
      ChildrenOfMeaning(g, sib);
      forall x, c | x in r1 && c in g[x].children
        ensures c in r1 || c in q
      {
        if x in sib {
          assert c in cs;
        }
      }
    }
  }

  lemma HeadOrTail(s: seq<int>, x: int)
    requires x in s
    ensures x == s[0] || x in s[1..]
  {
    var i :| 0 <= i < |s| && s[i] == x;
    if i > 0 {
      assert s[1..][i - 1] == x;
    }
  }

  lemma PrefixOfPrefix(o: seq<int>, r1: seq<int>, r: seq<int>)
    requires |r| <= |r1| <= |o| && o[..|r1|] == r1 && r1[..|r|] == r
    ensures o[..|r|] == r
  {
    assert o[..|r|] == o[..|r1|][..|r|];
  }

  /** The elements of a prefix are elements of the whole. */
  lemma PrefixElems(o: seq<int>, r: seq<int>)
    requires |o| >= |r| && o[..|r|] == r
    ensures forall x :: x in r ==> x in o
  {
    forall x | x in r
      ensures x in o
    {
      var i :| 0 <= i < |r| && r[i] == x;
      assert o[i] == o[..|r|][i];
    }
  }

  /**
   * What `createOrder` returns: duplicate-free keys that start with what was
   * emitted already and include everything queued; and, once no child of an
   * emitted ID is left out of the deque, everything it emits has its
   * children emitted too.
   */
  lemma {:induction false} OrderFromMeaning(g: Graph, d: seq<int>, r: seq<int>)
    requires FamilyClosed(g) && Queue(g, d, r)
    ensures var o := OrderFrom(g, d, r);
      NoDup(o) && (forall x :: x in o ==> x in g) && |o| >= |r| && o[..|r|] == r &&
      (forall x :: x in d ==> x in o) &&
      (ChildrenPending(g, d, r) ==> forall x, c :: x in o && c in g[x].children ==> c in o)
    decreases |g.Keys - Elems(r)|
  {
    if d != [] {
      var s := Step(g, d, r);
      StepMoves(g, d, r);
      OrderFromMeaning(g, s.deque, s.result);
      var o := OrderFrom(g, d, r);
      assert o == OrderFrom(g, s.deque, s.result);
      PrefixOfPrefix(o, s.result, r);
      PrefixElems(o, s.result);
    } else {
      assert OrderFrom(g, d, r) == r;
      assert r[..|r|] == r;
    }
  }

  // ------------------------------------------------------------ every key once

  /** A walk from `k` to a parent, a parent of that parent and so on, of `n` steps, that never meets an emitted ID. */
  lemma {:induction false} ParentChain(g: Graph, o: seq<int>, k: int, n: nat) returns (p: seq<int>)
    requires FamilyClosed(g) && k in g && k !in o && forall x :: x in o ==> x in g
    requires forall x :: x in g && g[x].parents == [] ==> x in o
    requires forall x, c :: x in o && c in g[x].children ==> c in o
    ensures |p| == n + 1 && p[0] == k
    ensures forall i :: 0 <= i < |p| ==> p[i] in g && p[i] !in o
    ensures forall i :: 0 <= i < n ==> p[i + 1] in g[p[i]].parents
  {
    if n == 0 {
      p := [k];
    } else {
      var q := ParentChain(g, o, k, n - 1);
      var last := q[n - 1];
      assert g[last].parents != [];
      var up := g[last].parents[0];
      assert up in g[last].parents;
      assert last in g[up].children;
      p := q + [up];
      assert forall i :: 0 <= i < n ==> p[i] == q[i];
    }
  }

  /** A duplicate-free sequence of elements of `s` is no longer than `s`. */
  lemma {:induction false} NoDupFits(p: seq<int>, s: set<int>)
    requires NoDup(p) && forall x :: x in p ==> x in s
    ensures |p| <= |s|
    decreases |p|
  {
    if p != [] {
      assert p == [p[0]] + p[1..];
      NoDupCons(p[0], p[1..]);
      NoDupFits(p[1..], s - {p[0]});
    }
  }

  /** The first repetition of a sequence with one. */
  lemma {:induction false} FirstRepeat(p: seq<int>) returns (i: nat, j: nat)
    requires !NoDup(p)
    ensures i < j < |p| && p[i] == p[j] && NoDup(p[..j])
    decreases |p|
  {
    var init := p[..|p| - 1];
    if NoDup(init) {
      j := |p| - 1;
      var a, b :| 0 <= a < b < |p| && p[a] == p[b];
      assert b == j;
      i := a;
    } else {
      i, j := FirstRepeat(init);
      assert init[..j] == p[..j];
    }
  }

  /** Reversing the first loop of a parent chain gives a walk along child edges that closes a loop. */
  lemma ChainLasso(g: Graph, p: seq<int>, i: nat, j: nat) returns (w: seq<int>)
    requires FamilyClosed(g) && i < j < |p| && p[i] == p[j] && NoDup(p[..j])
    requires forall t :: 0 <= t < |p| ==> p[t] in g
    requires forall t :: 0 <= t < j ==> p[t + 1] in g[p[t]].parents
    ensures Lasso(g, w, {}) && w[0] in g
  {
    w := seq(j - i + 1, t requires 0 <= t <= j - i => p[j - t]);
    ReversedEdges(g, p, i, j, w);
    ReversedNoDup(p, i, j, w);
    var h := w[..|w| - 1];
    assert h[0] == w[0] == p[j] == p[i] == w[|w| - 1];
  }

  /** The reversed chain steps along child edges. */
  lemma ReversedEdges(g: Graph, p: seq<int>, i: nat, j: nat, w: seq<int>)
    requires FamilyClosed(g) && i < j < |p|
    requires forall t :: 0 <= t < |p| ==> p[t] in g
    requires forall t :: 0 <= t < j ==> p[t + 1] in g[p[t]].parents
    requires |w| == j - i + 1 && forall t :: 0 <= t < |w| ==> w[t] == p[j - t]
    ensures forall t :: 0 <= t < |w| - 1 ==> w[t] in g && w[t + 1] in g[w[t]].children
  {
    forall t | 0 <= t < |w| - 1
      ensures w[t] in g && w[t + 1] in g[w[t]].children
    {
      var lo, hi := p[j - t - 1], p[j - t];
      assert hi in g[lo].parents;
      assert lo in g[hi].children;
    }
  }

  /** The reversed chain without its last ID repeats nothing: its IDs sit before the first repetition. */
  lemma ReversedNoDup(p: seq<int>, i: nat, j: nat, w: seq<int>)
    requires i < j < |p| && p[i] == p[j] && NoDup(p[..j])
    requires |w| == j - i + 1 && forall t :: 0 <= t < |w| ==> w[t] == p[j - t]
    ensures NoDup(w[..|w| - 1])
  {
    var h := w[..|w| - 1];
    var q := p[..j];
    forall a, b | 0 <= a < b < |h|
      ensures h[a] != h[b]
    {
      var ia := if a == 0 then i else j - a;
      var ib := j - b;
      assert h[a] == q[ia] && h[b] == q[ib];
    }
  }

  /**
   * With no cycle in the group, `createOrder(findRoots())` emits every key:
   * a key left out would have a parent left out, and so on, and a long
   * enough chain of those repeats an ID, which is a cycle.
   */
  lemma AcyclicOrderCovers(g: Graph)
    requires FamilyClosed(g) && forall k :: k in g ==> !Cyclic(g, k, {})
    ensures var o := OrderFrom(g, Roots(g), []);
      NoDup(o) && forall x :: x in o <==> x in g
  {
    var o := OrderFrom(g, Roots(g), []);
    assert Queue(g, Roots(g), []);
    OrderFromMeaning(g, Roots(g), []);
    forall k | k in g
      ensures k in o
    {
      if k !in o {
        var p := ParentChain(g, o, k, |g.Keys|);
        if NoDup(p) {
          NoDupFits(p, g.Keys);
        }
        var i, j := FirstRepeat(p);
        var w := ChainLasso(g, p, i, j);
        LassoCyclic(g, w, {});
      }
    }
  }

  /** The worked example: A with children B and C is emitted as A, B, C. */
  /** The only root of the fan is its parent. */
  lemma FanRoots()
    ensures Roots(Fan()) == [1]
  {
    var g := Fan();
    assert RootSet(g) == {1};
    assert SetMin({1}) == 1;
    assert {1} - {1} == {};
  }

  /** The first pass over the fan emits the root and queues both children. */
  lemma FanFirstPass()
    ensures FamilyClosed(Fan()) && Queue(Fan(), [1], [])
    ensures Step(Fan(), [1], []) == Pass([2, 3], [1])
  {
    var g := Fan();
    FanIsFamilyClosed();
    FanFirstRotation();
    FanRootSiblings();
    StepIs(g, [1], [], [1], [1], [2, 3]);
    assert [1][1..] == [] && FilterOut([], {1}) == [];
    assert AddAll([], [1]) == [1];
    FanFirstPush();
  }

  lemma FanFirstRotation()
    ensures FamilyClosed(Fan()) && Rotated(Fan(), [], [1], 0) == [1]
  {
    var g := Fan();
    FanIsFamilyClosed();
    assert Candidate(g, [], 1);
    assert FirstCandidate(g, [], [1], 1) == 0;
  }

  lemma FanRootSiblings()
    ensures FamilyClosed(Fan()) && Siblings(Fan(), 1) == [1] && ChildrenOf(Fan(), [1]) == [2, 3]
  {
    var g := Fan();
    FanIsFamilyClosed();
    assert [2, 3][1..] == [3] && [3][1..] == [];
  }

  lemma FanFirstPush()
    ensures PushFront([], [1], [2, 3]) == [2, 3]
  {
    assert [2, 3][1..] == [3] && [3][1..] == [];
    assert PushFront([], [1], [2]) == [2];
  }

  /** One pass, computed from its parts. */
  lemma StepIs(g: Graph, d: seq<int>, r: seq<int>, rot: seq<int>, sib: seq<int>, cs: seq<int>)
    requires FamilyClosed(g) && Queue(g, d, r) && d != []
    requires rot == Rotated(g, r, d, 0)
    requires |rot| > 0 && rot[0] in g && sib == Siblings(g, rot[0])
    requires (forall x :: x in sib ==> x in g) && cs == ChildrenOf(g, sib)
    ensures Step(g, d, r) == Pass(PushFront(FilterOut(rot[1..], Elems(sib)), AddAll(r, sib), cs), AddAll(r, sib))
  {
  }

  lemma FanSecondRotation()
    ensures FamilyClosed(Fan()) && Rotated(Fan(), [1], [2, 3], 0) == [2, 3]
  {
    var g := Fan();
    FanIsFamilyClosed();
    assert Cleared(g, [1], 1);
    assert Candidate(g, [1], 2);
    assert FirstCandidate(g, [1], [2, 3], 2) == 0;
  }

  lemma FanSiblings()
    ensures FamilyClosed(Fan()) && Siblings(Fan(), 2) == [2, 3]
  {
    var g := Fan();
    FanIsFamilyClosed();
    assert [1][1..] == [];
    assert ChildrenOf(g, [1]) == [2, 3];
    assert [2, 3][1..] == [3] && [3][1..] == [];
    assert Dedup([2, 3]) == [2, 3];
  }

  lemma FanLeaves()
    ensures ChildrenOf(Fan(), [2, 3]) == []
  {
    assert [2, 3][1..] == [3] && [3][1..] == [];
  }

  /** The second pass emits both children at once, as siblings. */
  lemma FanSecondPass()
    ensures FamilyClosed(Fan()) && Queue(Fan(), [2, 3], [1])
    ensures Step(Fan(), [2, 3], [1]) == Pass([], [1, 2, 3])
  {
    FanIsFamilyClosed();
    FanSecondRotation();
    FanSiblings();
    FanLeaves();
    assert Queue(Fan(), [2, 3], [1]);
    StepIs(Fan(), [2, 3], [1], [2, 3], [2, 3], []);
    assert [2, 3][1..] == [3];
    assert FilterOut([3], {2, 3}) == [];
    FanEmitted();
  }

  lemma FanEmitted()
    ensures AddAll([1], [2, 3]) == [1, 2, 3]
  {
    assert Insert([1], 2) == [1, 2];
    assert [2, 3][1..] == [3];
    assert Insert([1, 2], 3) == [1, 2, 3];
    assert [3][1..] == [];
    assert AddAll([1, 2, 3], []) == [1, 2, 3];
  }

  /** The fan is ordered parent first, then its children in insertion order. */
  lemma FanOrder()
    ensures FamilyClosed(Fan()) && Roots(Fan()) == [1] && OrderFrom(Fan(), [1], []) == [1, 2, 3]
  {
    FanRoots();
    FanFirstPass();
    FanSecondPass();
    assert Queue(Fan(), [], [1, 2, 3]);
  }

  // ------------------------------------------------------------ the lineariser

  /** What `linearize` ends with: the order, or the `IllegalArgumentException` of a cycle. */
  datatype Linearized = Ordered(ids: seq<int>) | HasCycle

  class NonCycleLinearizer {
    /** The group being linearised: a reference to the caller's map, which is only read. */
    var idsToDialogs: Graph

    constructor()
      ensures idsToDialogs == map[]
    {
      idsToDialogs := map[];
    }

    /**
     * `linearize`: a cycle reachable from any key aborts; otherwise the order
     * of `createOrder(findRoots())`, which emits every key exactly once.
     */
    method Linearize(group: Graph) returns (r: Linearized)
      requires FamilyClosed(group)
      modifies this
      ensures idsToDialogs == group
      ensures r.HasCycle? <==> exists k :: k in group && Cyclic(group, k, {})
      ensures r.Ordered? ==> r.ids == OrderFrom(group, Roots(group), [])
      ensures r.Ordered? ==> NoDup(r.ids) && forall x :: x in r.ids <==> x in group
    {
      idsToDialogs := group;
      var keys := idsToDialogs.Keys;
      while keys != {}
        invariant keys <= group.Keys && idsToDialogs == group
        invariant forall k :: k in group && k !in keys ==> !Cyclic(group, k, {})
        decreases |keys|
      {
        NonEmptyHasElement(keys);
        var k :| k in keys;
        var c := CheckForCycles(k, {});
        if c {
          return HasCycle;
        }
        keys := keys - {k};
      }
      var roots := FindRoots();
      var order := CreateOrder(roots);
      AcyclicOrderCovers(group);
      r := Ordered(order);
    }

    /** `checkForCycles(id, predecessors)`. */
    method CheckForCycles(id: int, preds: set<int>) returns (b: bool)
      requires FamilyClosed(idsToDialogs) && id in idsToDialogs
      ensures b == Cyclic(idsToDialogs, id, preds)
      decreases |idsToDialogs.Keys - preds|
    {
      if id in preds {
        return true;
      }
      var cs := idsToDialogs[id].children;
      var childPreds := preds + {id};
      assert (idsToDialogs.Keys - preds) - {id} == idsToDialogs.Keys - childPreds;
      var i := 0;
      while i < |cs|
        invariant 0 <= i <= |cs|
        invariant AnyCyclic(idsToDialogs, cs, childPreds) == AnyCyclic(idsToDialogs, cs[i..], childPreds)
      {
        assert cs[i..][0] == cs[i] && cs[i..][1..] == cs[i + 1..];
        var c := CheckForCycles(cs[i], childPreds);
        if c {
          return true;
        }
        i := i + 1;
      }
      assert cs[i..] == [];
      return false;
    }

    /** `findRoots`. */
    method FindRoots() returns (roots: seq<int>)
      ensures roots == Roots(idsToDialogs)
      ensures Increasing(roots) && forall x :: x in roots <==> x in idsToDialogs && idsToDialogs[x].parents == []
    {
      var found: set<int> := {};
      var keys := idsToDialogs.Keys;
      while keys != {}
        invariant keys <= idsToDialogs.Keys
        invariant forall x :: x in found <==> x in idsToDialogs && x !in keys && idsToDialogs[x].parents == []
        decreases |keys|
      {
        NonEmptyHasElement(keys);
        var k :| k in keys;
        if idsToDialogs[k].parents == [] {
          found := found + {k};
        }
        keys := keys - {k};
      }
      assert keys == {};
      assert forall x :: x in found <==> x in RootSet(idsToDialogs);
      assert found == RootSet(idsToDialogs);
      roots := SortedSeq(found);
      IncreasingNoDup(roots);
    }

    /** `findSiblings(id)`. */
    method FindSiblings(id: int) returns (s: seq<int>)
      requires FamilyClosed(idsToDialogs) && id in idsToDialogs
      ensures s == Siblings(idsToDialogs, id)
    {
      var ps := idsToDialogs[id].parents;
      if ps == [] {
        return [id];
      }
      ParentsAreKeys(idsToDialogs, id);
      s := [];
      var i := 0;
      assert ps[0..] == ps;
      while i < |ps|
        invariant 0 <= i <= |ps|
        invariant AddAll(s, ChildrenOf(idsToDialogs, ps[i..])) == Dedup(ChildrenOf(idsToDialogs, ps))
      {
        ChildrenOfStep(idsToDialogs, ps, i);
        var cs := idsToDialogs[ps[i]].children;
        AddAllConcat(s, cs, ChildrenOf(idsToDialogs, ps[i + 1..]));
        s := AddAll(s, cs);
        i := i + 1;
      }
      assert ps[i..] == [];
    }

    /** The candidate test of `rotateToCandidate`, with its labelled `break` as early returns. */
    method IsCandidate(id: int, visited: seq<int>) returns (b: bool)
      requires FamilyClosed(idsToDialogs) && id in idsToDialogs
      ensures b == Candidate(idsToDialogs, visited, id)
    {
      var ps := idsToDialogs[id].parents;
      ParentsAreKeys(idsToDialogs, id);
      var i := 0;
      while i < |ps|
        invariant 0 <= i <= |ps|
        invariant forall l :: 0 <= l < i ==> Cleared(idsToDialogs, visited, ps[l])
      {
        var p := ps[i];
        assert p in ps;
        ChildrenAreKeys(idsToDialogs, p);
        if p !in visited {
          assert !Cleared(idsToDialogs, visited, p);
          return false;
        }
        assert FamilyClosed(idsToDialogs);
        var cs := idsToDialogs[p].children;
        var j := 0;
        while j < |cs|
          invariant 0 <= j <= |cs|
          invariant forall l :: 0 <= l < j ==> cs[l] in idsToDialogs && ParentsVisited(idsToDialogs, visited, cs[l])
        {
          var c := cs[j];
          assert c in cs;
          var qs := idsToDialogs[c].parents;
          var k := 0;
          while k < |qs|
            invariant 0 <= k <= |qs|
            invariant forall l :: 0 <= l < k ==> qs[l] in visited
          {
            var q := qs[k];
            if q !in visited {
              assert q in qs;
              NotCandidate(idsToDialogs, visited, id, p, c, q);
              return false;
            }
            k := k + 1;
          }
          j := j + 1;
        }
        i := i + 1;
      }
      return true;
    }

    /** `rotateToCandidate(deque, visited, iteration)`, on a deque passed by value and returned. */
    method RotateToCandidate(deque: seq<int>, visited: seq<int>, iteration: nat) returns (d: seq<int>)
      requires FamilyClosed(idsToDialogs) && |deque| > 0 && forall x :: x in deque ==> x in idsToDialogs
      ensures d == Rotated(idsToDialogs, visited, deque, iteration)
      decreases if iteration < |deque| then 1 else 0,
        if iteration < |deque| then |deque| - iteration else IndexOf(deque, SeqMin(deque))
    {
      if iteration >= |deque| {
        if deque[0] != SeqMin(deque) {
          RotatedPastTries(idsToDialogs, visited, deque, iteration);
          d := RotateToCandidate(deque[1..] + [deque[0]], visited, iteration + 1);
          return;
        }
        RotatedDone(idsToDialogs, visited, deque, iteration);
        return deque;
      }
      var isCandidate := IsCandidate(deque[0], visited);
      if isCandidate {
        RotatedDone(idsToDialogs, visited, deque, iteration);
        return deque;
      }
      RotatedStep(idsToDialogs, visited, deque, iteration);
      RotateOne(deque);
      d := RotateToCandidate(deque[1..] + [deque[0]], visited, iteration + 1);
    }

    /** `createOrder(roots)`. */
    method CreateOrder(roots: seq<int>) returns (result: seq<int>)
      requires FamilyClosed(idsToDialogs) && NoDup(roots) && forall x :: x in roots ==> x in idsToDialogs
      ensures result == OrderFrom(idsToDialogs, roots, [])
    {
      var deque := roots;
      result := [];
      while deque != []
        invariant Queue(idsToDialogs, deque, result)
        invariant OrderFrom(idsToDialogs, deque, result) == OrderFrom(idsToDialogs, roots, [])
        decreases |idsToDialogs.Keys - Elems(result)|
      {
        ghost var s := Step(idsToDialogs, deque, result);
        deque, result := OnePass(deque, result);
      }
    }

    /** One pass of the loop of `createOrder`: rotate, emit the siblings, push their children. */
    method OnePass(deque: seq<int>, result: seq<int>) returns (d: seq<int>, r: seq<int>)
      requires FamilyClosed(idsToDialogs) && Queue(idsToDialogs, deque, result) && deque != []
      ensures Pass(d, r) == Step(idsToDialogs, deque, result)
    {
      var rot := RotateToCandidate(deque, result, 0);
      RotatedMeaning(idsToDialogs, result, deque);
      var siblings := FindSiblings(rot[0]);
      SiblingsMeaning(idsToDialogs, rot[0]);
      d := FilterOut(rot[1..], Elems(siblings));
      r := AddAll(result, siblings);
      var children := CollectChildren(siblings);
      d := PushChildren(d, r, children);
    }

    /** The loop that collects the children of the siblings. */
    method CollectChildren(siblings: seq<int>) returns (children: seq<int>)
      requires forall x :: x in siblings ==> x in idsToDialogs
      ensures children == ChildrenOf(idsToDialogs, siblings)
    {
      children := [];
      var i := 0;
      assert siblings[0..] == siblings;
      while i < |siblings|
        invariant 0 <= i <= |siblings|
        invariant children + ChildrenOf(idsToDialogs, siblings[i..]) == ChildrenOf(idsToDialogs, siblings)
      {
        ChildrenOfStep(idsToDialogs, siblings, i);
        AppendAssoc(children, idsToDialogs[siblings[i]].children, ChildrenOf(idsToDialogs, siblings[i + 1..]));
        children := children + idsToDialogs[siblings[i]].children;
        i := i + 1;
      }
      assert siblings[i..] == [];
      assert children + [] == children;
    }

    /** The reverse loop over the children that puts each new one at the front of the deque. */
    method PushChildren(deque: seq<int>, result: seq<int>, children: seq<int>) returns (d: seq<int>)
      ensures d == PushFront(deque, result, children)
    {
      d := deque;
      var k := |children|;
      assert children[..k] == children;
      while k > 0
        invariant 0 <= k <= |children|
        invariant PushFront(d, result, children[..k]) == PushFront(deque, result, children)
      {
        var child := children[k - 1];
        assert children[..k][..k - 1] == children[..k - 1];
        if child !in d && child !in result {
          d := [child] + d;
        }
        k := k - 1;
      }
    }
  }
}
