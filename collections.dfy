/**
 * Java collection semantics the project relies on, written over sequences of
 * string IDs.  A `LinkedHashSet<Integer>` is a duplicate-free sequence in
 * insertion order, a `TreeSet<Integer>` a strictly increasing sequence, and a
 * `LinkedList<Integer>` a plain sequence.
 */
module Collections {

  /** The elements of a sequence, as a set. */
  function Elems(s: seq<int>): (r: set<int>)
    ensures forall x :: x in r <==> x in s
  {
    set x | x in s
  }

  /** No ID occurs twice: the shape of every `Set` the program builds. */
  predicate NoDup(s: seq<int>)
  {
    forall i, j :: 0 <= i < j < |s| ==> s[i] != s[j]
  }

  /** Strictly increasing: the iteration order of a `TreeSet<Integer>`. */
  predicate Increasing(s: seq<int>)
  {
    forall i, j :: 0 <= i < j < |s| ==> s[i] < s[j]
  }

  lemma NoDupCons(x: int, t: seq<int>)
    ensures NoDup([x] + t) <==> x !in t && NoDup(t)
  {
    var s := [x] + t;
    assert forall k :: 0 <= k < |t| ==> s[k + 1] == t[k];
    if NoDup(s) {
      forall k | 0 <= k < |t| ensures t[k] != x {
        assert s[0] != s[k + 1];
      }
    }
  }

  lemma NoDupSnoc(t: seq<int>, x: int)
    ensures NoDup(t + [x]) <==> x !in t && NoDup(t)
  {
    var s := t + [x];
    assert forall k :: 0 <= k < |t| ==> s[k] == t[k];
    if NoDup(s) {
      forall k | 0 <= k < |t| ensures t[k] != x {
        assert s[k] != s[|t|];
      }
    }
  }

  /** `LinkedHashSet.add`: a new element goes to the end, a present one changes nothing. */
  function Insert(s: seq<int>, x: int): (r: seq<int>)
    ensures forall y :: y in r <==> y in s || y == x
    ensures |s| <= |r| <= |s| + 1
    ensures NoDup(s) ==> NoDup(r)
  {
    NoDupSnoc(s, x);
    if x in s then s else s + [x]
  }

  /** `Set.remove` and `LinkedList.removeAll` of one value: every occurrence of `x` goes, the rest keeps its order. */
  function Remove(s: seq<int>, x: int): (r: seq<int>)
    ensures forall y :: y in r <==> y in s && y != x
    ensures |r| <= |s|
    ensures x in s ==> |r| < |s|
    ensures NoDup(s) ==> NoDup(r)
    ensures Subsequence(r, s)
  {
    if s == [] then []
    else
      var t := Remove(s[1..], x);
      assert s == [s[0]] + s[1..];
      NoDupCons(s[0], s[1..]);
      NoDupCons(s[0], t);
      assert ([s[0]] + t)[1..] == t;
      if s[0] == x then t else [s[0]] + t
  }

  /** The position of the last occurrence of `x` in `s`. */
  function LastIndex(s: seq<int>, x: int): (i: int)
    requires x in s
    ensures 0 <= i < |s| && s[i] == x
    ensures forall j :: i < j < |s| ==> s[j] != x
    decreases |s|
  {
    if s[|s| - 1] == x then |s| - 1
    else
      assert s == s[..|s| - 1] + [s[|s| - 1]];
      LastIndex(s[..|s| - 1], x)
  }

  /** Removing one value is filtering out the set of that value. */
  lemma {:induction false} RemoveIsFilterOut(s: seq<int>, x: int)
    ensures Remove(s, x) == FilterOut(s, {x})
  {
    if s != [] {
      RemoveIsFilterOut(s[1..], x);
    }
  }

  /** Removing an absent value changes nothing. */
  lemma {:induction false} RemoveAbsent(s: seq<int>, x: int)
    requires x !in s
    ensures Remove(s, x) == s
  {
    if s != [] {
      RemoveAbsent(s[1..], x);
      assert s == [s[0]] + s[1..];
    }
  }

  /** Removing `x` from a sequence that ends with `x` drops that last element too. */
  lemma {:induction false} RemoveAppended(s: seq<int>, x: int)
    ensures Remove(s + [x], x) == Remove(s, x)
  {
    if s == [] {
      assert [x][1..] == [];
    } else {
      assert (s + [x])[0] == s[0] && (s + [x])[1..] == s[1..] + [x];
      RemoveAppended(s[1..], x);
    }
  }

  /** `LinkedHashSet.addAll`: the new elements of `t`, in the order of `t`, go to the end. */
  function AddAll(s: seq<int>, t: seq<int>): (r: seq<int>)
    ensures forall y :: y in r <==> y in s || y in t
    ensures |s| <= |r| <= |s| + |t|
    ensures NoDup(s) ==> NoDup(r)
    decreases |t|
  {
    if t == [] then s
    else
      var r := AddAll(Insert(s, t[0]), t[1..]);
      assert forall y :: y in t ==> y == t[0] || y in t[1..];
      r
  }

  /** What `AddAll` builds starts with what it was given. */
  lemma {:induction false} AddAllPrefix(s: seq<int>, t: seq<int>)
    ensures AddAll(s, t)[..|s|] == s
    decreases |t|
  {
    if t != [] {
      var s1 := Insert(s, t[0]);
      AddAllPrefix(s1, t[1..]);
      assert s1[..|s|] == s;
      assert AddAll(s, t)[..|s|] == AddAll(s1, t[1..])[..|s1|][..|s|];
    }
  }

  /** `new LinkedHashSet<>(t)`: the first occurrence of every element, in order. */
  function Dedup(t: seq<int>): (r: seq<int>)
    ensures forall y :: y in r <==> y in t
    ensures NoDup(r) && |r| <= |t|
  {
    AddAll([], t)
  }

  lemma {:induction false} AddAllInsertFront(s: seq<int>, u: seq<int>, x: int)
    ensures AddAll(s, Insert(u, x)) == Insert(AddAll(s, u), x)
  {
    if x in u {
    } else {
      AddAllSnoc(s, u, x);
    }
  }

  lemma {:induction false} AddAllSnoc(s: seq<int>, u: seq<int>, x: int)
    ensures AddAll(s, u + [x]) == Insert(AddAll(s, u), x)
    decreases |u|
  {
    if u == [] {
      assert u + [x] == [x];
      assert [x][1..] == [];
    } else {
      assert (u + [x])[0] == u[0] && (u + [x])[1..] == u[1..] + [x];
      AddAllSnoc(Insert(s, u[0]), u[1..], x);
    }
  }

  /** Adding what `AddAll(u, t)` would build on top of `s`: the same as adding `u` and then `t`. */
  lemma {:induction false} AddAllAssoc(s: seq<int>, u: seq<int>, t: seq<int>)
    ensures AddAll(s, AddAll(u, t)) == AddAll(AddAll(s, u), t)
    decreases |t|
  {
    if t != [] {
      AddAllAssoc(s, Insert(u, t[0]), t[1..]);
      AddAllInsertFront(s, u, t[0]);
    }
  }

  /** Adding a de-duplicated sequence is the same as adding the raw sequence. */
  lemma AddAllOfDedup(s: seq<int>, t: seq<int>)
    ensures AddAll(s, Dedup(t)) == AddAll(s, t)
  {
    AddAllAssoc(s, [], t);
  }

  /** `AddAll` distributes over concatenation of the added sequence. */
  lemma {:induction false} AddAllConcat(s: seq<int>, t: seq<int>, u: seq<int>)
    ensures AddAll(s, t + u) == AddAll(AddAll(s, t), u)
    decreases |t|
  {
    if t == [] {
      assert t + u == u;
    } else {
      assert (t + u)[0] == t[0] && (t + u)[1..] == t[1..] + u;
      AddAllConcat(Insert(s, t[0]), t[1..], u);
    }
  }

  /** `Dedup` of a concatenation adds the second part's new elements after the first part's. */
  lemma DedupConcat(t: seq<int>, u: seq<int>)
    ensures Dedup(t + u) == AddAll(Dedup(t), Dedup(u))
  {
    AddAllConcat([], t, u);
    AddAllOfDedup(Dedup(t), u);
  }

  lemma AddAllUnfold(s: seq<int>, t: seq<int>)
    requires t != []
    ensures AddAll(s, t) == AddAll(Insert(s, t[0]), t[1..])
  {
  }

  lemma InsertFresh(s: seq<int>, x: int)
    requires x !in s
    ensures Insert(s, x) == s + [x]
  {
  }

  lemma NoDupTail(t: seq<int>)
    requires NoDup(t) && t != []
    ensures NoDup(t[1..]) && t[0] !in t[1..]
  {
    assert t == [t[0]] + t[1..];
    NoDupCons(t[0], t[1..]);
  }

  /** `t` adds only new, distinct elements to `s`; stated from the back, the way `AddAllSnoc` peels it. */
  predicate FreshTail(s: seq<int>, t: seq<int>)
  {
    t == [] || (t[|t| - 1] !in s && t[|t| - 1] !in t[..|t| - 1] && FreshTail(s, t[..|t| - 1]))
  }

  lemma {:induction false} FreshTailOf(s: seq<int>, t: seq<int>)
    requires NoDup(t) && forall y :: y in t ==> y !in s
    ensures FreshTail(s, t)
    decreases |t|
  {
    if t != [] {
      var u, x := t[..|t| - 1], t[|t| - 1];
      assert t == u + [x];
      NoDupSnoc(u, x);
      assert forall y :: y in u ==> y in t;
      FreshTailOf(s, u);
    }
  }

  lemma {:induction false} AddAllOfFreshTail(s: seq<int>, t: seq<int>)
    requires FreshTail(s, t)
    ensures AddAll(s, t) == s + t
    decreases |t|
  {
    if t != [] {
      var u, x := t[..|t| - 1], t[|t| - 1];
      assert t == u + [x];
      AddAllOfFreshTail(s, u);
      AddAllSnoc(s, u, x);
      InsertFresh(s + u, x);
    }
  }

  /** Adding a duplicate-free sequence of new elements appends it unchanged. */
  lemma AddAllOfFresh(s: seq<int>, t: seq<int>)
    requires NoDup(t) && forall y :: y in t ==> y !in s
    ensures AddAll(s, t) == s + t
  {
    FreshTailOf(s, t);
    AddAllOfFreshTail(s, t);
  }

  /** A duplicate-free sequence is its own `Dedup`. */
  lemma DedupOfNoDup(s: seq<int>)
    requires NoDup(s)
    ensures Dedup(s) == s
  {
    AddAllOfFresh([], s);
  }

  /** The smallest element of a non-empty sequence (`Collections.min`). */
  function SeqMin(s: seq<int>): (m: int)
    requires |s| > 0
    ensures m in s && forall y :: y in s ==> m <= y
  {
    if |s| == 1 then s[0]
    else
      var t := SeqMin(s[1..]);
      assert forall y :: y in s ==> y == s[0] || y in s[1..];
      if s[0] <= t then s[0] else t
  }

  /** The position of the first occurrence of `x`. */
  function IndexOf(s: seq<int>, x: int): (k: nat)
    requires x in s
    ensures k < |s| && s[k] == x && x !in s[..k]
  {
    if s[0] == x then 0
    else
      var k := IndexOf(s[1..], x);
      assert s[..k + 1] == [s[0]] + s[1..][..k];
      k + 1
  }

  lemma NonEmptyHasElement(s: set<int>)
    requires s != {}
    ensures exists x :: x in s
  {
    if forall y :: y !in s {
      assert false;
    }
  }

  /** A subset is no larger than its superset. */
  lemma {:induction false} SubsetCard<T>(a: set<T>, b: set<T>)
    requires a <= b
    ensures |a| <= |b|
    decreases |a|
  {
    if a != {} {
      var x :| x in a;
      SubsetCard(a - {x}, b - {x});
    }
  }

  /** A non-empty set of integers has a least element. */
  lemma {:induction false} MinExists(s: set<int>)
    requires s != {}
    ensures exists m :: m in s && forall y :: y in s ==> m <= y
    decreases |s|
  {
    NonEmptyHasElement(s);
    var x :| x in s;
    if s - {x} == {} {
      assert forall y :: y in s ==> y == x by {
        forall y | y in s ensures y == x {
          assert y !in s - {x};
        }
      }
    } else {
      MinExists(s - {x});
      var m :| m in s - {x} && forall y :: y in s - {x} ==> m <= y;
      assert forall y :: y in s ==> y == x || y in s - {x};
      if x <= m {
        assert forall y :: y in s ==> x <= y;
      } else {
        assert forall y :: y in s ==> m <= y;
      }
    }
  }

  /** The smallest element of a non-empty set (`firstKey`, `first`, `Collections.min`). */
  function SetMin(s: set<int>): (m: int)
    requires s != {}
    ensures m in s && forall y :: y in s ==> m <= y
  {
    MinExists(s);
    var m :| m in s && forall y :: y in s ==> m <= y; m
  }

  /** A part of a set that holds the set's least element has the same least element. */
  lemma SetMinSub(a: set<int>, b: set<int>)
    requires a <= b && b != {} && SetMin(b) in a
    ensures SetMin(a) == SetMin(b)
  {
  }

  /** `firstKey()` of a `TreeMap` or `first()` of a `TreeSet`, with the key set `s`. */
  method First(s: set<int>) returns (x: int)
    requires s != {}
    ensures x == SetMin(s)
  {
    MinExists(s);
    x :| x in s && forall y :: y in s ==> x <= y;
  }

  /** The iteration order of a `TreeSet<Integer>` or of a `TreeMap`'s key set: every element once, ascending. */
  function SortedSeq(s: set<int>): (r: seq<int>)
    ensures forall y :: y in r <==> y in s
    ensures Increasing(r) && |r| == |s|
    decreases |s|
  {
    if s == {} then []
    else
      var m := SetMin(s);
      var rest := SortedSeq(s - {m});
      PrependMin(m, rest);
      [m] + rest
  }

  lemma PrependMin(m: int, rest: seq<int>)
    requires Increasing(rest) && forall y :: y in rest ==> m < y
    ensures Increasing([m] + rest)
  {
    var r := [m] + rest;
    forall i, j | 0 <= i < j < |r| ensures r[i] < r[j] {
      assert r[j] == rest[j - 1] && rest[j - 1] in rest;
      if i > 0 {
        assert r[i] == rest[i - 1];
      }
    }
  }

  lemma IncreasingNoDup(s: seq<int>)
    requires Increasing(s)
    ensures NoDup(s)
  {
  }

  /** Keeps the elements of `s` that do not lie in `drop`, in order. */
  function FilterOut(s: seq<int>, drop: set<int>): (r: seq<int>)
    ensures forall y :: y in r <==> y in s && y !in drop
    ensures |r| <= |s|
    ensures NoDup(s) ==> NoDup(r)
    ensures Subsequence(r, s)
  {
    if s == [] then []
    else
      var t := FilterOut(s[1..], drop);
      assert s == [s[0]] + s[1..];
      NoDupCons(s[0], s[1..]);
      NoDupCons(s[0], t);
      assert ([s[0]] + t)[1..] == t;
      if s[0] in drop then t else [s[0]] + t
  }

  /** Filtering a sequence that grew by one element at its end. */
  lemma {:induction false} FilterOutSnoc(s: seq<int>, x: int, drop: set<int>)
    ensures FilterOut(s + [x], drop) == FilterOut(s, drop) + (if x in drop then [] else [x])
  {
    if s == [] {
      assert [x][1..] == [];
    } else {
      assert (s + [x])[0] == s[0] && (s + [x])[1..] == s[1..] + [x];
      FilterOutSnoc(s[1..], x, drop);
      if s[0] !in drop {
        ConsAppend(s[0], FilterOut(s[1..], drop), if x in drop then [] else [x]);
      }
    }
  }

  lemma ConsAppend(a: int, f: seq<int>, t: seq<int>)
    ensures [a] + (f + t) == ([a] + f) + t
  {
  }

  /** Filtering out one more value is removing it from the filtered sequence. */
  lemma {:induction false} FilterOutMore(s: seq<int>, drop: set<int>, x: int)
    ensures FilterOut(s, drop + {x}) == Remove(FilterOut(s, drop), x)
  {
    if s != [] {
      FilterOutMore(s[1..], drop, x);
    }
  }

  /** Filtering out nothing keeps everything. */
  lemma {:induction false} FilterOutNothing(s: seq<int>)
    ensures FilterOut(s, {}) == s
  {
    if s != [] {
      FilterOutNothing(s[1..]);
      assert s == [s[0]] + s[1..];
    }
  }

  /** On a sequence of allowed values, filtering out the complement of `keep` is keeping `keep`. */
  lemma {:induction false} FilterOutIn(s: seq<int>, drop: set<int>, keep: set<int>)
    requires forall y :: y in s ==> (y in keep <==> y !in drop)
    ensures FilterOut(s, drop) == FilterIn(s, keep)
  {
    if s != [] {
      var x := s[0];
      assert x in s;
      assert x in keep <==> x !in drop;
      assert forall y :: y in s[1..] ==> y in s;
      FilterOutIn(s[1..], drop, keep);
    }
  }

  lemma TwiceInMultiset(r: seq<int>, i: int, j: int)
    requires 0 <= i < j < |r| && r[i] == r[j]
    ensures multiset(r)[r[i]] >= 2
  {
    var x := r[i];
    assert r == r[..i] + [x] + r[i + 1..j] + [x] + r[j + 1..];
    assert multiset(r) == multiset(r[..i]) + multiset{x} + multiset(r[i + 1..j]) + multiset{x} + multiset(r[j + 1..]);
  }

  lemma {:induction false} MultisetNoDup(s: seq<int>, x: int)
    requires NoDup(s)
    ensures multiset(s)[x] <= 1
  {
    if s != [] {
      assert s == [s[0]] + s[1..];
      NoDupCons(s[0], s[1..]);
      MultisetNoDup(s[1..], x);
    }
  }

  /** A permutation of a duplicate-free sequence is duplicate-free. */
  lemma PermutationNoDup(a: seq<int>, b: seq<int>)
    requires multiset(a) == multiset(b) && NoDup(a)
    ensures NoDup(b)
  {
    forall i, j | 0 <= i < j < |b| ensures b[i] != b[j] {
      if b[i] == b[j] {
        TwiceInMultiset(b, i, j);
        MultisetNoDup(a, b[i]);
      }
    }
  }

  /** Putting a key twice keeps the second value. */
  lemma PutTwice<K, V>(m: map<K, V>, k: K, a: V, b: V)
    ensures m[k := a][k := b] == m[k := b]
  {
  }

  /** Keeps the elements of `s` that lie in `keep`, in order. */
  function FilterIn(s: seq<int>, keep: set<int>): (r: seq<int>)
    ensures forall y :: y in r <==> y in s && y in keep
    ensures |r| <= |s|
    ensures NoDup(s) ==> NoDup(r)
    ensures Subsequence(r, s)
  {
    if s == [] then []
    else
      var t := FilterIn(s[1..], keep);
      assert s == [s[0]] + s[1..];
      NoDupCons(s[0], s[1..]);
      NoDupCons(s[0], t);
      assert ([s[0]] + t)[1..] == t;
      if s[0] in keep then [s[0]] + t else t
  }

  /** Filtering keeps an ascending sequence ascending. */
  lemma {:induction false} FilterOutIncreasing(s: seq<int>, drop: set<int>)
    requires Increasing(s)
    ensures Increasing(FilterOut(s, drop))
  {
    if s != [] {
      var t := FilterOut(s[1..], drop);
      assert Increasing(s[1..]) by {
        forall i, j | 0 <= i < j < |s[1..]|
          ensures s[1..][i] < s[1..][j]
        {
          assert s[1..][i] == s[i + 1] && s[1..][j] == s[j + 1];
        }
      }
      FilterOutIncreasing(s[1..], drop);
      forall y | y in t
        ensures s[0] < y
      {
        var k :| 0 <= k < |s[1..]| && s[1..][k] == y;
        assert s[k + 1] == y;
      }
      if s[0] !in drop {
        PrependMin(s[0], t);
      }
    }
  }

  /** `r` is `s` with some of its elements deleted: what `removeIf` leaves, in the order of `s`. */
  ghost predicate Subsequence<T>(r: seq<T>, s: seq<T>)
    decreases |s|
  {
    r == [] || (s != [] && ((r[0] == s[0] && Subsequence(r[1..], s[1..])) || Subsequence(r, s[1..])))
  }

  /** Appending one element to `s` keeps a subsequence, with or without that element at its end. */
  lemma {:induction false} SubsequenceSnoc<T>(r: seq<T>, s: seq<T>, x: T)
    requires Subsequence(r, s)
    ensures Subsequence(r, s + [x]) && Subsequence(r + [x], s + [x])
    decreases |s|
  {
    if s == [] {
      assert r == [];
      assert ([x])[1..] == [];
    } else {
      assert (s + [x])[1..] == s[1..] + [x];
      if r == [] {
        SubsequenceSnoc(r, s[1..], x);
        assert r + [x] == [x];
      } else if r[0] == s[0] && Subsequence(r[1..], s[1..]) {
        SubsequenceSnoc(r[1..], s[1..], x);
        assert (r + [x])[1..] == r[1..] + [x];
      } else {
        SubsequenceSnoc(r, s[1..], x);
      }
    }
  }
}
