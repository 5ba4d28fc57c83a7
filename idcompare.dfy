/**
 * The `compareTo` of `item.Item` and of `creature.Creature`: both put the
 * string IDs of the two records into `TreeSet`s, take the smallest of each
 * in step, return `min - minO` as a Java `int` at the first difference, and
 * otherwise order a strict prefix first and equal sets by file name.
 * Then the `TreeSet` of items or creatures that `parseItems` and
 * `parseCreatures` fill under that `compareTo`: where no subtraction
 * overflows it is a total order, and the set is the records in that order,
 * one per ID set and file name.
 */
module IdCompare {
  import opened JavaLang
  import opened Collections

  /** `a - b` on Java `int`s: the mathematical difference wrapped into 32 bits. */
  function Sub32(a: int, b: int): (d: int)
    ensures IsInt32(d)
    ensures IsInt32(a - b) ==> d == a - b
    ensures IsInt32(a) && IsInt32(b) ==> (d == 0 <==> a == b)
  {
    Wrap32(a - b)
  }

  predicate AllInt32(s: seq<int>)
  {
    forall i :: 0 <= i < |s| ==> IsInt32(s[i])
  }

  /** `compareTo` on the ascending ID sequences `s` and `t` of two records named `n` and `m`, as written. */
  function CompareSorted(s: seq<int>, t: seq<int>, n: string, m: string): int
  {
    if s == [] && t == [] then CompareStrings(n, m)
    else if s == [] then -1
    else if t == [] then 1
    else if s[0] != t[0] then Sub32(s[0], t[0])
    else CompareSorted(s[1..], t[1..], n, m)
  }

  function Sign(x: int): int
  {
    if x < 0 then -1 else if x > 0 then 1 else 0
  }

  /** No difference of two values at the same position overflows an `int`, in either order. */
  predicate NoOverflow(s: seq<int>, t: seq<int>)
  {
    forall i :: 0 <= i < |s| && i < |t| ==> IsInt32(s[i] - t[i]) && IsInt32(t[i] - s[i])
  }

  /** `compareTo` is zero exactly on equal ID sequences with equal file names. */
  lemma {:induction false} CompareSortedZero(s: seq<int>, t: seq<int>, n: string, m: string)
    requires AllInt32(s) && AllInt32(t)
    ensures CompareSorted(s, t, n, m) == 0 <==> s == t && n == m
    decreases |s|
  {
    if s == [] && t == [] {
      CompareStringsZero(n, m);
    } else if s != [] && t != [] && s[0] == t[0] {
      CompareSortedZero(s[1..], t[1..], n, m);
      assert s == [s[0]] + s[1..] && t == [t[0]] + t[1..];
    }
  }

  /** As long as no difference overflows, swapping the records flips the sign. */
  lemma {:induction false} CompareSortedAntisymmetric(s: seq<int>, t: seq<int>, n: string, m: string)
    requires NoOverflow(s, t)
    ensures Sign(CompareSorted(s, t, n, m)) == -Sign(CompareSorted(t, s, m, n))
    decreases |s|
  {
    if s == [] && t == [] {
      CompareStringsAntisymmetric(n, m);
    } else if s != [] && t != [] && s[0] == t[0] {
      assert NoOverflow(s[1..], t[1..]) by {
        forall i | 0 <= i < |s[1..]| && i < |t[1..]|
          ensures IsInt32(s[1..][i] - t[1..][i]) && IsInt32(t[1..][i] - s[1..][i])
        {
          assert s[1..][i] == s[i + 1] && t[1..][i] == t[i + 1];
        }
      }
      CompareSortedAntisymmetric(s[1..], t[1..], n, m);
    } else if s != [] && t != [] {
      assert IsInt32(s[0] - t[0]) && IsInt32(t[0] - s[0]);
    }
  }

  /**
   * The wrap-around breaks antisymmetry: records with the IDs {-2147483648}
   * and {0} each sort before the other.
   */
  lemma WrapBreaksAntisymmetry()
    ensures CompareSorted([INT_MIN], [0], "", "") < 0 && CompareSorted([0], [INT_MIN], "", "") < 0
  {
  }

  /** It also orders against the IDs: {-2} sorts after {2147483647}. */
  lemma WrapInvertsOrder()
    ensures CompareSorted([-2], [INT_MAX], "", "") > 0
  {
  }

  /** The evidently intended comparison: `Integer.compare(min, minO)` at the first difference. */
  function CompareSortedIntended(s: seq<int>, t: seq<int>, n: string, m: string): int
  {
    if s == [] && t == [] then CompareStrings(n, m)
    else if s == [] then -1
    else if t == [] then 1
    else if s[0] != t[0] then Sign(s[0] - t[0])
    else CompareSortedIntended(s[1..], t[1..], n, m)
  }

  /** The intended comparison is antisymmetric on all inputs. */
  lemma {:induction false} IntendedAntisymmetric(s: seq<int>, t: seq<int>, n: string, m: string)
    ensures Sign(CompareSortedIntended(s, t, n, m)) == -Sign(CompareSortedIntended(t, s, m, n))
    decreases |s|
  {
    if s == [] && t == [] {
      CompareStringsAntisymmetric(n, m);
    } else if s != [] && t != [] && s[0] == t[0] {
      IntendedAntisymmetric(s[1..], t[1..], n, m);
    }
  }

  /** Without overflow the code as written has the sign of the intended comparison. */
  lemma {:induction false} IntendedAgrees(s: seq<int>, t: seq<int>, n: string, m: string)
    requires NoOverflow(s, t)
    ensures Sign(CompareSorted(s, t, n, m)) == Sign(CompareSortedIntended(s, t, n, m))
    decreases |s|
  {
    if s != [] && t != [] && s[0] == t[0] {
      assert NoOverflow(s[1..], t[1..]) by {
        forall i | 0 <= i < |s[1..]| && i < |t[1..]|
          ensures IsInt32(s[1..][i] - t[1..][i]) && IsInt32(t[1..][i] - s[1..][i])
        {
          assert s[1..][i] == s[i + 1] && t[1..][i] == t[i + 1];
        }
      }
      IntendedAgrees(s[1..], t[1..], n, m);
    } else if s != [] && t != [] {
      assert IsInt32(s[0] - t[0]) && IsInt32(t[0] - s[0]);
    }
  }

  /** A strict prefix of the other's IDs sorts first. */
  lemma {:induction false} PrefixFirst(s: seq<int>, t: seq<int>, n: string, m: string)
    requires |s| < |t| && s == t[..|s|]
    ensures CompareSorted(s, t, n, m) == -1
    decreases |s|
  {
    if s != [] {
      assert s[0] == t[0];
      assert s[1..] == t[1..][..|s[1..]|];
      PrefixFirst(s[1..], t[1..], n, m);
    }
  }

  /**
   * The loop of `compareTo` on the two `TreeSet`s: remove the first of each
   * until one is empty or the two differ.
   */
  method CompareIdSets(ids0: set<int>, idsO0: set<int>, n: string, m: string) returns (c: int)
    ensures c == CompareSorted(SortedSeq(ids0), SortedSeq(idsO0), n, m)
  {
    var ids := ids0;
    var idsO := idsO0;
    while ids != {} && idsO != {}
      invariant ids <= ids0 && idsO <= idsO0
      invariant CompareSorted(SortedSeq(ids), SortedSeq(idsO), n, m) == CompareSorted(SortedSeq(ids0), SortedSeq(idsO0), n, m)
      decreases |ids|
    {
      MinExists(ids);
      var min :| min in ids && forall y :: y in ids ==> min <= y;
      assert min == SetMin(ids);
      ids := ids - {min};
      MinExists(idsO);
      var minO :| minO in idsO && forall y :: y in idsO ==> minO <= y;
      assert minO == SetMin(idsO);
      idsO := idsO - {minO};
      if min != minO {
        return Sub32(min, minO);
      }
    }
    if ids == {} && idsO == {} {
      c := CompareStrings(n, m);
    } else if ids == {} {
      c := -1;
    } else {
      c := 1;
    }
  }

  /** The ascending sequence of a set determines the set. */
  lemma SortedSeqInjective(x: set<int>, y: set<int>)
    requires SortedSeq(x) == SortedSeq(y)
    ensures x == y
  {
    assert forall v :: v in x <==> v in SortedSeq(x);
  }

  /** The intended comparison is zero exactly on equal ID sequences and equal file names. */
  lemma {:induction false} IntendedZero(s: seq<int>, t: seq<int>, n: string, m: string)
    ensures CompareSortedIntended(s, t, n, m) == 0 <==> s == t && n == m
    decreases |s|
  {
    if s == [] && t == [] {
      CompareStringsZero(n, m);
    } else if s != [] && t != [] && s[0] == t[0] {
      IntendedZero(s[1..], t[1..], n, m);
      assert s == [s[0]] + s[1..] && t == [t[0]] + t[1..];
    }
  }

  /** The intended comparison is transitive on all inputs. */
  lemma {:induction false} IntendedTransitive(s: seq<int>, t: seq<int>, u: seq<int>, n: string, m: string, o: string)
    requires CompareSortedIntended(s, t, n, m) < 0 && CompareSortedIntended(t, u, m, o) < 0
    ensures CompareSortedIntended(s, u, n, o) < 0
    decreases |s|
  {
    if s == [] && t == [] && u == [] {
      CompareStringsTransitive(n, m, o);
    } else if s != [] && t != [] && u != [] && s[0] == t[0] && t[0] == u[0] {
      IntendedTransitive(s[1..], t[1..], u[1..], n, m, o);
    }
  }

  /** What `compareTo` looks at in an item or a creature: its set of string IDs and its file name. */
  datatype Key = Key(ids: set<int>, name: string)

  /** `compareTo` of two records with these keys. */
  function Compare(a: Key, b: Key): int
  {
    CompareSorted(SortedSeq(a.ids), SortedSeq(b.ids), a.name, b.name)
  }

  /** No subtraction `compareTo` makes between the two records overflows. */
  predicate Fits(a: Key, b: Key)
  {
    NoOverflow(SortedSeq(a.ids), SortedSeq(b.ids))
  }

  /** Between records that fit, `compareTo` is zero exactly on equal keys, and swapping them flips its sign. */
  lemma CompareOrder(a: Key, b: Key)
    requires Fits(a, b)
    ensures Compare(a, b) == 0 <==> a == b
    ensures Sign(Compare(a, b)) == -Sign(Compare(b, a))
    ensures Fits(b, a)
  {
    var s, t := SortedSeq(a.ids), SortedSeq(b.ids);
    IntendedAgrees(s, t, a.name, b.name);
    IntendedZero(s, t, a.name, b.name);
    CompareSortedAntisymmetric(s, t, a.name, b.name);
    if s == t {
      SortedSeqInjective(a.ids, b.ids);
    }
  }

  /** Between records that fit pairwise, "compares below" is transitive. */
  lemma CompareTransitive(a: Key, b: Key, c: Key)
    requires Fits(a, b) && Fits(b, c) && Fits(a, c)
    requires Compare(a, b) < 0 && Compare(b, c) < 0
    ensures Compare(a, c) < 0
  {
    var s, t, u := SortedSeq(a.ids), SortedSeq(b.ids), SortedSeq(c.ids);
    IntendedAgrees(s, t, a.name, b.name);
    IntendedAgrees(t, u, b.name, c.name);
    IntendedAgrees(s, u, a.name, c.name);
    IntendedTransitive(s, t, u, a.name, b.name, c.name);
  }

  /**
   * IDs from -1, the "no string" value, up to `Integer.MAX_VALUE - 1` never
   * make a subtraction overflow.
   */
  lemma OrdinaryFits(a: Key, b: Key)
    requires forall x :: x in a.ids ==> -1 <= x < INT_MAX
    requires forall x :: x in b.ids ==> -1 <= x < INT_MAX
    ensures Fits(a, b)
  {
    var s, t := SortedSeq(a.ids), SortedSeq(b.ids);
    forall i | 0 <= i < |s| && i < |t|
      ensures IsInt32(s[i] - t[i]) && IsInt32(t[i] - s[i])
    {
      assert s[i] in a.ids && t[i] in b.ids;
    }
  }

  /** Every two records of `ts` fit. */
  ghost predicate Comparable<T>(ts: seq<T>, key: T -> Key)
  {
    forall a, b :: a in ts && b in ts ==> Fits(key(a), key(b))
  }

  /** Records whose IDs all lie between -1 and `Integer.MAX_VALUE - 1` are comparable. */
  lemma OrdinaryComparable<T>(ts: seq<T>, key: T -> Key)
    requires forall a, x :: a in ts && x in key(a).ids ==> -1 <= x < INT_MAX
    ensures Comparable(ts, key)
  {
    forall a, b | a in ts && b in ts
      ensures Fits(key(a), key(b))
    {
      OrdinaryFits(key(a), key(b));
    }
  }

  /**
   * On the records of `xs`, `cmp` keeps the contract of `compareTo`: swapping
   * flips the sign, "below" is transitive, and two records that compare
   * equal compare alike with every other.
   */
  ghost predicate TotalOn<T>(xs: seq<T>, cmp: (T, T) -> int)
  {
    (forall a, b {:trigger a in xs, b in xs} :: a in xs && b in xs ==> Sign(cmp(a, b)) == -Sign(cmp(b, a))) &&
    (forall a, b, c {:trigger a in xs, b in xs, c in xs} ::
      a in xs && b in xs && c in xs && cmp(a, b) < 0 && cmp(b, c) < 0 ==> cmp(a, c) < 0) &&
    (forall a, b, c {:trigger a in xs, b in xs, c in xs} ::
      a in xs && b in xs && c in xs && cmp(a, b) == 0 ==> Sign(cmp(a, c)) == Sign(cmp(b, c)))
  }

  /** On comparable records, `compareTo` through their keys keeps that contract. */
  lemma KeyedTotal<T>(xs: seq<T>, key: T -> Key, cmp: (T, T) -> int)
    requires Comparable(xs, key) && forall a, b :: cmp(a, b) == Compare(key(a), key(b))
    ensures TotalOn(xs, cmp)
  {
    forall a, b | a in xs && b in xs
      ensures Sign(cmp(a, b)) == -Sign(cmp(b, a)) && (cmp(a, b) == 0 <==> key(a) == key(b))
    {
      CompareOrder(key(a), key(b));
    }
    forall a, b, c | a in xs && b in xs && c in xs && cmp(a, b) < 0 && cmp(b, c) < 0
      ensures cmp(a, c) < 0
    {
      CompareTransitive(key(a), key(b), key(c));
    }
  }

  /** The contract holds on every sequence drawn from one it holds on. */
  lemma TotalWithin<T>(ts: seq<T>, xs: seq<T>, cmp: (T, T) -> int)
    requires TotalOn(xs, cmp) && forall a :: a in ts ==> a in xs
    ensures TotalOn(ts, cmp)
  {
  }

  /** The iteration order of a `TreeSet` under `cmp`: each record compares below every later one. */
  ghost predicate Ordered<T>(ts: seq<T>, cmp: (T, T) -> int)
  {
    forall i, j :: 0 <= i < j < |ts| ==> cmp(ts[i], ts[j]) < 0
  }

  /** Some record of `ts` compares equal to `t`. */
  ghost predicate HasEqual<T>(ts: seq<T>, t: T, cmp: (T, T) -> int)
  {
    exists y :: y in ts && cmp(t, y) == 0
  }

  /**
   * `TreeSet.add` under `cmp`: the record goes before the first one it
   * compares below, and the set stays as it was when one compares equal.
   */
  function InsertByKey<T>(ts: seq<T>, t: T, cmp: (T, T) -> int): seq<T>
  {
    if ts == [] then [t]
    else if cmp(t, ts[0]) == 0 then ts
    else if cmp(t, ts[0]) < 0 then [t] + ts
    else [ts[0]] + InsertByKey(ts[1..], t, cmp)
  }

  /**
   * Where `cmp` keeps its contract, adding keeps the set ordered, loses none
   * of its records, and brings in the new one exactly when none compares
   * equal to it; otherwise the set is unchanged.
   */
  lemma InsertByKeyMeaning<T>(ts: seq<T>, t: T, cmp: (T, T) -> int)
    requires Ordered(ts, cmp) && TotalOn(ts + [t], cmp)
    ensures var r := InsertByKey(ts, t, cmp);
      Ordered(r, cmp) &&
      (forall x :: x in r <==> x in ts || (x == t && !HasEqual(ts, t, cmp))) &&
      (HasEqual(ts, t, cmp) ==> r == ts)
  {
    InsertKeyElems(ts, t, cmp);
    InsertKeySorted(ts, t, cmp);
    InsertKeyUnchanged(ts, t, cmp);
  }

  /** Adding, under any `cmp`, loses no record and brings in none but the new one, which comes in unless one compares equal to it. */
  lemma {:induction false} InsertKeyElems<T>(ts: seq<T>, t: T, cmp: (T, T) -> int)
    ensures var r := InsertByKey(ts, t, cmp);
      (forall x :: x in r ==> x in ts || x == t) &&
      (forall x :: x in ts ==> x in r) &&
      (t in r || HasEqual(ts, t, cmp))
    decreases |ts|
  {
    if ts != [] {
      if cmp(t, ts[0]) > 0 {
        var tail := ts[1..];
        InsertKeyElems(tail, t, cmp);
        assert InsertByKey(ts, t, cmp) == [ts[0]] + InsertByKey(tail, t, cmp);
        assert ts == [ts[0]] + tail;
      } else if cmp(t, ts[0]) == 0 {
        assert ts[0] in ts;
      }
    }
  }

  /** Where `cmp` keeps its contract, adding keeps the set ordered. */
  lemma {:induction false} InsertKeySorted<T>(ts: seq<T>, t: T, cmp: (T, T) -> int)
    requires Ordered(ts, cmp) && TotalOn(ts + [t], cmp)
    ensures Ordered(InsertByKey(ts, t, cmp), cmp)
    decreases |ts|
  {
    if ts != [] {
      var c := cmp(t, ts[0]);
      if c < 0 {
        InsertFront(ts, t, cmp);
      } else if c > 0 {
        var tail := ts[1..];
        OrderedTail(ts, cmp);
        TotalWithin(tail + [t], ts + [t], cmp);
        InsertKeySorted(tail, t, cmp);
        InsertKeyElems(tail, t, cmp);
        var rest := InsertByKey(tail, t, cmp);
        assert InsertByKey(ts, t, cmp) == [ts[0]] + rest;
        assert ts[0] in ts + [t] && t in ts + [t];
        HeadBelow(ts, t, rest, cmp);
        OrderedCons(ts[0], rest, cmp);
      }
    }
  }

  /** Where `cmp` keeps its contract, adding a record that compares equal to one there changes nothing. */
  lemma {:induction false} InsertKeyUnchanged<T>(ts: seq<T>, t: T, cmp: (T, T) -> int)
    requires Ordered(ts, cmp) && TotalOn(ts + [t], cmp)
    ensures HasEqual(ts, t, cmp) ==> InsertByKey(ts, t, cmp) == ts
    decreases |ts|
  {
    if ts != [] {
      var c := cmp(t, ts[0]);
      if c < 0 {
        InsertFront(ts, t, cmp);
      } else if c > 0 {
        var tail := ts[1..];
        OrderedTail(ts, cmp);
        TotalWithin(tail + [t], ts + [t], cmp);
        InsertKeyUnchanged(tail, t, cmp);
        assert ts == [ts[0]] + tail;
        if HasEqual(ts, t, cmp) {
          var y :| y in ts && cmp(t, y) == 0;
          assert y in tail;
        }
      }
    }
  }

  /** The first record of an ordered set compares below the rest, and below a record that compares above it. */
  lemma HeadBelow<T>(ts: seq<T>, t: T, rest: seq<T>, cmp: (T, T) -> int)
    requires ts != [] && Ordered(ts, cmp) && TotalOn(ts + [t], cmp) && cmp(t, ts[0]) > 0
    requires forall x :: x in rest ==> x in ts[1..] || x == t
    ensures forall j :: 0 <= j < |rest| ==> cmp(ts[0], rest[j]) < 0
  {
    assert ts[0] in ts + [t] && t in ts + [t];
    forall j | 0 <= j < |rest|
      ensures cmp(ts[0], rest[j]) < 0
    {
      if rest[j] != t {
        assert rest[j] in ts[1..];
        var k :| 0 <= k < |ts[1..]| && ts[1..][k] == rest[j];
        assert ts[k + 1] == rest[j];
      }
    }
  }

  /** A record that compares below the first of an ordered set goes in front, and compares equal to none of it. */
  lemma InsertFront<T>(ts: seq<T>, t: T, cmp: (T, T) -> int)
    requires ts != [] && Ordered(ts, cmp) && TotalOn(ts + [t], cmp)
    requires cmp(t, ts[0]) < 0
    ensures Ordered([t] + ts, cmp) && !HasEqual(ts, t, cmp)
  {
    forall j | 0 <= j < |ts|
      ensures cmp(t, ts[j]) < 0
    {
      if j > 0 {
        assert t in ts + [t] && ts[0] in ts + [t] && ts[j] in ts + [t];
      }
    }
    OrderedCons(t, ts, cmp);
  }

  lemma OrderedTail<T>(ts: seq<T>, cmp: (T, T) -> int)
    requires ts != [] && Ordered(ts, cmp)
    ensures Ordered(ts[1..], cmp)
  {
    var tail := ts[1..];
    forall i, j | 0 <= i < j < |tail|
      ensures cmp(tail[i], tail[j]) < 0
    {
      assert tail[i] == ts[i + 1] && tail[j] == ts[j + 1];
    }
  }

  /** An ordered set stays ordered with a record in front that compares below all of it. */
  lemma OrderedCons<T>(h: T, rest: seq<T>, cmp: (T, T) -> int)
    requires Ordered(rest, cmp)
    requires forall j :: 0 <= j < |rest| ==> cmp(h, rest[j]) < 0
    ensures Ordered([h] + rest, cmp)
  {
    var r := [h] + rest;
    forall i, j | 0 <= i < j < |r|
      ensures cmp(r[i], r[j]) < 0
    {
      assert r[j] == rest[j - 1];
      if i > 0 {
        assert r[i] == rest[i - 1];
      }
    }
  }

  /** `add` of each record of `xs` in turn, into an empty `TreeSet` ordered by `cmp`. */
  function CollectByKey<T>(xs: seq<T>, cmp: (T, T) -> int): seq<T>
    decreases |xs|
  {
    if xs == [] then [] else InsertByKey(CollectByKey(xs[..|xs| - 1], cmp), xs[|xs| - 1], cmp)
  }

  /** No record before position `i` compares equal to the one there. */
  ghost predicate FirstOfKind<T>(xs: seq<T>, i: int, cmp: (T, T) -> int)
    requires 0 <= i < |xs|
  {
    forall j :: 0 <= j < i ==> cmp(xs[j], xs[i]) != 0
  }

  /** `y` stands in `xs` at a position where no earlier record compares equal to it. */
  ghost predicate Earliest<T>(xs: seq<T>, y: T, cmp: (T, T) -> int)
  {
    exists i :: 0 <= i < |xs| && xs[i] == y && FirstOfKind(xs, i, cmp)
  }

  /**
   * Where `cmp` keeps its contract, the `TreeSet` is ordered by it, every
   * record of `xs` compares equal to one it holds, and each record it holds
   * is the first of `xs` to compare equal to it: of records that compare
   * equal, the first added stays.
   */
  lemma {:induction false} CollectByKeyMeaning<T>(xs: seq<T>, cmp: (T, T) -> int)
    requires TotalOn(xs, cmp)
    ensures var r := CollectByKey(xs, cmp);
      Ordered(r, cmp) &&
      (forall a :: a in xs ==> HasEqual(r, a, cmp)) &&
      forall y :: y in r ==> Earliest(xs, y, cmp)
    decreases |xs|
  {
    if xs != [] {
      var n := |xs| - 1;
      var front, x := xs[..n], xs[n];
      assert xs == front + [x];
      TotalWithin(front, xs, cmp);
      CollectByKeyMeaning(front, cmp);
      var r0 := CollectByKey(front, cmp);
      assert CollectByKey(xs, cmp) == InsertByKey(r0, x, cmp);
      CollectStep(front, x, xs, r0, cmp);
    }
  }

  /** One more `add` keeps what `CollectByKeyMeaning` states. */
  lemma CollectStep<T>(front: seq<T>, x: T, xs: seq<T>, r0: seq<T>, cmp: (T, T) -> int)
    requires xs == front + [x] && TotalOn(xs, cmp) && Ordered(r0, cmp)
    requires forall a :: a in front ==> HasEqual(r0, a, cmp)
    requires forall y :: y in r0 ==> Earliest(front, y, cmp)
    ensures var r := InsertByKey(r0, x, cmp);
      Ordered(r, cmp) &&
      (forall a :: a in xs ==> HasEqual(r, a, cmp)) &&
      forall y :: y in r ==> Earliest(xs, y, cmp)
  {
    var r := InsertByKey(r0, x, cmp);
    CollectDrawn(front, xs, r0, cmp);
    TotalWithin(r0 + [x], xs, cmp);
    InsertByKeyMeaning(r0, x, cmp);
    CollectCovers(front, x, xs, r0, r, cmp);
    CollectFirsts(front, x, xs, r0, r, cmp);
  }

  /** The records of the `TreeSet` are records of the input, and stay the earliest of their kind once more is added. */
  lemma CollectDrawn<T>(front: seq<T>, xs: seq<T>, r0: seq<T>, cmp: (T, T) -> int)
    requires |front| < |xs| && front == xs[..|front|]
    requires forall y :: y in r0 ==> Earliest(front, y, cmp)
    ensures forall y :: y in r0 ==> y in xs && Earliest(xs, y, cmp)
  {
    forall y | y in r0
      ensures y in xs && Earliest(xs, y, cmp)
    {
      var i :| 0 <= i < |front| && front[i] == y && FirstOfKind(front, i, cmp);
      assert xs[..i] == front[..i] && xs[i] == y;
      assert FirstOfKind(xs, i, cmp);
    }
  }

  /** After one more `add`, every record added so far compares equal to one in the `TreeSet`. */
  lemma CollectCovers<T>(front: seq<T>, x: T, xs: seq<T>, r0: seq<T>, r: seq<T>, cmp: (T, T) -> int)
    requires xs == front + [x] && TotalOn(xs, cmp)
    requires forall a :: a in front ==> HasEqual(r0, a, cmp)
    requires forall y :: y in r <==> y in r0 || (y == x && !HasEqual(r0, x, cmp))
    ensures forall a :: a in xs ==> HasEqual(r, a, cmp)
  {
    forall a | a in xs
      ensures HasEqual(r, a, cmp)
    {
      if a in front {
        var y :| y in r0 && cmp(a, y) == 0;
        assert y in r;
      } else if HasEqual(r0, x, cmp) {
        assert a == x;
        var y :| y in r0 && cmp(x, y) == 0;
        assert y in r;
      } else {
        assert a == x && x in r;
        assert Sign(cmp(x, x)) == -Sign(cmp(x, x));
      }
    }
  }

  /** After one more `add`, each record of the `TreeSet` is the first of the input to compare equal to it. */
  lemma CollectFirsts<T>(front: seq<T>, x: T, xs: seq<T>, r0: seq<T>, r: seq<T>, cmp: (T, T) -> int)
    requires xs == front + [x] && TotalOn(xs, cmp)
    requires forall y :: y in r0 ==> y in xs && Earliest(xs, y, cmp)
    requires forall a :: a in front ==> HasEqual(r0, a, cmp)
    requires forall y :: y in r <==> y in r0 || (y == x && !HasEqual(r0, x, cmp))
    ensures forall y :: y in r ==> Earliest(xs, y, cmp)
  {
    if !HasEqual(r0, x, cmp) {
      NewIsFirst(front, x, xs, r0, cmp);
    }
  }

  /** A record that compares equal to none in the `TreeSet` compares equal to none added before it. */
  lemma NewIsFirst<T>(front: seq<T>, x: T, xs: seq<T>, r0: seq<T>, cmp: (T, T) -> int)
    requires xs == front + [x] && TotalOn(xs, cmp)
    requires forall y :: y in r0 ==> y in xs
    requires forall a :: a in front ==> HasEqual(r0, a, cmp)
    requires !HasEqual(r0, x, cmp)
    ensures Earliest(xs, x, cmp)
  {
    forall j | 0 <= j < |front|
      ensures cmp(xs[j], x) != 0
    {
      var a := front[j];
      assert xs[j] == a && a in front;
      var z :| z in r0 && cmp(a, z) == 0;
      if cmp(a, x) == 0 {
        EqualAlike(xs, cmp, a, z, x);
      }
    }
    assert xs[|front|] == x && FirstOfKind(xs, |front|, cmp);
  }

  /** Two records that compare equal to a third compare equal to each other. */
  lemma EqualAlike<T>(xs: seq<T>, cmp: (T, T) -> int, a: T, z: T, x: T)
    requires TotalOn(xs, cmp) && a in xs && z in xs && x in xs
    requires cmp(a, z) == 0 && cmp(a, x) == 0
    ensures cmp(x, z) == 0
  {
    assert Sign(cmp(a, x)) == Sign(cmp(z, x));
    assert Sign(cmp(z, x)) == -Sign(cmp(x, z));
  }

  /**
   * On comparable records, comparing equal through the keys is having the
   * same key: what `CollectByKeyMeaning` states, in terms of keys.
   */
  lemma KeyedMeaning<T>(xs: seq<T>, key: T -> Key, cmp: (T, T) -> int, r: seq<T>)
    requires Comparable(xs, key) && forall a, b :: cmp(a, b) == Compare(key(a), key(b))
    requires forall a :: a in xs ==> HasEqual(r, a, cmp)
    requires forall y :: y in r ==> Earliest(xs, y, cmp)
    ensures forall a :: a in xs ==> exists y :: y in r && key(y) == key(a)
    ensures forall y :: y in r ==> exists i :: (0 <= i < |xs| && xs[i] == y &&
      forall j :: 0 <= j < i ==> key(xs[j]) != key(y))
  {
    forall a | a in xs
      ensures exists y :: y in r && key(y) == key(a)
    {
      var y :| y in r && cmp(a, y) == 0;
      var i :| 0 <= i < |xs| && xs[i] == y && FirstOfKind(xs, i, cmp);
      assert y in xs;
      CompareOrder(key(a), key(y));
    }
    forall y | y in r
      ensures exists i :: 0 <= i < |xs| && xs[i] == y && forall j :: 0 <= j < i ==> key(xs[j]) != key(y)
    {
      var i :| 0 <= i < |xs| && xs[i] == y && FirstOfKind(xs, i, cmp);
      forall j | 0 <= j < i
        ensures key(xs[j]) != key(y)
      {
        assert xs[j] in xs && y in xs;
        if key(xs[j]) == key(y) {
          CompareOrder(key(xs[j]), key(y));
        }
      }
    }
  }
}
