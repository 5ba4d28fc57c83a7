/**
 * `progress.Mode`: the state of every string ID of a translation project
 * (accepted, out of date, unused), the ten-per-row status column of the PNG,
 * and the row appended to the TXT progress table.
 */
module Progress {
  import opened JavaLang
  import opened Collections
  import opened StatusColumn

  /** `IdState`. */
  datatype IdState = Accepted | Unused | OutOfDate

  /**
   * The states `invoke` gives the IDs of the complete CSV: `{ACCEPTED}`, or
   * `{OUT_OF_DATE}` for one of the out-of-date CSV, plus `UNUSED` for one of
   * the unused TXT.
   */
  function StatesOf(complete: set<int>, outOfDate: set<int>, unused: set<int>): (m: map<int, set<IdState>>)
    ensures m.Keys == complete
  {
    map id | id in complete ::
      (if id in outOfDate then {OutOfDate} else {Accepted}) + (if id in unused then {Unused} else {})
  }

  /** An ID is accepted exactly when it is not out of date, out of date exactly when listed so, and unused likewise. */
  lemma StatesMeaning(complete: set<int>, outOfDate: set<int>, unused: set<int>, id: int)
    requires id in complete
    ensures var s := StatesOf(complete, outOfDate, unused)[id];
      (Accepted in s <==> id !in outOfDate) && (OutOfDate in s <==> id in outOfDate) &&
      (Unused in s <==> id in unused) && !(Accepted in s && OutOfDate in s)
  {
  }

  /** The number of IDs whose states hold `st`: what the `stream().filter(...).count()` calls count. */
  function Count(m: map<int, set<IdState>>, st: IdState): nat
  {
    |set id | id in m && st in m[id]|
  }

  /** With every out-of-date ID in the complete CSV, the accepted ones are the others, and the unused ones are the complete ones listed unused. */
  lemma Counts(complete: set<int>, outOfDate: set<int>, unused: set<int>)
    requires outOfDate <= complete
    ensures Count(StatesOf(complete, outOfDate, unused), Accepted) == |complete| - |outOfDate|
    ensures Count(StatesOf(complete, outOfDate, unused), Unused) == |complete * unused|
  {
    var m := StatesOf(complete, outOfDate, unused);
    forall id | id in m
      ensures (Accepted in m[id] <==> id !in outOfDate) && (Unused in m[id] <==> id in unused)
    {
      StatesMeaning(complete, outOfDate, unused, id);
    }
    assert (set id | id in m && Accepted in m[id]) == complete - outOfDate;
    assert (set id | id in m && Unused in m[id]) == complete * unused;
    DiffCard(complete, outOfDate);
  }

  lemma DiffCard(a: set<int>, b: set<int>)
    requires b <= a
    ensures |a - b| == |a| - |b|
  {
    assert a == (a - b) + b;
    assert (a - b) * b == {};
  }

  /**
   * The three loops of `invoke` that build `idsToState`.  An out-of-date ID
   * missing from the complete CSV makes `idsToState.get(id)` null and the
   * call throw `NullPointerException`: no map at all.  Unused IDs that are
   * missing are skipped.
   */
  method BuildStates(complete: set<int>, outOfDate: set<int>, unused: set<int>) returns (r: Option<map<int, set<IdState>>>)
    ensures r.Some? <==> outOfDate <= complete
    ensures r.Some? ==> r.value == StatesOf(complete, outOfDate, unused)
  {
    var m := AcceptAll(complete);
    var ok, m' := MarkOutOfDate(m, complete, outOfDate);
    if !ok {
      return None;
    }
    var m'' := MarkUnused(m', complete, outOfDate, unused);
    return Some(m'');
  }

  /** The state of an ID once the first loops have run: out of date or accepted, and unused when marked so. */
  function Marked(id: int, outOfDate: set<int>, unused: set<int>): set<IdState>
  {
    (if id in outOfDate then {OutOfDate} else {Accepted}) + (if id in unused then {Unused} else {})
  }

  /** The first loop of `invoke`: `{ACCEPTED}` for every ID of the complete CSV. */
  method AcceptAll(complete: set<int>) returns (m: map<int, set<IdState>>)
    ensures m.Keys == complete && forall id :: id in m ==> m[id] == Marked(id, {}, {})
  {
    m := map[];
    var todo := complete;
    while todo != {}
      invariant todo <= complete
      invariant m.Keys == complete - todo && forall id :: id in m ==> m[id] == Marked(id, {}, {})
      decreases |todo|
    {
      NonEmptyHasElement(todo);
      var id :| id in todo;
      m := m[id := {Accepted}];
      todo := todo - {id};
    }
  }

  /** The second loop: each out-of-date ID loses ACCEPTED and gains OUT_OF_DATE; a missing one throws. */
  method MarkOutOfDate(m0: map<int, set<IdState>>, complete: set<int>, outOfDate: set<int>) returns (ok: bool, m: map<int, set<IdState>>)
    requires m0.Keys == complete && forall id :: id in m0 ==> m0[id] == Marked(id, {}, {})
    ensures ok <==> outOfDate <= complete
    ensures ok ==> MarkedAll(m, complete, outOfDate, {})
  {
    m := m0;
    var todo := outOfDate;
    while todo != {}
      invariant todo <= outOfDate && outOfDate - todo <= complete
      invariant m.Keys == complete && forall id :: id in m ==> m[id] == Marked(id, outOfDate - todo, {})
      decreases |todo|
    {
      NonEmptyHasElement(todo);
      var id :| id in todo;
      if id !in m {
        return false, m;
      }
      m := m[id := m[id] - {Accepted} + {OutOfDate}];
      todo := todo - {id};
    }
    assert outOfDate - todo == outOfDate;
    assert MarkedAll(m, complete, outOfDate, {});
    return true, m;
  }

  /** Every ID of the map has the states marked so far. */
  ghost predicate MarkedAll(m: map<int, set<IdState>>, complete: set<int>, outOfDate: set<int>, unused: set<int>)
  {
    m.Keys == complete && forall id :: id in m ==> m[id] == Marked(id, outOfDate, unused)
  }

  /** Marking one more ID unused. */
  lemma MarkUnusedStep(m: map<int, set<IdState>>, complete: set<int>, outOfDate: set<int>, done: set<int>, id: int)
    requires MarkedAll(m, complete, outOfDate, done) && id !in done
    ensures MarkedAll(if id in m then m[id := m[id] + {Unused}] else m, complete, outOfDate, done + {id})
  {
  }

  /** The third loop: UNUSED joins the states of each unused ID that is in the map. */
  method MarkUnused(m0: map<int, set<IdState>>, complete: set<int>, outOfDate: set<int>, unused: set<int>)
    returns (m: map<int, set<IdState>>)
    requires MarkedAll(m0, complete, outOfDate, {})
    ensures m == StatesOf(complete, outOfDate, unused)
  {
    m := m0;
    var todo := unused;
    ghost var done := {};
    while todo != {}
      invariant todo <= unused && done == unused - todo
      invariant MarkedAll(m, complete, outOfDate, done)
      decreases |todo|
    {
      NonEmptyHasElement(todo);
      var id :| id in todo;
      MarkUnusedStep(m, complete, outOfDate, done, id);
      if id in m {
        m := m[id := m[id] + {Unused}];
      }
      todo := todo - {id};
      done := done + {id};
    }
    StatesOfIs(m, complete, outOfDate, unused);
  }

  /** A map with the complete IDs as keys and the marked states as values is `StatesOf`. */
  lemma StatesOfIs(m: map<int, set<IdState>>, complete: set<int>, outOfDate: set<int>, unused: set<int>)
    requires MarkedAll(m, complete, outOfDate, unused)
    ensures m == StatesOf(complete, outOfDate, unused)
  {
    var s := StatesOf(complete, outOfDate, unused);
    assert forall id :: id in m ==> id in s && m[id] == s[id];
  }

  /** The flags `paint` colors the rows by: ACCEPTED, per ID in ascending order. */
  function AcceptedFlags(m: map<int, set<IdState>>): seq<bool>
  {
    Flags(map id | id in m :: Accepted in m[id])
  }

  // ---------------------------------------------------------------- the TXT table

  /** The two header lines of a new progress table. */
  const HEADER: seq<string> := [
    "Date         # Untouched   # Suggested   # Accepted   Progress",
    "-----------+-------------+-------------+------------+---------"]

  /** `String.format("%1$<w>s", s)`: padded on the left with spaces to `w` characters, never cut. */
  function PadLeft(s: string, w: nat): (r: string)
    ensures |r| == if |s| < w then w else |s|
    ensures r[|r| - |s|..] == s
    ensures forall i :: 0 <= i < |r| - |s| ==> r[i] == ' '
  {
    if |s| < w then seq(w - |s|, _ => ' ') + s else s
  }

  /** Java's `/` on a non-zero divisor of either sign: the quotient truncated toward zero. */
  function TruncDiv(a: int, b: int): int
    requires b != 0
  {
    if b > 0 then JavaDiv(a, b) else -JavaDiv(a, -b)
  }

  /**
   * `(int) (100.0 * num / den)`.  For `int` operands `100.0 * num` is exact
   * and the double quotient lies too close to the real one to cross an
   * integer, so the cast truncates the real quotient toward zero and
   * saturates at the `int` bounds; a zero divisor gives an infinity, cast to
   * `Integer.MAX_VALUE` or `MIN_VALUE`, or NaN for `0 / 0`, cast to `0`.
   */
  function Percentage(num: int, den: int): (p: int)
    ensures IsInt32(p)
  {
    if den == 0 then (if num > 0 then INT_MAX else if num < 0 then INT_MIN else 0)
    else
      var q := TruncDiv(100 * num, den);
      if q > INT_MAX then INT_MAX else if q < INT_MIN then INT_MIN else q
  }

  /** The numbers of the new table row. */
  datatype Tally = Tally(untouched: int, suggested: int, accepted: int, percentage: int)

  /**
   * What `write` counts: `total - accepted - suggestions` untouched IDs, and
   * as progress `(suggestions + 2 * accepted)` half-points out of
   * `2 * (total - unused)`, or of `2 * total` when unused IDs count.  The
   * `int` sums wrap around as Java's do.
   */
  function TallyOf(m: map<int, set<IdState>>, suggestions: int, ignoreUnused: bool): Tally
  {
    var total := |m.Keys|;
    var accepted := Count(m, Accepted);
    var unused := Count(m, Unused);
    Tally(Wrap32(total - accepted - suggestions), suggestions, accepted,
      Percentage(Wrap32(suggestions + 2 * accepted), Wrap32(2 * (total - (if ignoreUnused then unused else 0)))))
  }

  /** The row appended to the table: the date, then the four columns right-aligned, separated by three spaces. */
  function ProgressLine(date: string, t: Tally): string
  {
    date + "   " + PadLeft(IntToString(t.untouched), 11) + "   " + PadLeft(IntToString(t.suggested), 11) + "   " +
    PadLeft(IntToString(t.accepted), 10) + "   " + PadLeft(IntToString(t.percentage) + "%", 7)
  }

  /**
   * The progress is a percentage: with no more suggestions than untouched IDs
   * and sizes well inside the `int` range, it lies between 0 and 100, and it
   * is 100 when everything is accepted.
   */
  lemma PercentageBounds(accepted: nat, suggestions: nat, counted: nat)
    requires 0 < counted < 0x1000_0000 && accepted + suggestions <= counted
    ensures 0 <= Percentage(suggestions + 2 * accepted, 2 * counted) <= 100
    ensures accepted == counted ==> Percentage(suggestions + 2 * accepted, 2 * counted) == 100
  {
    var num := suggestions + 2 * accepted;
    var den := 2 * counted;
    PercentageOfFraction(num, den);
    QuotientAtMost100(num, den);
    if accepted == counted {
      WholeIs100(den);
    }
  }

  lemma WholeIs100(den: nat)
    requires 0 < den
    ensures (100 * den) / den == 100
  {
  }

  /** For a non-negative fraction the cast is the quotient rounded down. */
  lemma PercentageOfFraction(num: nat, den: nat)
    requires 0 < den && num <= den < INT_MAX
    ensures Percentage(num, den) == (100 * num) / den
  {
    var q := (100 * num) / den;
    assert JavaDiv(100 * num, den) == q;
    assert q <= 100 * num;
  }

  /** A fraction `num / den` of at most one is at most 100 percent. */
  lemma QuotientAtMost100(num: nat, den: nat)
    requires 0 < den && num <= den
    ensures 0 <= (100 * num) / den <= 100
  {
    var q := (100 * num) / den;
    assert q * den <= 100 * num;
    if q > 100 {
      MulMonotone(101, q, den);
    }
  }

  lemma MulMonotone(a: nat, b: nat, c: nat)
    requires a <= b
    ensures a * c <= b * c
  {
  }

  /** There is a non-empty line: `while (lines.getLast().isEmpty())` stops before the list runs out. */
  predicate HasText(lines: seq<string>)
  {
    exists i :: 0 <= i < |lines| && lines[i] != ""
  }

  /**
   * The trimming loop of `write`: `removeLast` while the last line is empty.
   * When every line is empty, `getLast` of the emptied list throws
   * `NoSuchElementException`.
   */
  method TrimTrailing(lines: seq<string>) returns (r: Option<seq<string>>)
    ensures r.Some? <==> HasText(lines)
    ensures r.Some? ==> r.value == DropTrailingEmpty(lines) && r.value != [] && r.value[|r.value| - 1] != ""
  {
    var rest := lines;
    while rest != [] && rest[|rest| - 1] == ""
      invariant DropTrailingEmpty(rest) == DropTrailingEmpty(lines)
      invariant rest == lines[..|rest|]
      invariant forall i :: |rest| <= i < |lines| ==> lines[i] == ""
      decreases |rest|
    {
      rest := rest[..|rest| - 1];
    }
    if rest == [] {
      assert forall i :: 0 <= i < |lines| ==> lines[i] == "";
      return None;
    }
    assert rest[|rest| - 1] != "";
    return Some(rest);
  }

  /**
   * `write`: the existing table (or the header of a new one when there is no
   * file), trimmed of its trailing empty lines, with the new row appended.
   */
  method Write(existing: Option<seq<string>>, m: map<int, set<IdState>>, suggestions: int, ignoreUnused: bool, date: string)
    returns (r: Option<seq<string>>)
    ensures var lines := if existing.Some? then existing.value else HEADER;
      (r.Some? <==> HasText(lines)) &&
      (r.Some? ==> r.value == DropTrailingEmpty(lines) + [ProgressLine(date, TallyOf(m, suggestions, ignoreUnused))])
  {
    var lines := if existing.Some? then existing.value else HEADER;
    var trimmed := TrimTrailing(lines);
    if trimmed.None? {
      return None;
    }
    r := Some(trimmed.value + [ProgressLine(date, TallyOf(m, suggestions, ignoreUnused))]);
  }

  /** A new table keeps its header: the header has no empty line to trim. */
  lemma HeaderKept()
    ensures HasText(HEADER) && DropTrailingEmpty(HEADER) == HEADER
  {
    assert HEADER[0] != "";
  }
}
