/**
 * `status_image.ImageMode`: which IDs of the complete CSV are translated
 * (those not in the out-of-date CSV), the status line it prints, and the
 * status column it paints, which is the one `progress.Mode` paints.
 */
module StatusImage {
  import opened JavaLang
  import opened Collections
  import opened StatusColumn
  import Progress

  /** The loop of `invoke` filling the `translated` map: each complete ID, translated unless it is out of date. */
  method BuildTranslated(complete: set<int>, outOfDate: set<int>) returns (translated: map<int, bool>)
    ensures translated.Keys == complete
    ensures forall id :: id in translated ==> (translated[id] <==> id !in outOfDate)
  {
    translated := map[];
    var todo := complete;
    while todo != {}
      invariant todo <= complete
      invariant translated.Keys == complete - todo
      invariant forall id :: id in translated ==> (translated[id] <==> id !in outOfDate)
      decreases |todo|
    {
      NonEmptyHasElement(todo);
      var id :| id in todo;
      translated := translated[id := id !in outOfDate];
      todo := todo - {id};
    }
  }

  /** The map `BuildTranslated` fills. */
  function Translated(complete: set<int>, outOfDate: set<int>): map<int, bool>
  {
    map id | id in complete :: id !in outOfDate
  }

  /** The loop fills exactly that map. */
  lemma BuildTranslatedIs(t: map<int, bool>, complete: set<int>, outOfDate: set<int>)
    requires t.Keys == complete && forall id :: id in t ==> (t[id] <==> id !in outOfDate)
    ensures t == Translated(complete, outOfDate)
  {
    var u := Translated(complete, outOfDate);
    assert forall id :: id in t ==> id in u && t[id] == u[id];
  }

  /**
   * Both modes paint the same column: an ID's row counts it as translated
   * in the status image exactly when the progress mode finds it accepted.
   */
  lemma SameColumn(complete: set<int>, outOfDate: set<int>, unused: set<int>)
    ensures Progress.AcceptedFlags(Progress.StatesOf(complete, outOfDate, unused)) == Flags(Translated(complete, outOfDate))
  {
    var m := Progress.StatesOf(complete, outOfDate, unused);
    var a := map id | id in m :: Progress.Accepted in m[id];
    var t := Translated(complete, outOfDate);
    forall id | id in a
      ensures id in t && a[id] == t[id]
    {
      Progress.StatesMeaning(complete, outOfDate, unused, id);
    }
    assert a == t;
  }

  /**
   * The percentage `invoke` prints, `(|complete| - |outOfDate|) * 100 /
   * |complete|` in `int` arithmetic; `ArithmeticException` (division by zero,
   * no value) when the complete CSV holds no ID.
   */
  function DonePercent(complete: set<int>, outOfDate: set<int>): (p: Option<int>)
    ensures p.None? <==> complete == {}
  {
    if |complete| == 0 then None
    else Some(JavaDiv(Wrap32(Wrap32(|complete| - |outOfDate|) * 100), |complete|))
  }

  /** The three lines `invoke` prints, with the count of translated IDs `|complete| - |outOfDate|`. */
  function StatusLines(complete: set<int>, outOfDate: set<int>): (lines: Option<seq<string>>)
    ensures lines.None? <==> complete == {}
  {
    match DonePercent(complete, outOfDate)
    case None => None
    case Some(p) =>
      var rule := "------------------------------------------------";
      Some([rule,
            "Translated: " + IntToString(Wrap32(|complete| - |outOfDate|)) + "/" + IntToString(|complete|) + ", " +
              IntToString(p) + " % done",
            rule])
  }

  /**
   * As written, the sizes of the two sets are subtracted: out-of-date IDs that
   * are not in the complete CSV count against it.  With one complete ID, which
   * the column paints green, and two other out-of-date IDs, the line reads
   * `-1/1, -100 % done`.
   */
  lemma SizesNotIntersection()
    ensures DonePercent({1}, {2, 3}) == Some(-100)
    ensures Translated({1}, {2, 3})[1]
  {
    assert |{2, 3}| == 2;
  }

  /** The share of complete IDs that are translated: the entries the column paints as translated. */
  function DonePercentIntended(complete: set<int>, outOfDate: set<int>): (p: Option<int>)
    ensures p.None? <==> complete == {}
  {
    if |complete| == 0 then None else Some(JavaDiv(100 * |complete - outOfDate|, |complete|))
  }

  /**
   * The intended percentage counts the IDs the column shows as translated,
   * lies between 0 and 100, and agrees with the line as written whenever every
   * out-of-date ID is a complete one and the product fits into an `int`.
   */
  lemma DonePercentIntendedMeaning(complete: set<int>, outOfDate: set<int>)
    requires complete != {}
    ensures |complete - outOfDate| == |set id | id in Translated(complete, outOfDate) && Translated(complete, outOfDate)[id]|
    ensures 0 <= DonePercentIntended(complete, outOfDate).value <= 100
    ensures outOfDate <= complete && 100 * |complete| <= INT_MAX ==>
      DonePercent(complete, outOfDate) == DonePercentIntended(complete, outOfDate)
  {
    var t := Translated(complete, outOfDate);
    assert (set id | id in t && t[id]) == complete - outOfDate;
    var n := |complete - outOfDate|;
    var c := |complete|;
    assert complete - outOfDate <= complete;
    SubsetCard(complete - outOfDate, complete);
    Progress.QuotientAtMost100(n, c);
    if outOfDate <= complete && 100 * c <= INT_MAX {
      assert complete == (complete - outOfDate) + outOfDate;
      assert c - |outOfDate| == n;
    }
  }
}
