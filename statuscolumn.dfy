/**
 * The status column `paint` draws, shared by `progress.Mode` and
 * `status_image.ImageMode`: the entries, in ascending order of their string
 * IDs, are taken ten at a time, and each group of ten becomes one row of the
 * new column, green when every entry of the group is translated and red
 * otherwise.  The column is `COLUMN_WIDTH` pixels wide and every pixel of a
 * row gets the same color, so a row is one cell here.
 */
module StatusColumn {
  import opened JavaLang
  import opened Collections

  /** `COLUMN_WIDTH`, and the number of entries a row stands for. */
  const COLUMN_WIDTH: nat := 10
  const PER_ROW: nat := 10

  /** A row's color: `Blank` is what a fresh `TYPE_INT_RGB` image holds before it is painted. */
  datatype Color = Blank | Green | Red

  /** The height of a fresh image for `n` entries: `(n - 1) / 10 + 1` with Java's truncating division. */
  function FreshHeight(n: nat): int
  {
    JavaDiv(n - 1, PER_ROW) + 1
  }

  /** The rows `n` entries are painted into: one per ten, the last one possibly partial. */
  function RowCount(n: nat): nat
  {
    if n == 0 then 0 else (n - 1) / PER_ROW + 1
  }

  /** A fresh image is exactly as high as the rows to paint, and one row high for no entries at all. */
  lemma FreshHeightFits(n: nat)
    ensures FreshHeight(n) >= 1 && RowCount(n) <= FreshHeight(n)
    ensures n > 0 ==> FreshHeight(n) == RowCount(n)
    ensures n == 0 ==> FreshHeight(n) == 1
  {
  }

  /** Every entry of row `r` (entries `10r` to `10r + 9`, as far as there are entries) is translated. */
  predicate RowTranslated(flags: seq<bool>, r: nat)
  {
    forall i :: PER_ROW * r <= i < |flags| && i < PER_ROW * r + PER_ROW ==> flags[i]
  }

  /** The color row `r` gets. */
  function RowColor(flags: seq<bool>, r: nat): Color
  {
    if RowTranslated(flags, r) then Green else Red
  }

  /** Each entry lies in row `i / 10`, one of the painted rows, and an untranslated entry makes its row red. */
  lemma EntryRow(flags: seq<bool>, i: nat)
    requires i < |flags|
    ensures i / PER_ROW < RowCount(|flags|)
    ensures !flags[i] ==> RowColor(flags, i / PER_ROW) == Red
    ensures RowColor(flags, i / PER_ROW) == Green ==> forall j :: 0 <= j < |flags| && j / PER_ROW == i / PER_ROW ==> flags[j]
  {
    forall j | 0 <= j < |flags| && j / PER_ROW == i / PER_ROW
      ensures PER_ROW * (i / PER_ROW) <= j < PER_ROW * (i / PER_ROW) + PER_ROW
    {
    }
  }

  /** The rows painted once the first `count` entries are seen: the completed ones, and after the last entry also a partial one. */
  function Painted(count: nat, n: nat): nat
  {
    if count == n then RowCount(n) else count / PER_ROW
  }

  /** The running flag of the loop: the entries of the current row seen so far are all translated. */
  predicate SoFar(flags: seq<bool>, from: nat, to: nat)
    requires from <= to <= |flags|
  {
    forall i :: from <= i < to ==> flags[i]
  }

  /** When a row is painted, at its tenth entry or at the very last one, the running flag covers that row. */
  lemma RowComplete(flags: seq<bool>, count: nat)
    requires count < |flags| && (count % PER_ROW == PER_ROW - 1 || count == |flags| - 1)
    ensures SoFar(flags, count - count % PER_ROW, count + 1) <==> RowTranslated(flags, count / PER_ROW)
  {
    var r := count / PER_ROW;
    assert PER_ROW * r == count - count % PER_ROW;
    if count == |flags| - 1 {
      assert count + 1 <= PER_ROW * r + PER_ROW;
    } else {
      assert count + 1 == PER_ROW * r + PER_ROW;
    }
  }

  /**
   * `paint`'s loop over the entries, with `column` the new column of the
   * image (its height is the image's).  A row below the image makes `setRGB`
   * throw, which is `ok == false`; otherwise exactly the `RowCount` first rows
   * are painted and the others keep what they held.
   */
  method PaintColumn(flags: seq<bool>, column: array<Color>) returns (ok: bool)
    modifies column
    ensures ok <==> RowCount(|flags|) <= column.Length
    ensures ok ==> forall r :: 0 <= r < column.Length ==>
      column[r] == (if r < RowCount(|flags|) then RowColor(flags, r) else old(column[r]))
  {
    var n := |flags|;
    var count := 0;
    var translated := false;
    while count < n
      invariant 0 <= count <= n
      invariant Painted(count, n) <= column.Length
      invariant count % PER_ROW != 0 ==> translated == SoFar(flags, count - count % PER_ROW, count)
      invariant forall r :: 0 <= r < column.Length ==>
        column[r] == (if r < Painted(count, n) then RowColor(flags, r) else old(column[r]))
    {
      translated := if count % PER_ROW == 0 then flags[count] else translated && flags[count];
      assert translated == SoFar(flags, count - count % PER_ROW, count + 1);
      if count % PER_ROW == PER_ROW - 1 || count == n - 1 {
        var row := count / PER_ROW;
        if row >= column.Length {
          return false;
        }
        RowComplete(flags, count);
        column[row] := if translated then Green else Red;
      }
      count := count + 1;
    }
    return true;
  }

  /** The entries' flags in ascending order of their string IDs, as the `SortedMap` iterates them. */
  function Flags(m: map<int, bool>): (flags: seq<bool>)
    ensures |flags| == |m.Keys|
  {
    var keys := SortedSeq(m.Keys);
    seq(|keys|, i requires 0 <= i < |keys| => m[keys[i]])
  }
}
