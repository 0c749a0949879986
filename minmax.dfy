/**
 * Min-max scaling of one column, as scikit-learn's `MinMaxScaler` with
 * feature range `(lo, hi)` computes it on a single feature, and the
 * upper clip applied to the health ratio column.
 */
module MinMax {

  /** `col.min()` */
  function SeqMin(xs: seq<real>): (m: real)
    requires |xs| > 0
    ensures forall i :: 0 <= i < |xs| ==> m <= xs[i]
  {
    if |xs| == 1 then xs[0]
    else
      var m := SeqMin(xs[..|xs| - 1]);
      assert forall i :: 0 <= i < |xs| - 1 ==> xs[..|xs| - 1][i] == xs[i];
      if xs[|xs| - 1] < m then xs[|xs| - 1] else m
  }

  /** `col.max()` */
  function SeqMax(xs: seq<real>): (m: real)
    requires |xs| > 0
    ensures forall i :: 0 <= i < |xs| ==> xs[i] <= m
  {
    if |xs| == 1 then xs[0]
    else
      var m := SeqMax(xs[..|xs| - 1]);
      assert forall i :: 0 <= i < |xs| - 1 ==> xs[..|xs| - 1][i] == xs[i];
      if xs[|xs| - 1] > m then xs[|xs| - 1] else m
  }

  /** The minimum and the maximum are values of the column. */
  lemma {:induction false} ExtremesAttained(xs: seq<real>)
    requires |xs| > 0
    ensures exists i :: 0 <= i < |xs| && xs[i] == SeqMin(xs)
    ensures exists j :: 0 <= j < |xs| && xs[j] == SeqMax(xs)
  {
    if |xs| > 1 {
      var p := xs[..|xs| - 1];
      ExtremesAttained(p);
      var i :| 0 <= i < |p| && p[i] == SeqMin(p);
      var j :| 0 <= j < |p| && p[j] == SeqMax(p);
      assert xs[i] == p[i] && xs[j] == p[j];
      var last := |xs| - 1;
      assert SeqMin(xs) == xs[i] || SeqMin(xs) == xs[last];
      assert SeqMax(xs) == xs[j] || SeqMax(xs) == xs[last];
    } else {
      assert xs[0] == SeqMin(xs) == SeqMax(xs);
    }
  }

  /**
   * One value of a column whose minimum is `lowest` and maximum `highest`,
   * mapped to `(x - lowest) / (highest - lowest) * (hi - lo) + lo`. A column
   * without range (`highest == lowest`) has its range replaced by 1, which
   * maps every value, all equal to `lowest`, to `lo`.
   */
  function ScaleValue(x: real, lowest: real, highest: real, lo: real, hi: real): real {
    if highest == lowest then lo
    else (x - lowest) / (highest - lowest) * (hi - lo) + lo
  }

  /** `MinMaxScaler((lo, hi)).fit_transform(col)` on a non-empty column. */
  function MinMaxScale(col: seq<real>, lo: real, hi: real): (r: seq<real>)
    requires |col| > 0
    ensures |r| == |col|
  {
    var lowest := SeqMin(col);
    var highest := SeqMax(col);
    seq(|col|, i requires 0 <= i < |col| => ScaleValue(col[i], lowest, highest, lo, hi))
  }

  lemma ProductBounds(t: real, width: real)
    requires 0.0 <= t <= 1.0 && width >= 0.0
    ensures 0.0 <= t * width <= width
  {
    assert t * width <= 1.0 * width by {
      assert (1.0 - t) * width >= 0.0;
    }
  }

  lemma QuotientBounds(d: real, range: real)
    requires 0.0 <= d <= range && range > 0.0
    ensures 0.0 <= d / range <= 1.0
  {
    assert d / range * range == d;
  }

  /** A value inside the column's range is mapped into `[lo, hi]`. */
  lemma ScaleValueBounds(x: real, lowest: real, highest: real, lo: real, hi: real)
    requires lowest <= x <= highest && lo <= hi
    ensures lo <= ScaleValue(x, lowest, highest, lo, hi) <= hi
  {
    if highest != lowest {
      QuotientBounds(x - lowest, highest - lowest);
      ProductBounds((x - lowest) / (highest - lowest), hi - lo);
    }
  }

  lemma QuotientMonotone(a: real, b: real, range: real)
    requires a <= b && range > 0.0
    ensures a / range <= b / range
    ensures a < b ==> a / range < b / range
  {
    assert b / range - a / range == (b - a) / range;
    if a < b {
      assert (b - a) / range * range == b - a;
    }
  }

  lemma ProductMonotone(a: real, b: real, width: real)
    requires a <= b && width >= 0.0
    ensures a * width <= b * width
    ensures a < b && width > 0.0 ==> a * width < b * width
  {
    assert b * width - a * width == (b - a) * width;
  }

  /** Scaling never reverses the order of two values, and keeps strict order when `lo < hi`. */
  lemma ScaleValueMonotone(x: real, y: real, lowest: real, highest: real, lo: real, hi: real)
    requires x <= y && lowest <= highest && lo <= hi
    ensures ScaleValue(x, lowest, highest, lo, hi) <= ScaleValue(y, lowest, highest, lo, hi)
    ensures x < y && lowest < highest && lo < hi ==>
      ScaleValue(x, lowest, highest, lo, hi) < ScaleValue(y, lowest, highest, lo, hi)
  {
    if highest != lowest {
      var range := highest - lowest;
      QuotientMonotone(x - lowest, y - lowest, range);
      ProductMonotone((x - lowest) / range, (y - lowest) / range, hi - lo);
    }
  }

  /** Every scaled value lies in `[lo, hi]`. */
  lemma ScaledBounds(col: seq<real>, lo: real, hi: real)
    requires |col| > 0 && lo <= hi
    ensures forall i :: 0 <= i < |col| ==> lo <= MinMaxScale(col, lo, hi)[i] <= hi
  {
    forall i | 0 <= i < |col|
      ensures lo <= MinMaxScale(col, lo, hi)[i] <= hi
    {
      ScaleValueBounds(col[i], SeqMin(col), SeqMax(col), lo, hi);
    }
  }

  /**
   * Scaling preserves order: values in order stay in order, and for a
   * proper target range (`lo < hi`) distinct values stay distinct.
   */
  lemma ScalePreservesOrder(col: seq<real>, lo: real, hi: real)
    requires |col| > 0 && lo <= hi
    ensures forall i, j :: 0 <= i < |col| && 0 <= j < |col| && col[i] <= col[j] ==>
      MinMaxScale(col, lo, hi)[i] <= MinMaxScale(col, lo, hi)[j]
    ensures lo < hi ==> forall i, j :: 0 <= i < |col| && 0 <= j < |col| && col[i] < col[j] ==>
      MinMaxScale(col, lo, hi)[i] < MinMaxScale(col, lo, hi)[j]
  {
    var r := MinMaxScale(col, lo, hi);
    var lowest := SeqMin(col);
    var highest := SeqMax(col);
    forall i, j | 0 <= i < |col| && 0 <= j < |col| && col[i] <= col[j]
      ensures r[i] <= r[j]
      ensures col[i] < col[j] && lo < hi ==> r[i] < r[j]
    {
      ScaleValueMonotone(col[i], col[j], lowest, highest, lo, hi);
    }
  }

  lemma ScaleValueAtMinimum(lowest: real, highest: real, lo: real, hi: real)
    ensures ScaleValue(lowest, lowest, highest, lo, hi) == lo
  {
    if highest != lowest {
      assert (lowest - lowest) / (highest - lowest) == 0.0;
    }
  }

  /** The column minimum is mapped to `lo`. */
  lemma MinimumScaled(col: seq<real>, lo: real, hi: real)
    requires |col| > 0
    ensures forall i :: 0 <= i < |col| && col[i] == SeqMin(col) ==> MinMaxScale(col, lo, hi)[i] == lo
  {
    var lowest := SeqMin(col);
    var highest := SeqMax(col);
    ScaleValueAtMinimum(lowest, highest, lo, hi);
    forall i | 0 <= i < |col| && col[i] == lowest
      ensures MinMaxScale(col, lo, hi)[i] == lo
    {
      assert MinMaxScale(col, lo, hi)[i] == ScaleValue(lowest, lowest, highest, lo, hi);
    }
  }

  lemma ScaleValueAtMaximum(lowest: real, highest: real, lo: real, hi: real)
    requires lowest < highest
    ensures ScaleValue(highest, lowest, highest, lo, hi) == hi
  {
    var range := highest - lowest;
    assert range / range == 1.0;
  }

  /** In a column with a range, the maximum is mapped to `hi`. */
  lemma MaximumScaled(col: seq<real>, lo: real, hi: real)
    requires |col| > 0 && SeqMin(col) < SeqMax(col)
    ensures forall i :: 0 <= i < |col| && col[i] == SeqMax(col) ==> MinMaxScale(col, lo, hi)[i] == hi
  {
    var lowest := SeqMin(col);
    var highest := SeqMax(col);
    ScaleValueAtMaximum(lowest, highest, lo, hi);
    forall i | 0 <= i < |col| && col[i] == highest
      ensures MinMaxScale(col, lo, hi)[i] == hi
    {
      assert MinMaxScale(col, lo, hi)[i] == ScaleValue(highest, lowest, highest, lo, hi);
    }
  }

  /** A column without range is mapped entirely to `lo`. */
  lemma ConstantScaled(col: seq<real>, lo: real, hi: real)
    requires |col| > 0 && SeqMin(col) == SeqMax(col)
    ensures forall i :: 0 <= i < |col| ==> MinMaxScale(col, lo, hi)[i] == lo
  {
    forall i | 0 <= i < |col|
      ensures MinMaxScale(col, lo, hi)[i] == lo
    {
      assert MinMaxScale(col, lo, hi)[i] == ScaleValue(col[i], SeqMin(col), SeqMax(col), lo, hi);
    }
  }

  /**
   * A column with a range maps its minimum to `lo` and its maximum to `hi`;
   * a column without one maps every value to `lo`.
   */
  lemma ScaledExtremes(col: seq<real>, lo: real, hi: real)
    requires |col| > 0
    ensures forall i :: 0 <= i < |col| && col[i] == SeqMin(col) ==> MinMaxScale(col, lo, hi)[i] == lo
    ensures SeqMin(col) < SeqMax(col) ==>
      forall i :: 0 <= i < |col| && col[i] == SeqMax(col) ==> MinMaxScale(col, lo, hi)[i] == hi
    ensures SeqMin(col) == SeqMax(col) ==> forall i :: 0 <= i < |col| ==> MinMaxScale(col, lo, hi)[i] == lo
  {
    MinimumScaled(col, lo, hi);
    if SeqMin(col) < SeqMax(col) {
      MaximumScaled(col, lo, hi);
    } else if SeqMin(col) == SeqMax(col) {
      ConstantScaled(col, lo, hi);
    }
  }

  /** `col.clip(upper=upper)` */
  function ClipUpper(col: seq<real>, upper: real): (r: seq<real>)
    ensures |r| == |col|
  {
    seq(|col|, i requires 0 <= i < |col| => if col[i] > upper then upper else col[i])
  }

  /**
   * Clipping keeps every value at most `upper`, changes only the values
   * above it, and clipping a column to its own maximum changes nothing.
   */
  lemma ClipUpperRules(col: seq<real>, upper: real)
    ensures forall i :: 0 <= i < |col| ==> ClipUpper(col, upper)[i] <= upper
    ensures forall i :: 0 <= i < |col| && col[i] <= upper ==> ClipUpper(col, upper)[i] == col[i]
    ensures |col| > 0 ==> ClipUpper(col, SeqMax(col)) == col
  {
    if |col| > 0 {
      var r := ClipUpper(col, SeqMax(col));
      assert forall i :: 0 <= i < |col| ==> r[i] == col[i];
    }
  }
}
