/**
 * The mean of one ranking column after numeric coercion: missing cells
 * (NaN) are skipped, as pandas' DataFrame.mean does by default, and a column
 * with no number at all has no mean.
 */
module MeanRank {
  import opened Options

  /** The numbers of a column, in order, with the missing cells dropped. */
  function Numbers(cells: seq<Option<real>>): (xs: seq<real>)
    ensures |xs| <= |cells|
    ensures xs == [] <==> forall i :: 0 <= i < |cells| ==> cells[i].None?
  {
    if cells == [] then []
    else
      var rest := Numbers(cells[1..]);
      assert forall i :: 1 <= i < |cells| ==> cells[i] == cells[1..][i - 1];
      match cells[0]
      case None => rest
      case Some(x) => [x] + rest
  }

  /** The sum of a sequence of numbers. */
  function Sum(xs: seq<real>): real {
    if xs == [] then 0.0 else xs[0] + Sum(xs[1..])
  }

  /** The mean over the numeric cells only: None exactly when the column holds no number. */
  function Mean(cells: seq<Option<real>>): (m: Option<real>)
    ensures m.None? <==> forall i :: 0 <= i < |cells| ==> cells[i].None?
  {
    var xs := Numbers(cells);
    if |xs| == 0 then None else Some(Sum(xs) / (|xs| as real))
  }

  /** Dropping missing cells distributes over concatenation. */
  lemma {:induction false} NumbersAppend(a: seq<Option<real>>, b: seq<Option<real>>)
    ensures Numbers(a + b) == Numbers(a) + Numbers(b)
  {
    if a == [] {
      assert a + b == b;
    } else {
      assert (a + b)[1..] == a[1..] + b;
      NumbersAppend(a[1..], b);
    }
  }

  /** Inserting a missing cell anywhere does not change the numbers of a column. */
  lemma NumbersSkipMissing(before: seq<Option<real>>, after: seq<Option<real>>)
    ensures Numbers(before + [None] + after) == Numbers(before + after)
  {
    NumbersAppend(before + [None], after);
    assert Numbers(before + [None]) == Numbers(before) by {
      NumbersAppend(before, [None]);
      assert Numbers([None]) == [];
    }
    NumbersAppend(before, after);
  }

  /** A missing cell anywhere in a column leaves its mean unchanged: it is skipped, not counted as 0. */
  lemma MeanSkipsMissing(before: seq<Option<real>>, after: seq<Option<real>>)
    ensures Mean(before + [None] + after) == Mean(before + after)
  {
    NumbersSkipMissing(before, after);
  }

  /** Terms within [lo, hi] give a sum within [n * lo, n * hi]. */
  lemma {:induction false} SumBounds(xs: seq<real>, lo: real, hi: real)
    requires forall k :: 0 <= k < |xs| ==> lo <= xs[k] <= hi
    ensures (|xs| as real) * lo <= Sum(xs) <= (|xs| as real) * hi
  {
    if xs != [] {
      SumBounds(xs[1..], lo, hi);
    }
  }

  /** Dividing by a positive count keeps the bounds. */
  lemma DivBounds(s: real, n: real, lo: real, hi: real)
    requires n > 0.0 && n * lo <= s <= n * hi
    ensures lo <= s / n <= hi
  {
  }

  /** Dropping missing cells keeps the bounds of the remaining numbers. */
  lemma {:induction false} NumbersWithinBounds(cells: seq<Option<real>>, lo: real, hi: real)
    requires forall i :: 0 <= i < |cells| && cells[i].Some? ==> lo <= cells[i].value <= hi
    ensures forall k :: 0 <= k < |Numbers(cells)| ==> lo <= Numbers(cells)[k] <= hi
  {
    if cells != [] {
      assert forall i :: 1 <= i < |cells| ==> cells[i] == cells[1..][i - 1];
      NumbersWithinBounds(cells[1..], lo, hi);
    }
  }

  /** Ranks within [lo, hi] give a mean within [lo, hi]. */
  lemma MeanWithinBounds(cells: seq<Option<real>>, lo: real, hi: real)
    requires forall i :: 0 <= i < |cells| && cells[i].Some? ==> lo <= cells[i].value <= hi
    ensures Mean(cells).Some? ==> lo <= Mean(cells).value <= hi
  {
    var xs := Numbers(cells);
    NumbersWithinBounds(cells, lo, hi);
    SumBounds(xs, lo, hi);
    if xs != [] {
      DivBounds(Sum(xs), |xs| as real, lo, hi);
    }
  }

  /** The column [1, 2, "N/A", 3] has mean 2: the text cell is excluded, not taken as 0 (which would give 1.5). */
  lemma MeanExample()
    ensures Mean([Some(1.0), Some(2.0), None, Some(3.0)]) == Some(2.0)
  {
    var cells := [Some(1.0), Some(2.0), None, Some(3.0)];
    assert Numbers(cells) == [1.0, 2.0, 3.0];
    assert Sum([1.0, 2.0, 3.0]) == 6.0;
  }
}
