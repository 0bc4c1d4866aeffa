/** The dataset the checks read: named columns of discrete string values, all of one height. */
module Tables {

  /** A data frame: `height` rows and a map from column name to that column's values. */
  datatype Table = Table(height: nat, cols: map<string, seq<string>>)

  /** Every column holds one value per row. */
  predicate WellFormed(t: Table)
  {
    forall c :: c in t.cols ==> |t.cols[c]| == t.height
  }

  /** `len(df[df[c] == v])` for the column `col`: the rows holding `v`. */
  function Count(col: seq<string>, v: string): nat
  {
    if |col| == 0 then 0
    else (if col[0] == v then 1 else 0) + Count(col[1..], v)
  }

  /** `len(df[(df[c] == v) & (df[d] == w)])` for aligned columns `xs` and `ys`. */
  function CountBoth(xs: seq<string>, ys: seq<string>, v: string, w: string): nat
    requires |xs| == |ys|
  {
    if |xs| == 0 then 0
    else (if xs[0] == v && ys[0] == w then 1 else 0) + CountBoth(xs[1..], ys[1..], v, w)
  }

  /** A value occurs in a column exactly when some row holds it. */
  lemma {:induction false} CountPositive(col: seq<string>, v: string)
    ensures Count(col, v) > 0 <==> v in col
    ensures Count(col, v) <= |col|
  {
    if |col| > 0 {
      CountPositive(col[1..], v);
      assert col == [col[0]] + col[1..];
    }
  }

  /** The rows holding `v` and `w` are among the rows holding `v`. */
  lemma {:induction false} CountBothAtMost(xs: seq<string>, ys: seq<string>, v: string, w: string)
    requires |xs| == |ys|
    ensures CountBoth(xs, ys, v, w) <= Count(xs, v)
  {
    if |xs| > 0 {
      CountBothAtMost(xs[1..], ys[1..], v, w);
    }
  }

  /** Counting over two stacked blocks of rows adds the blocks' counts. */
  lemma {:induction false} CountAppend(xs: seq<string>, ys: seq<string>, v: string)
    ensures Count(xs + ys, v) == Count(xs, v) + Count(ys, v)
    decreases |xs|
  {
    if |xs| > 0 {
      CountAppend(xs[1..], ys, v);
      assert (xs + ys)[1..] == xs[1..] + ys;
    } else {
      assert xs + ys == ys;
    }
  }

  /** Joint counting over two stacked blocks of aligned rows adds the blocks' counts. */
  lemma {:induction false} CountBothAppend(xs: seq<string>, ys: seq<string>, xs': seq<string>, ys': seq<string>, v: string, w: string)
    requires |xs| == |ys| && |xs'| == |ys'|
    ensures CountBoth(xs + xs', ys + ys', v, w) == CountBoth(xs, ys, v, w) + CountBoth(xs', ys', v, w)
    decreases |xs|
  {
    if |xs| > 0 {
      CountBothAppend(xs[1..], ys[1..], xs', ys', v, w);
      assert (xs + xs')[1..] == xs[1..] + xs' && (ys + ys')[1..] == ys[1..] + ys';
    } else {
      assert xs + xs' == xs' && ys + ys' == ys';
    }
  }
}
