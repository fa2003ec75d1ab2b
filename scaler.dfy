/** The scaler object: `fit` stores the sorted columns of its input and their
    derivative ranks, `transform` looks new values up against them. */
module Scaler {
  import opened ArrayOps
  import opened DerivativeRank

  /** A numpy array: its shape and its entries in row-major order. */
  datatype NdArray = NdArray(shape: seq<nat>, data: seq<real>)
  {
    predicate WellFormed() {
      |data| == Product(shape)
    }

    /** Columns of the array as `fit` and `transform` see it: a rank-1
        array is read as a single column. The entries of a well-formed
        array of rank 1 or 2 are exactly its complete rows. */
    function Cols(): (c: nat)
      requires 1 <= |shape|
      ensures WellFormed() && |shape| <= 2 && c >= 1 ==> RowCount(|data|, c) * c == |data|
    {
      if |shape| == 1 then
        RowCountOfMultiple(shape[0], 1);
        ProductOfShape(shape);
        1
      else
        RowCountOfMultiple(shape[0], shape[1]);
        ProductOfShape(shape);
        shape[1]
    }

    /** `X[:, j]`: in row-major data, entry k lies in column k % Cols(). */
    function Column(j: nat): seq<real>
      requires 1 <= |shape| && j < Cols()
    {
      ColumnOf(data, Cols(), j)
    }
  }

  function Product(shape: seq<nat>): nat {
    if shape == [] then 1 else shape[0] * Product(shape[1..])
  }

  /** Column j of row-major data with `cols` entries per row. */
  function ColumnOf(data: seq<real>, cols: nat, j: nat): (col: seq<real>)
    requires j < cols
    ensures |col| == RowCount(|data|, cols)
    decreases |data|
  {
    if |data| < cols then [] else [data[j]] + ColumnOf(data[cols..], cols, j)
  }

  /** Number of complete rows of `cols` entries in `n` entries. */
  function RowCount(n: nat, cols: nat): nat
    requires cols >= 1
    decreases n
  {
    if n < cols then 0 else 1 + RowCount(n - cols, cols)
  }

  /** The number of entries of a rank-1 or rank-2 array. */
  lemma ProductOfShape(shape: seq<nat>)
    ensures |shape| == 1 ==> Product(shape) == shape[0]
    ensures |shape| == 2 ==> Product(shape) == shape[0] * shape[1]
  {
    if |shape| == 1 {
      assert shape[1..] == [];
      assert Product(shape) == shape[0] * 1;
    } else if |shape| == 2 {
      var tail := shape[1..];
      assert tail[1..] == [];
      assert Product(tail) == shape[1] * 1;
      assert Product(shape) == shape[0] * Product(tail);
    }
  }

  /** r complete rows of c entries make r rows. */
  lemma {:induction false} RowCountOfMultiple(r: nat, c: nat)
    ensures c >= 1 ==> RowCount(r * c, c) == r
  {
    if r > 0 && c >= 1 {
      assert r * c == (r - 1) * c + c;
      RowCountOfMultiple(r - 1, c);
    }
  }

  /** Entry i of column j is entry i * cols + j of the data. */
  lemma {:induction false} ColumnOfIndex(data: seq<real>, cols: nat, j: nat, i: nat, k: nat)
    requires j < cols && i < |ColumnOf(data, cols, j)| && k == i * cols + j
    ensures k < |data| && ColumnOf(data, cols, j)[i] == data[k]
    decreases |data|
  {
    if i > 0 {
      assert i * cols == (i - 1) * cols + cols;
      ColumnOfIndex(data[cols..], cols, j, i - 1, k - cols);
    }
  }

  /** The errors the scaler raises: `ValueError("input shape not
      supported")`, `ValueError("Expected {} features. Got {}")`, and the
      attribute error of `transform` before any `fit`. */
  datatype ScalerError = ShapeNotSupported | FeatureMismatch(expected: nat, got: nat) | NotFitted

  datatype Result<T> = Success(value: T) | Failure(error: ScalerError)

  /** The columns `fit` can process: finite values (all reals are) on which
      the derivative rank of the sorted column is defined. */
  predicate Fittable(X: NdArray, d: nat, eps: real, argsort: seq<real> -> seq<nat>)
    requires X.WellFormed() && 1 <= |X.shape| <= 2 && IsArgSort(argsort)
  {
    X.Cols() >= 1 && forall j :: 0 <= j < X.Cols() ==> Defined(Sort(X.Column(j)), d, eps, argsort)
  }

  /** `X_fit` as `fit` computes it: every column of X, sorted. */
  function SortedColumns(X: NdArray): (cs: seq<seq<real>>)
    requires 1 <= |X.shape|
    ensures |cs| == X.Cols()
    ensures forall j :: 0 <= j < |cs| ==>
      |cs[j]| == RowCount(|X.data|, X.Cols()) && Sorted(cs[j]) && multiset(cs[j]) == multiset(X.Column(j))
  {
    seq(X.Cols(), j requires 0 <= j < X.Cols() => Sort(X.Column(j)))
  }

  /** `Y_fit` as `fit` computes it from `X_fit`: the rank of every column. */
  function ColumnRanks(cs: seq<seq<real>>, d: nat, eps: real, argsort: seq<real> -> seq<nat>): (ys: seq<seq<real>>)
    requires IsArgSort(argsort) && forall j :: 0 <= j < |cs| ==> Defined(cs[j], d, eps, argsort)
    ensures |ys| == |cs|
    ensures forall j :: 0 <= j < |cs| ==> |ys[j]| == |cs[j]| >= 1 && MaxAbs(ys[j]) == 1.0
    ensures forall j :: 0 <= j < |cs| && NonNegative(cs[j]) ==> NonNegative(ys[j])
  {
    seq(|cs|, j requires 0 <= j < |cs| => DerivateRank(cs[j], d, eps, argsort))
  }

  /** With eps >= 0 the ranks of the fitted columns are the same for every
      argsort, so the order numpy gives to ties never shows in `Y_fit`. */
  lemma ColumnRanksAnyArgSort(cs: seq<seq<real>>, d: nat, eps: real,
                              a1: seq<real> -> seq<nat>, a2: seq<real> -> seq<nat>)
    requires IsArgSort(a1) && IsArgSort(a2) && eps >= 0.0
    requires forall j :: 0 <= j < |cs| ==> Defined(cs[j], d, eps, a1)
    ensures forall j :: 0 <= j < |cs| ==> Defined(cs[j], d, eps, a2)
    ensures ColumnRanks(cs, d, eps, a1) == ColumnRanks(cs, d, eps, a2)
  {
    forall j | 0 <= j < |cs|
      ensures Defined(cs[j], d, eps, a2) && DerivateRank(cs[j], d, eps, a1) == DerivateRank(cs[j], d, eps, a2)
    {
      DerivateRankAnyArgSort(cs[j], d, eps, a1, a2);
    }
  }

  /** A fitted state: at least one column, all columns equally long and
      sorted, each paired with its derivative rank. */
  ghost predicate FittedState(xs: seq<seq<real>>, ys: seq<seq<real>>, d: nat, eps: real,
                              argsort: seq<real> -> seq<nat>)
    requires IsArgSort(argsort)
  {
    |xs| == |ys| >= 1 &&
    (forall j :: 0 <= j < |xs| ==> |xs[j]| == |xs[0]|) &&
    (forall j :: 0 <= j < |xs| ==>
       Sorted(xs[j]) && Defined(xs[j], d, eps, argsort) && ys[j] == DerivateRank(xs[j], d, eps, argsort))
  }

  /** What `fit` computes from a fittable X is a fitted state whose columns
      are the columns of X, each sorted and with the same values. */
  lemma FitIsFitted(X: NdArray, d: nat, eps: real, argsort: seq<real> -> seq<nat>)
    requires IsArgSort(argsort) && X.WellFormed() && 1 <= |X.shape| <= 2 && Fittable(X, d, eps, argsort)
    ensures var xs := SortedColumns(X);
      |xs| == X.Cols() &&
      (forall j :: 0 <= j < |xs| ==> Sorted(xs[j]) && multiset(xs[j]) == multiset(X.Column(j))) &&
      (forall j :: 0 <= j < |xs| ==> Defined(xs[j], d, eps, argsort)) &&
      FittedState(xs, ColumnRanks(xs, d, eps, argsort), d, eps, argsort)
  {
    var cols := X.Cols();
    var xs := SortedColumns(X);
    forall j | 0 <= j < cols
      ensures Sorted(xs[j]) && multiset(xs[j]) == multiset(X.Column(j))
      ensures |xs[j]| == RowCount(|X.data|, cols) && Defined(xs[j], d, eps, argsort)
    {
      var c := X.Column(j);
      assert xs[j] == Sort(c);
    }
  }

  /** In a fitted state `Y_fit` has the shape of `X_fit`, every column of
      it reaches absolute value 1 and stays non-negative over a
      non-negative column; with a non-negative epsilon it is sorted like
      `X_fit` and equal fitted values carry equal ranks. */
  lemma FittedRanks(xs: seq<seq<real>>, ys: seq<seq<real>>, d: nat, eps: real, argsort: seq<real> -> seq<nat>)
    requires IsArgSort(argsort) && FittedState(xs, ys, d, eps, argsort)
    ensures forall j :: 0 <= j < |ys| ==> |ys[j]| == |xs[j]| == |xs[0]| && MaxAbs(ys[j]) == 1.0
    ensures forall j :: 0 <= j < |ys| && NonNegative(xs[j]) ==> NonNegative(ys[j])
    ensures eps >= 0.0 ==> forall j :: 0 <= j < |ys| ==> Sorted(ys[j])
    ensures eps >= 0.0 ==> forall j :: 0 <= j < |ys| ==> SameOnTies(xs[j], ys[j])
  {
    if eps >= 0.0 {
      forall j | 0 <= j < |ys| ensures Sorted(ys[j]) && SameOnTies(xs[j], ys[j]) {
        SortedColumnRank(xs[j], ys[j], d, eps, argsort);
      }
    }
  }

  /** One column of the lemma above. */
  lemma SortedColumnRank(x: seq<real>, y: seq<real>, d: nat, eps: real, argsort: seq<real> -> seq<nat>)
    requires IsArgSort(argsort) && Sorted(x) && Defined(x, d, eps, argsort) && eps >= 0.0
    requires y == DerivateRank(x, d, eps, argsort)
    ensures |y| == |x| && Sorted(y) && SameOnTies(x, y)
  {
    DerivateRankMonotone(x, d, eps, argsort);
    DerivateRankTies(x, d, eps, argsort);
  }

  /** What `transform` needs from `np.interp` at the fitted points: on
      sorted knots, looking up the value of a knot that ends a run of equal
      knots returns that knot's table value (the binary search settles on
      the last knot not above the value). */
  ghost predicate InterpAtKnots(interp: (real, seq<real>, seq<real>) -> real) {
    forall xp: seq<real>, fp: seq<real>, i: nat {:trigger interp(xp[i], xp, fp)} ::
      i < |xp| == |fp| && Sorted(xp) && (i + 1 == |xp| || xp[i] < xp[i + 1]) ==>
        interp(xp[i], xp, fp) == fp[i]
  }

  /** A lookup with what `np.interp` does at its knots: the table value of
      the last knot not above v, and 0 below every knot or on a malformed
      table. */
  function LastAtMost(v: real, xp: seq<real>, fp: seq<real>): real
    decreases |xp|
  {
    if |xp| == 0 || |fp| != |xp| then 0.0
    else if xp[|xp| - 1] <= v then fp[|fp| - 1]
    else LastAtMost(v, xp[..|xp| - 1], fp[..|fp| - 1])
  }

  /** The assumption `LookupAtKnots` makes of the interpolation can be met. */
  lemma LastAtMostAtKnots()
    ensures InterpAtKnots(LastAtMost)
  {
    forall xp: seq<real>, fp: seq<real>, i: nat |
      i < |xp| == |fp| && Sorted(xp) && (i + 1 == |xp| || xp[i] < xp[i + 1])
      ensures LastAtMost(xp[i], xp, fp) == fp[i]
    {
      LastAtMostAtKnot(xp, fp, i);
    }
  }

  /** One knot of the lemma above: every knot after the end of the run of
      xp[i] lies above it, so the lookup settles on position i. */
  lemma {:induction false} LastAtMostAtKnot(xp: seq<real>, fp: seq<real>, i: nat)
    requires i < |xp| == |fp| && Sorted(xp) && (i + 1 == |xp| || xp[i] < xp[i + 1])
    ensures LastAtMost(xp[i], xp, fp) == fp[i]
    decreases |xp|
  {
    var n := |xp| - 1;
    if i < n {
      assert xp[i] < xp[i + 1] <= xp[n];
      LastAtMostAtKnot(xp[..n], fp[..n], i);
    }
  }

  /** With a non-negative epsilon, looking the fitted values up in a fitted
      state gives back their ranks, although the lookup settles on the last
      of several equal fitted values. */
  lemma LookupAtKnots(xs: seq<seq<real>>, ys: seq<seq<real>>, d: nat, eps: real,
                      argsort: seq<real> -> seq<nat>, interp: (real, seq<real>, seq<real>) -> real)
    requires IsArgSort(argsort) && FittedState(xs, ys, d, eps, argsort) && eps >= 0.0
    requires InterpAtKnots(interp)
    ensures forall j, i :: 0 <= j < |xs| && 0 <= i < |xs[j]| ==> interp(xs[j][i], xs[j], ys[j]) == ys[j][i]
  {
    FittedRanks(xs, ys, d, eps, argsort);
    forall j | 0 <= j < |xs|
      ensures forall i :: 0 <= i < |xs[j]| ==> interp(xs[j][i], xs[j], ys[j]) == ys[j][i]
    {
      LookupColumn(xs[j], ys[j], interp);
    }
  }

  /** One column of the lemma above, for any sorted knots whose equal
      values carry equal table values. */
  lemma LookupColumn(x: seq<real>, y: seq<real>, interp: (real, seq<real>, seq<real>) -> real)
    requires |x| == |y| && Sorted(x) && InterpAtKnots(interp) && SameOnTies(x, y)
    ensures forall i :: 0 <= i < |x| ==> interp(x[i], x, y) == y[i]
  {
    forall i | 0 <= i < |x| ensures interp(x[i], x, y) == y[i] {
      var k := EndOfRun(x, i);
      assert interp(x[k], x, y) == y[k];
    }
  }

  /** The last position of the run of values equal to x[i] in sorted x. */
  lemma EndOfRun(x: seq<real>, i: nat) returns (k: nat)
    requires Sorted(x) && i < |x|
    ensures i <= k < |x| && x[k] == x[i] && (k + 1 == |x| || x[k] < x[k + 1])
    decreases |x| - i
  {
    if i + 1 == |x| || x[i] < x[i + 1] {
      k := i;
    } else {
      k := EndOfRun(x, i + 1);
    }
  }

  class DerivativeRankScaler {
    const d: nat
    const epsilon: real
    /** Whether `X_fit` and `Y_fit` exist. */
    var fitted: bool
    /** The columns of `X_fit` and of `Y_fit`. */
    var xFit: seq<seq<real>>
    var yFit: seq<seq<real>>

    /** Before `fit` there are no fitted columns; after it, a fitted state. */
    ghost predicate Valid()
      reads this
    {
      IsArgSort(ArgSort) && epsilon >= 0.0 &&
      (!fitted ==> xFit == [] && yFit == []) &&
      (fitted ==> FittedState(xFit, yFit, d, epsilon, ArgSort))
    }

    constructor (d: nat := 1, epsilon: real := 0.0)
      requires epsilon >= 0.0
      ensures Valid() && !fitted
      ensures this.d == d && this.epsilon == epsilon
    {
      ArgSortIsArgSort();
      this.d := d;
      this.epsilon := epsilon;
      fitted := false;
      xFit, yFit := [], [];
    }

    /** `fit`: rank > 2 is refused before anything changes; otherwise
        every column is sorted and ranked. */
    method Fit(X: NdArray) returns (r: Result<()>)
      requires Valid() && X.WellFormed() && 1 <= |X.shape|
      requires |X.shape| <= 2 ==> Fittable(X, d, epsilon, ArgSort)
      modifies this
      ensures Valid()
      ensures |X.shape| > 2 ==> r == Failure(ShapeNotSupported) && unchanged(this)
      ensures |X.shape| <= 2 ==>
        r == Success(()) && fitted &&
        xFit == SortedColumns(X) && yFit == ColumnRanks(xFit, d, epsilon, ArgSort)
    {
      if |X.shape| > 2 {
        return Failure(ShapeNotSupported);
      }
      FitIsFitted(X, d, epsilon, ArgSort);
      xFit := SortedColumns(X);
      yFit := ColumnRanks(xFit, d, epsilon, ArgSort);
      fitted := true;
      r := Success(());
    }

    /** `transform`: entry (i, j) of the flattened result is the
        interpolation of X[i, j] against the fitted column j. */
    method Transform(X: NdArray, interp: (real, seq<real>, seq<real>) -> real) returns (r: Result<seq<real>>)
      requires Valid() && X.WellFormed() && 1 <= |X.shape| <= 2
      ensures !fitted ==> r == Failure(NotFitted)
      ensures fitted && X.Cols() != |xFit| ==> r == Failure(FeatureMismatch(|xFit|, X.Cols()))
      ensures fitted && X.Cols() == |xFit| ==>
        r.Success? && |r.value| == |X.data| &&
        forall k :: 0 <= k < |X.data| ==>
          r.value[k] == interp(X.data[k], xFit[k % X.Cols()], yFit[k % X.Cols()])
    {
      if !fitted {
        return Failure(NotFitted);
      }
      var cols := X.Cols();
      if cols != |xFit| {
        return Failure(FeatureMismatch(|xFit|, cols));
      }
      // The comprehension reads the fitted columns through locals: a
      // lambda may not read fields.
      var xs, ys := xFit, yFit;
      var out := seq(|X.data|, k requires 0 <= k < |X.data| =>
        interp(X.data[k], xs[k % cols], ys[k % cols]));
      r := Success(out);
    }

    /** `fit_transform`: fit on X, then transform X itself; the column
        count always matches. */
    method FitTransform(X: NdArray, interp: (real, seq<real>, seq<real>) -> real) returns (r: Result<seq<real>>)
      requires Valid() && X.WellFormed() && 1 <= |X.shape|
      requires |X.shape| <= 2 ==> Fittable(X, d, epsilon, ArgSort)
      modifies this
      ensures Valid()
      ensures |X.shape| > 2 ==> r == Failure(ShapeNotSupported) && unchanged(this)
      ensures |X.shape| <= 2 ==>
        fitted && xFit == SortedColumns(X) && yFit == ColumnRanks(xFit, d, epsilon, ArgSort)
      ensures |X.shape| <= 2 ==>
        var (xs, c) := (SortedColumns(X), X.Cols());
        var ys := ColumnRanks(xs, d, epsilon, ArgSort);
        r.Success? && |r.value| == |X.data| &&
        forall k :: 0 <= k < |X.data| ==> r.value[k] == interp(X.data[k], xs[k % c], ys[k % c])
    {
      var fit := Fit(X);
      if fit.Failure? {
        return Failure(fit.error);
      }
      r := Transform(X, interp);
    }

    /** `_reset`: forget the fitted columns. */
    method Reset()
      requires Valid()
      modifies this
      ensures Valid() && !fitted
    {
      fitted := false;
      xFit, yFit := [], [];
    }
  }
}
