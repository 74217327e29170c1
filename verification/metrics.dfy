/** The two dissimilarity measures between a query image and a training image:
    the taxicab sum of absolute pixel differences and the Euclidean sum of
    squared differences. Both loops in the source run over the TRAINING
    image's dimensions and read the same cells of the query.

    The Euclidean metric ends with `Math.sqrt`; it is modelled by the integer
    sum under the root, which orders images exactly as the root does (the
    root is strictly increasing, and distinct integers below 2^31 have
    distinct double square roots). */
module Metrics {
  import opened Java
  import opened Matrices
  import opened Products

  /** The choice between the two metrics. */
  datatype MetricType = Taxicab | Euclidean

  function Abs(x: int): nat {
    if x < 0 then -x else x
  }

  /** What one pair of pixels adds to a metric's accumulator. */
  function CellCost(metric: MetricType, a: int, b: int): nat {
    match metric
    case Taxicab => Abs(a - b)
    case Euclidean => Abs(a - b) * Abs(a - b)
  }

  /** The largest cost of one cell when both pixels are bytes. */
  function MaxCellCost(metric: MetricType): nat {
    match metric
    case Taxicab => 255
    case Euclidean => 255 * 255
  }

  /** The accumulated cost of the first `n` cells of two rows. */
  function RowSum(metric: MetricType, q: seq<int>, t: seq<int>, n: nat): nat
    requires n <= |q| && n <= |t|
  {
    if n == 0 then 0 else RowSum(metric, q, t, n - 1) + CellCost(metric, q[n - 1], t[n - 1])
  }

  /** The grid has at least `rows` rows of at least `cols` cells. */
  predicate Covers(g: seq<seq<int>>, rows: nat, cols: nat) {
    rows <= |g| && forall r :: 0 <= r < rows ==> cols <= |g[r]|
  }

  /** The accumulated cost of the first `rows` rows, `cols` cells each. */
  function GridSum(metric: MetricType, q: seq<seq<int>>, t: seq<seq<int>>, rows: nat, cols: nat): nat
    requires Covers(q, rows, cols) && Covers(t, rows, cols)
  {
    if rows == 0 then 0
    else GridSum(metric, q, t, rows - 1, cols) + RowSum(metric, q[rows - 1], t[rows - 1], cols)
  }

  /** The distance the recognizer sorts by: the taxicab sum, or the Euclidean
      sum before its square root. */
  function Distance(metric: MetricType, query: MnistMatrix, train: MnistMatrix): (d: nat)
    requires SameShape(query, train)
    ensures d == 0 <==> query.data == train.data
  {
    GridZero(metric, query.data, train.data, train.nRows, train.nCols);
    SameCells(query, train);
    GridSum(metric, query.data, train.data, train.nRows, train.nCols)
  }

  /** Two grids of the same shape are equal exactly when every cell is. */
  lemma SameCells(a: MnistMatrix, b: MnistMatrix)
    requires SameShape(a, b)
    ensures a.data == b.data <==> forall r, c :: InGrid(a, r, c) ==> a.data[r][c] == b.data[r][c]
  {
    if forall r, c :: InGrid(a, r, c) ==> a.data[r][c] == b.data[r][c] {
      forall r | 0 <= r < a.nRows
        ensures a.data[r] == b.data[r]
      {
        assert forall c :: 0 <= c < a.nCols ==> a.data[r][c] == b.data[r][c] by {
          forall c | 0 <= c < a.nCols ensures a.data[r][c] == b.data[r][c] {
            assert InGrid(a, r, c);
          }
        }
      }
    }
  }

  lemma CellZero(metric: MetricType, a: int, b: int)
    ensures CellCost(metric, a, b) == 0 <==> a == b
  {
  }

  /** A row prefix costs nothing exactly when the two rows agree on it. */
  lemma {:induction false} RowZero(metric: MetricType, q: seq<int>, t: seq<int>, n: nat)
    requires n <= |q| && n <= |t|
    ensures RowSum(metric, q, t, n) == 0 <==> forall c :: 0 <= c < n ==> q[c] == t[c]
  {
    if n > 0 {
      RowZero(metric, q, t, n - 1);
      CellZero(metric, q[n - 1], t[n - 1]);
    }
  }

  /** A grid prefix costs nothing exactly when the two grids agree on it. */
  lemma {:induction false} GridZero(metric: MetricType, q: seq<seq<int>>, t: seq<seq<int>>, rows: nat, cols: nat)
    requires Covers(q, rows, cols) && Covers(t, rows, cols)
    ensures GridSum(metric, q, t, rows, cols) == 0 <==>
      forall r, c :: 0 <= r < rows && 0 <= c < cols ==> q[r][c] == t[r][c]
  {
    if rows > 0 {
      GridZero(metric, q, t, rows - 1, cols);
      RowZero(metric, q[rows - 1], t[rows - 1], cols);
    }
  }

  /** Both metrics are symmetric for images of the same shape. */
  lemma DistanceSymmetric(metric: MetricType, a: MnistMatrix, b: MnistMatrix)
    requires SameShape(a, b)
    ensures Distance(metric, a, b) == Distance(metric, b, a)
  {
    GridSymmetric(metric, a.data, b.data, a.nRows, a.nCols);
  }

  lemma {:induction false} RowSymmetric(metric: MetricType, q: seq<int>, t: seq<int>, n: nat)
    requires n <= |q| && n <= |t|
    ensures RowSum(metric, q, t, n) == RowSum(metric, t, q, n)
  {
    if n > 0 {
      RowSymmetric(metric, q, t, n - 1);
      assert CellCost(metric, q[n - 1], t[n - 1]) == CellCost(metric, t[n - 1], q[n - 1]);
    }
  }

  lemma {:induction false} GridSymmetric(metric: MetricType, q: seq<seq<int>>, t: seq<seq<int>>, rows: nat, cols: nat)
    requires Covers(q, rows, cols) && Covers(t, rows, cols)
    ensures GridSum(metric, q, t, rows, cols) == GridSum(metric, t, q, rows, cols)
  {
    if rows > 0 {
      GridSymmetric(metric, q, t, rows - 1, cols);
      RowSymmetric(metric, q[rows - 1], t[rows - 1], cols);
    }
  }

  /** Every image is at distance 0 from itself, under both metrics. */
  lemma DistanceToSelf(metric: MetricType, a: MnistMatrix)
    requires Shaped(a)
    ensures Distance(metric, a, a) == 0
  {
  }

  /** With byte pixels the whole grid costs at most rows * cols * 255 (taxicab)
      or rows * cols * 255^2 (Euclidean). */
  lemma DistanceBound(metric: MetricType, a: MnistMatrix, b: MnistMatrix)
    requires SameShape(a, b) && BytePixels(a) && BytePixels(b)
    ensures Distance(metric, a, b) <= a.nRows * a.nCols * MaxCellCost(metric)
  {
    GridBound(metric, a.data, b.data, a.nRows, a.nCols);
  }

  predicate ByteRows(g: seq<seq<int>>, rows: nat, cols: nat)
    requires Covers(g, rows, cols)
  {
    forall r, c :: 0 <= r < rows && 0 <= c < cols ==> 0 <= g[r][c] <= 255
  }

  lemma CellBound(metric: MetricType, a: int, b: int)
    requires 0 <= a <= 255 && 0 <= b <= 255
    ensures CellCost(metric, a, b) <= MaxCellCost(metric)
  {
    if metric.Euclidean? {
      var d := Abs(a - b);
      assert d <= 255;
      MulMono(d, 255, d);
      MulMono(d, 255, 255);
    }
  }

  lemma {:induction false} RowBound(metric: MetricType, q: seq<int>, t: seq<int>, n: nat)
    requires n <= |q| && n <= |t|
    requires forall c :: 0 <= c < n ==> 0 <= q[c] <= 255 && 0 <= t[c] <= 255
    ensures RowSum(metric, q, t, n) <= n * MaxCellCost(metric)
  {
    if n > 0 {
      RowBound(metric, q, t, n - 1);
      CellBound(metric, q[n - 1], t[n - 1]);
      assert (n - 1) * MaxCellCost(metric) + MaxCellCost(metric) == n * MaxCellCost(metric);
    }
  }

  lemma {:induction false} GridBound(metric: MetricType, q: seq<seq<int>>, t: seq<seq<int>>, rows: nat, cols: nat)
    requires Covers(q, rows, cols) && Covers(t, rows, cols)
    requires ByteRows(q, rows, cols) && ByteRows(t, rows, cols)
    ensures GridSum(metric, q, t, rows, cols) <= rows * cols * MaxCellCost(metric)
  {
    if rows > 0 {
      GridBound(metric, q, t, rows - 1, cols);
      RowBound(metric, q[rows - 1], t[rows - 1], cols);
      assert (rows - 1) * cols * MaxCellCost(metric) + cols * MaxCellCost(metric)
          == rows * cols * MaxCellCost(metric);
    }
  }

  /** Two 28 x 28 MNIST images are at a distance that fits in an `int`
      under both metrics, so neither Java accumulator leaves the range. */
  lemma MnistDistanceFits(metric: MetricType, a: MnistMatrix, b: MnistMatrix)
    requires SameShape(a, b) && BytePixels(a) && BytePixels(b)
    requires a.nRows == 28 && a.nCols == 28
    ensures Distance(metric, a, b) <= MaxInt
    ensures a.nRows * a.nCols * MaxCellCost(metric) <= MaxInt
  {
    DistanceBound(metric, a, b);
  }

  /** `taxicabGeometry` as written: an `int` accumulator, so every `+=` wraps.
      The result is the mathematical sum wrapped to 32 bits, and the sum
      itself whenever rows * cols * 255 fits in an `int`. */
  method TaxicabGeometry(query: MnistMatrix, train: MnistMatrix) returns (sum: int)
    requires SameShape(query, train) && BytePixels(query) && BytePixels(train)
    ensures sum == Wrap(Distance(Taxicab, query, train))
    ensures train.nRows * train.nCols * MaxCellCost(Taxicab) <= MaxInt ==> sum == Distance(Taxicab, query, train)
  {
    sum := 0;
    var r := 0;
    while r < train.nRows
      invariant 0 <= r <= train.nRows
      invariant sum == Wrap(GridSum(Taxicab, query.data, train.data, r, train.nCols))
    {
      sum := TaxicabRow(query, train, r, sum, GridSum(Taxicab, query.data, train.data, r, train.nCols));
      r := r + 1;
    }
    DistanceBound(Taxicab, query, train);
  }

  /** The inner loop of `taxicabGeometry` over row `r`, continuing from an
      accumulator that holds `prior` wrapped to 32 bits. With byte pixels the
      `int` difference of two pixels never wraps. */
  method TaxicabRow(query: MnistMatrix, train: MnistMatrix, r: nat, start: int, ghost prior: nat)
    returns (sum: int)
    requires SameShape(query, train) && BytePixels(query) && BytePixels(train) && r < train.nRows
    requires start == Wrap(prior)
    ensures sum == Wrap(prior + RowSum(Taxicab, query.data[r], train.data[r], train.nCols))
  {
    sum := start;
    var c := 0;
    while c < train.nCols
      invariant 0 <= c <= train.nCols
      invariant sum == Wrap(prior + RowSum(Taxicab, query.data[r], train.data[r], c))
    {
      var d := Abs(GetValue(query, r, c) - GetValue(train, r, c));
      ghost var before := prior + RowSum(Taxicab, query.data[r], train.data[r], c);
      assert before + d == prior + RowSum(Taxicab, query.data[r], train.data[r], c + 1);
      WrapAdd(before, d);
      sum := Wrap(sum + d);
      c := c + 1;
    }
  }

  /** The accumulator of `euclideanDistance` as written: `sum += Math.pow(d, 2)`
      adds in `double` and narrows back to `int`, which clamps instead of
      wrapping. With non-negative terms the result is the mathematical sum
      capped at `MaxInt`, and the sum itself whenever rows * cols * 255^2 fits. */
  method EuclideanAccumulator(query: MnistMatrix, train: MnistMatrix) returns (sum: int)
    requires SameShape(query, train) && BytePixels(query) && BytePixels(train)
    ensures sum == if Distance(Euclidean, query, train) > MaxInt then MaxInt else Distance(Euclidean, query, train)
    ensures train.nRows * train.nCols * MaxCellCost(Euclidean) <= MaxInt ==> sum == Distance(Euclidean, query, train)
  {
    sum := 0;
    var r := 0;
    while r < train.nRows
      invariant 0 <= r <= train.nRows
      invariant sum == Cap(GridSum(Euclidean, query.data, train.data, r, train.nCols))
    {
      sum := EuclideanRow(query, train, r, sum, GridSum(Euclidean, query.data, train.data, r, train.nCols));
      r := r + 1;
    }
    DistanceBound(Euclidean, query, train);
  }

  /** The inner loop of `euclideanDistance` over row `r`, continuing from an
      accumulator that holds `prior` clamped to the `int` range. With byte
      pixels the `int` difference of two pixels never wraps. */
  method EuclideanRow(query: MnistMatrix, train: MnistMatrix, r: nat, start: int, ghost prior: nat)
    returns (sum: int)
    requires SameShape(query, train) && BytePixels(query) && BytePixels(train) && r < train.nRows
    requires start == Cap(prior)
    ensures sum == Cap(prior + RowSum(Euclidean, query.data[r], train.data[r], train.nCols))
  {
    sum := start;
    var c := 0;
    while c < train.nCols
      invariant 0 <= c <= train.nCols
      invariant sum == Cap(prior + RowSum(Euclidean, query.data[r], train.data[r], c))
    {
      var d := GetValue(query, r, c) - GetValue(train, r, c);
      SquareOfAbs(d);
      sum := Saturate(sum + d * d);
      c := c + 1;
    }
  }

  lemma SquareOfAbs(d: int)
    ensures d * d == Abs(d) * Abs(d)
  {
  }

  /** A non-negative sum clamped to the `int` range. */
  function Cap(x: nat): int {
    if x > MaxInt then MaxInt else x
  }
}
