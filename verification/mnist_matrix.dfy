/** One MNIST image: a pixel grid whose dimensions are fixed when it is
    created, its label, and the `distance` sort key the recognizer writes
    into it. The Java class is mutable; here every setter returns the
    updated record. */
module Matrices {
  import opened Java

  /** `distance` is a `double` in Java; both metrics produce integral keys
      (the Euclidean key is modelled by its square, see Metrics), so it is an
      `int` here. */
  datatype MnistMatrix = MnistMatrix(data: seq<seq<int>>, nRows: nat, nCols: nat, imageLabel: int, distance: int)

  /** The grid has exactly `nRows` rows of `nCols` cells. */
  predicate Shaped(m: MnistMatrix) {
    && |m.data| == m.nRows
    && forall r :: 0 <= r < |m.data| ==> |m.data[r]| == m.nCols
  }

  predicate SameShape(a: MnistMatrix, b: MnistMatrix) {
    Shaped(a) && Shaped(b) && a.nRows == b.nRows && a.nCols == b.nCols
  }

  predicate InGrid(m: MnistMatrix, r: int, c: int) {
    0 <= r < m.nRows && 0 <= c < m.nCols
  }

  /** Every pixel is an unsigned byte, as the dataset reader produces them. */
  predicate BytePixels(m: MnistMatrix) {
    forall r, c :: 0 <= r < |m.data| && 0 <= c < |m.data[r]| ==> 0 <= m.data[r][c] <= 255
  }

  /** The constructor: `new int[nRows][nCols]` throws for a negative
      dimension; otherwise every cell, the label and the distance start at 0. */
  function New(nRows: int, nCols: int): (r: Result<MnistMatrix>)
    ensures r.Err? <==> nRows < 0 || nCols < 0
    ensures r.Err? ==> r.error == NegativeArraySize
    ensures r.Ok? ==> Shaped(r.value) && r.value.nRows == nRows && r.value.nCols == nCols
    ensures r.Ok? ==> forall i, j :: InGrid(r.value, i, j) ==> r.value.data[i][j] == 0
    ensures r.Ok? ==> r.value.imageLabel == 0 && r.value.distance == 0
  {
    if nRows < 0 || nCols < 0 then Err(NegativeArraySize)
    else Ok(MnistMatrix(seq(nRows, _ => seq(nCols, _ => 0)), nRows, nCols, 0, 0))
  }

  /** Reads one cell of the grid: a pixel of a byte image is a byte. */
  function GetValue(m: MnistMatrix, r: int, c: int): (v: int)
    requires Shaped(m) && InGrid(m, r, c)
    ensures BytePixels(m) ==> 0 <= v <= 255
  {
    m.data[r][c]
  }

  /** Writes one cell; the dimensions, every other cell, the label and the
      distance are untouched. */
  function SetValue(m: MnistMatrix, r: int, c: int, v: int): (m': MnistMatrix)
    requires Shaped(m) && InGrid(m, r, c)
    ensures Shaped(m') && m'.nRows == m.nRows && m'.nCols == m.nCols
    ensures GetValue(m', r, c) == v
    ensures forall i, j :: InGrid(m, i, j) && (i, j) != (r, c) ==> GetValue(m', i, j) == GetValue(m, i, j)
    ensures m'.imageLabel == m.imageLabel && m'.distance == m.distance
  {
    m.(data := m.data[r := m.data[r][c := v]])
  }

  /** Only the label changes. */
  function SetLabel(m: MnistMatrix, newLabel: int): (m': MnistMatrix)
    ensures m'.data == m.data && m'.nRows == m.nRows && m'.nCols == m.nCols
    ensures m'.distance == m.distance
    ensures m'.imageLabel == newLabel
  {
    m.(imageLabel := newLabel)
  }

  /** Only the distance changes. */
  function SetDistance(m: MnistMatrix, distance: int): (m': MnistMatrix)
    ensures m'.data == m.data && m'.nRows == m.nRows && m'.nCols == m.nCols
    ensures m'.imageLabel == m.imageLabel
    ensures m'.distance == distance
  {
    m.(distance := distance)
  }

  /** `Comparable.compareTo`: `Double.compare` on the distances alone. */
  function CompareTo(a: MnistMatrix, b: MnistMatrix): (r: int)
    ensures r < 0 <==> a.distance < b.distance
    ensures r == 0 <==> a.distance == b.distance
    ensures r > 0 <==> a.distance > b.distance
    ensures -1 <= r <= 1
  {
    if a.distance < b.distance then -1 else if a.distance == b.distance then 0 else 1
  }

  /** The ordering is not consistent with equality: two different images at
      the same distance compare as equal, so a sorted set keeps only one. */
  lemma CompareToIgnoresImage()
    ensures exists a: MnistMatrix, b: MnistMatrix :: a != b && CompareTo(a, b) == 0
  {
    var a := MnistMatrix([], 0, 0, 3, 7);
    var b := MnistMatrix([], 0, 0, 5, 7);
    assert a != b && CompareTo(a, b) == 0;
  }
}
