/** `MnistDataReader.readData` over the contents of the two files: the image
    file starts with four big-endian `int`s (magic number, item count, rows,
    columns) followed by the pixels of every image in row-major order, one
    unsigned byte each; the label file starts with two big-endian `int`s
    (magic number, label count) followed by one unsigned byte per label.
    Neither magic number is checked, and the label count is compared with the
    item count only by a Java `assert`, which is disabled by default. */
module MnistDataReader {
  import opened Java
  import opened Matrices
  import opened Products

  type Byte = b: int | 0 <= b < 256

  /** `DataInputStream.readUnsignedByte` at position `pos`. */
  function ReadUnsignedByte(bytes: seq<Byte>, pos: nat): (r: Result<Byte>)
    ensures r.Ok? <==> pos < |bytes|
    ensures r.Err? ==> r.error == EndOfFile
    ensures r.Ok? ==> r.value == bytes[pos]
  {
    if pos < |bytes| then Ok(bytes[pos]) else Err(EndOfFile)
  }

  /** The unsigned big-endian value of four bytes. */
  function Word(b0: Byte, b1: Byte, b2: Byte, b3: Byte): int {
    ((b0 * 256 + b1) * 256 + b2) * 256 + b3
  }

  /** The `int` stored at `pos..pos+4`: the four bytes shifted into place in
      32-bit arithmetic, so a first byte of 128 or more gives a negative value. */
  function IntAt(bytes: seq<Byte>, pos: nat): int
    requires pos + 4 <= |bytes|
  {
    Wrap(Word(bytes[pos], bytes[pos + 1], bytes[pos + 2], bytes[pos + 3]))
  }

  /** `DataInputStream.readInt` at position `pos`: fewer than four bytes left
      is the end of the file. */
  function ReadInt(bytes: seq<Byte>, pos: nat): (r: Result<int>)
    ensures r.Ok? <==> pos + 4 <= |bytes|
    ensures r.Err? ==> r.error == EndOfFile
    ensures r.Ok? ==> InRange(r.value)
  {
    if pos + 4 <= |bytes| then Ok(IntAt(bytes, pos)) else Err(EndOfFile)
  }

  /** The four bytes `DataOutputStream.writeInt` produces for `x`. */
  function EncodeInt(x: int): (s: seq<Byte>)
    requires InRange(x)
    ensures |s| == 4
  {
    var u := if x < 0 then x + Modulus else x;
    [u / 0x100_0000, (u / 0x1_0000) % 256, (u / 0x100) % 256, u % 256]
  }

  /** Reading back an encoded `int` gives the `int`. */
  lemma IntRoundTrip(x: int, bytes: seq<Byte>, pos: nat)
    requires InRange(x) && pos + 4 <= |bytes| && bytes[pos..pos + 4] == EncodeInt(x)
    ensures ReadInt(bytes, pos) == Ok(x)
  {
    var u := if x < 0 then x + Modulus else x;
    var e := EncodeInt(x);
    assert bytes[pos] == e[0] && bytes[pos + 1] == e[1] && bytes[pos + 2] == e[2] && bytes[pos + 3] == e[3] by {
      var w := bytes[pos..pos + 4];
      assert w[0] == bytes[pos] && w[1] == bytes[pos + 1] && w[2] == bytes[pos + 2] && w[3] == bytes[pos + 3];
    }
    var q1 := u / 0x100;
    var q2 := q1 / 0x100;
    assert u == q1 * 256 + u % 256;
    assert q1 == q2 * 256 + q1 % 256;
    assert q2 == (q2 / 256) * 256 + q2 % 256;
    assert q2 / 256 == u / 0x100_0000;
    assert q2 % 256 == (u / 0x1_0000) % 256;
    assert Word(e[0], e[1], e[2], e[3]) == u;
  }

  /** The first `n` rows of the grid whose row-major pixels start at `base`. */
  function RowsAt(images: seq<Byte>, base: nat, n: nat, cols: nat): (g: seq<seq<Byte>>)
    requires base + n * cols <= |images|
    ensures |g| == n
    ensures forall r :: 0 <= r < n ==> |g[r]| == cols
  {
    var g := seq(n, r requires 0 <= r < n =>
      MulStep(r, n, cols);
      images[base + r * cols..base + r * cols + cols]);
    forall r | 0 <= r < n
      ensures |g[r]| == cols
    {
      MulStep(r, n, cols);
    }
    g
  }

  /** Item `i` of the files: label byte `8 + i`, pixels from byte
      `16 + i * rows * cols`, distance 0. */
  function ItemAt(images: seq<Byte>, labels: seq<Byte>, i: nat, rows: nat, cols: nat): (m: MnistMatrix)
    requires 8 + i < |labels| && 16 + i * (rows * cols) + rows * cols <= |images|
    ensures Shaped(m) && BytePixels(m) && 0 <= m.imageLabel <= 255 && m.distance == 0
  {
    MnistMatrix(RowsAt(images, 16 + i * (rows * cols), rows, cols), rows, cols, labels[8 + i], 0)
  }

  /** The first `n` items of the files. */
  function Items(images: seq<Byte>, labels: seq<Byte>, n: nat, rows: nat, cols: nat): (s: seq<MnistMatrix>)
    requires 8 + n <= |labels| && 16 + n * (rows * cols) <= |images|
    ensures |s| == n
    ensures forall i :: 0 <= i < n ==>
      && Shaped(s[i]) && BytePixels(s[i]) && 0 <= s[i].imageLabel <= 255 && s[i].distance == 0
  {
    seq(n, i requires 0 <= i < n =>
      MulStep(i, n, rows * cols);
      ItemAt(images, labels, i, rows, cols))
  }

  /** Row `r` of `RowsAt` and the bytes it comes from. */
  lemma RowOf(images: seq<Byte>, base: nat, n: nat, cols: nat, r: nat)
    requires base + n * cols <= |images| && r < n
    ensures r * cols + cols <= n * cols
    ensures RowsAt(images, base, n, cols)[r] == images[base + r * cols..base + r * cols + cols]
  {
    MulStep(r, n, cols);
  }

  /** Item `i` of `Items` and the bytes it comes from. */
  lemma ItemOf(images: seq<Byte>, labels: seq<Byte>, n: nat, rows: nat, cols: nat, i: nat)
    requires 8 + n <= |labels| && 16 + n * (rows * cols) <= |images| && i < n
    ensures i * (rows * cols) + rows * cols <= n * (rows * cols)
    ensures Items(images, labels, n, rows, cols)[i] == ItemAt(images, labels, i, rows, cols)
  {
    MulStep(i, n, rows * cols);
  }

  /** What `readData` returns for the two files, as a layout: a header too
      short for either file is the end of the file; the items follow. */
  function Decode(images: seq<Byte>, labels: seq<Byte>): (r: Result<seq<MnistMatrix>>)
    ensures r.Ok? ==> forall i :: 0 <= i < |r.value| ==>
      && Shaped(r.value[i]) && BytePixels(r.value[i])
      && 0 <= r.value[i].imageLabel <= 255 && r.value[i].distance == 0
  {
    if |images| < 16 || |labels| < 8 then Err(EndOfFile)
    else DecodeItems(images, labels, IntAt(images, 4), IntAt(images, 8), IntAt(images, 12))
  }

  /** The items announced by a header: a negative item count fails to
      allocate the result array, and negative dimensions fail to allocate the
      first image; otherwise the items are decoded when both files hold
      enough bytes for them, and it is the end of a file if not. */
  function DecodeItems(images: seq<Byte>, labels: seq<Byte>, count: int, rows: int, cols: int)
    : (r: Result<seq<MnistMatrix>>)
    ensures r.Ok? ==> forall i :: 0 <= i < |r.value| ==>
      && Shaped(r.value[i]) && BytePixels(r.value[i])
      && 0 <= r.value[i].imageLabel <= 255 && r.value[i].distance == 0
  {
    if count < 0 then Err(NegativeArraySize)
    else if count == 0 then Ok([])
    else if rows < 0 || cols < 0 then Err(NegativeArraySize)
    else if 8 + count > |labels| || 16 + count * (rows * cols) > |images| then Err(EndOfFile)
    else Ok(Items(images, labels, count, rows, cols))
  }

  /** The byte position of pixel `(r, c)` of item `i` in the image file. */
  function PixelOffset(i: nat, rows: nat, cols: nat, r: nat, c: nat): nat {
    16 + i * (rows * cols) + r * cols + c
  }

  /** The decoded layout: as many items as the header's count; item `i` has
      the header's dimensions, label byte `8 + i` and pixel `(r, c)` from
      byte `16 + i * rows * cols + r * cols + c`. */
  lemma DecodeLayout(images: seq<Byte>, labels: seq<Byte>, i: nat, r: nat, c: nat)
    requires Decode(images, labels).Ok?
    requires i < |Decode(images, labels).value|
    ensures |Decode(images, labels).value| == IntAt(images, 4)
    ensures var m := Decode(images, labels).value[i];
      && m.nRows == IntAt(images, 8) && m.nCols == IntAt(images, 12)
      && m.imageLabel == labels[8 + i]
      && (r < m.nRows && c < m.nCols ==>
          PixelOffset(i, m.nRows, m.nCols, r, c) < |images|
          && m.data[r][c] == images[PixelOffset(i, m.nRows, m.nCols, r, c)])
  {
    ItemsLayout(images, labels, IntAt(images, 4), IntAt(images, 8), IntAt(images, 12), i, r, c);
  }

  lemma ItemsLayout(images: seq<Byte>, labels: seq<Byte>, count: int, rows: int, cols: int, i: nat, r: nat, c: nat)
    requires DecodeItems(images, labels, count, rows, cols).Ok?
    requires i < |DecodeItems(images, labels, count, rows, cols).value|
    ensures |DecodeItems(images, labels, count, rows, cols).value| == count
    ensures var m := DecodeItems(images, labels, count, rows, cols).value[i];
      && m.nRows == rows && m.nCols == cols
      && m.imageLabel == labels[8 + i]
      && (r < rows && c < cols ==>
          PixelOffset(i, rows, cols, r, c) < |images|
          && m.data[r][c] == images[PixelOffset(i, rows, cols, r, c)])
  {
    var items := Items(images, labels, count, rows, cols);
    assert DecodeItems(images, labels, count, rows, cols) == Ok(items);
    ItemOf(images, labels, count, rows, cols, i);
    if r < rows && c < cols {
      PixelOf(images, 16 + i * (rows * cols), rows, cols, r, c);
    }
  }

  /** Pixel `(r, c)` of `RowsAt` and the byte it comes from. */
  lemma PixelOf(images: seq<Byte>, base: nat, n: nat, cols: nat, r: nat, c: nat)
    requires base + n * cols <= |images| && r < n && c < cols
    ensures base + r * cols + c < |images|
    ensures RowsAt(images, base, n, cols)[r][c] == images[base + r * cols + c]
  {
    RowOf(images, base, n, cols, r);
  }

  /** The pixel loops of `readData` for one image: `rows * cols` unsigned
      bytes from position `pos`, written cell by cell in row-major order.
      It is the end of the file unless all of them are there. */
  method ReadPixels(images: seq<Byte>, pos: nat, m: MnistMatrix) returns (r: Result<MnistMatrix>)
    requires Shaped(m) && pos <= |images|
    ensures r.Err? <==> pos + m.nRows * m.nCols > |images|
    ensures r.Err? ==> r.error == EndOfFile
    ensures r.Ok? ==> r.value == m.(data := RowsAt(images, pos, m.nRows, m.nCols))
  {
    var mnistMatrix := m;
    var dataPos := pos;
    var row := 0;
    while row < m.nRows
      invariant 0 <= row <= m.nRows
      invariant dataPos == pos + row * m.nCols && dataPos <= |images|
      invariant Shaped(mnistMatrix) && mnistMatrix == m.(data := mnistMatrix.data)
      invariant mnistMatrix.data[..row] == RowsAt(images, pos, row, m.nCols)
    {
      var filled := ReadRow(images, dataPos, mnistMatrix, row);
      if filled.Err? {
        MulStep(row, m.nRows, m.nCols);
        return Err(filled.error);
      }
      RowsAtSnoc(images, pos, row, m.nCols, mnistMatrix.data, dataPos);
      mnistMatrix := filled.value;
      dataPos := dataPos + m.nCols;
      row := row + 1;
    }
    assert mnistMatrix.data == mnistMatrix.data[..m.nRows];
    return Ok(mnistMatrix);
  }

  /** The inner pixel loop of `readData`: the cells of row `row`, left to
      right, from the bytes at `start`. */
  method ReadRow(images: seq<Byte>, start: nat, m: MnistMatrix, row: nat) returns (r: Result<MnistMatrix>)
    requires Shaped(m) && row < m.nRows && start <= |images|
    ensures r.Err? <==> start + m.nCols > |images|
    ensures r.Err? ==> r.error == EndOfFile
    ensures r.Ok? ==> r.value == m.(data := m.data[row := images[start..start + m.nCols]])
  {
    var mnistMatrix := m;
    var dataPos := start;
    var col := 0;
    while col < m.nCols
      invariant 0 <= col <= m.nCols
      invariant dataPos == start + col && dataPos <= |images|
      invariant Shaped(mnistMatrix) && mnistMatrix == m.(data := mnistMatrix.data)
      invariant forall k :: 0 <= k < m.nRows && k != row ==> mnistMatrix.data[k] == m.data[k]
      invariant forall k :: 0 <= k < col ==> mnistMatrix.data[row][k] == images[start + k]
    {
      var pixel := ReadUnsignedByte(images, dataPos);
      if pixel.Err? {
        return Err(pixel.error);
      }
      mnistMatrix := SetValue(mnistMatrix, row, col, pixel.value);
      dataPos := dataPos + 1;
      col := col + 1;
    }
    assert mnistMatrix.data[row] == images[start..start + m.nCols];
    assert mnistMatrix.data == m.data[row := images[start..start + m.nCols]];
    return Ok(mnistMatrix);
  }

  /** Appending the next `cols` bytes as row `n` of a grid whose first `n`
      rows are `RowsAt` gives `n + 1` rows of `RowsAt`. */
  lemma RowsAtSnoc(images: seq<Byte>, base: nat, n: nat, cols: nat, g: seq<seq<int>>, start: nat)
    requires start == base + n * cols && start + cols <= |images|
    requires |g| > n && g[..n] == RowsAt(images, base, n, cols)
    ensures start + cols == base + (n + 1) * cols
    ensures g[n := images[start..start + cols]][..n + 1] == RowsAt(images, base, n + 1, cols)
  {
    MulSucc(n, cols);
    var g' := g[n := images[start..start + cols]];
    var next := RowsAt(images, base, n + 1, cols);
    forall r | 0 <= r < n + 1
      ensures g'[r] == next[r]
    {
      RowOf(images, base, n + 1, cols, r);
      if r < n {
        RowOf(images, base, n, cols, r);
        assert g'[r] == g[..n][r];
      }
    }
  }

  /** The item loop of `readData` for a header announcing `count` images of
      `rows x cols`: each is allocated, labelled from the next label byte and
      filled from the next image bytes. */
  method ReadItems(images: seq<Byte>, labels: seq<Byte>, numberOfItems: int, nRows: int, nCols: int)
    returns (r: Result<seq<MnistMatrix>>)
    requires |images| >= 16 && |labels| >= 8
    ensures r == DecodeItems(images, labels, numberOfItems, nRows, nCols)
  {
    if numberOfItems < 0 {
      return Err(NegativeArraySize);
    }
    var data: seq<MnistMatrix> := [];
    var dataPos: nat := 16;
    var labelPos: nat := 8;
    var i := 0;
    while i < numberOfItems
      invariant 0 <= i <= numberOfItems
      invariant labelPos == 8 + i && labelPos <= |labels|
      invariant dataPos <= |images|
      invariant i == 0 ==> dataPos == 16 && data == []
      invariant i > 0 ==> nRows >= 0 && nCols >= 0
      invariant i > 0 ==> dataPos == 16 + i * (nRows * nCols)
      invariant i > 0 ==> data == Items(images, labels, i, nRows, nCols)
    {
      var mnistMatrix :- New(nRows, nCols);
      var lbl :- ReadUnsignedByte(labels, labelPos);
      labelPos := labelPos + 1;
      mnistMatrix := SetLabel(mnistMatrix, lbl);
      var filled := ReadPixels(images, dataPos, mnistMatrix);
      if filled.Err? {
        MulStep(i, numberOfItems, nRows * nCols);
        return Err(filled.error);
      }
      ItemsSnoc(images, labels, i, nRows, nCols, dataPos);
      mnistMatrix := filled.value;
      dataPos := dataPos + nRows * nCols;
      data := data + [mnistMatrix];
      i := i + 1;
    }
    return Ok(data);
  }

  /** One more item: it follows the first `n` in both files. */
  lemma ItemsSnoc(images: seq<Byte>, labels: seq<Byte>, n: nat, rows: nat, cols: nat, pos: nat)
    requires pos == 16 + n * (rows * cols) && pos + rows * cols <= |images| && 8 + n < |labels|
    ensures pos + rows * cols == 16 + (n + 1) * (rows * cols)
    ensures Items(images, labels, n + 1, rows, cols)
         == Items(images, labels, n, rows, cols) + [ItemAt(images, labels, n, rows, cols)]
  {
    MulSucc(n, rows * cols);
    var next := Items(images, labels, n + 1, rows, cols);
    forall k | 0 <= k < n + 1
      ensures next[k] == (Items(images, labels, n, rows, cols) + [ItemAt(images, labels, n, rows, cols)])[k]
    {
      ItemOf(images, labels, n + 1, rows, cols, k);
      if k < n {
        ItemOf(images, labels, n, rows, cols, k);
      }
    }
  }

  /** `readData` as written: the header reads in the order of the source,
      then the item loop. Its result is exactly the decoded layout. */
  method ReadData(images: seq<Byte>, labels: seq<Byte>) returns (r: Result<seq<MnistMatrix>>)
    ensures r == Decode(images, labels)
  {
    var magicNumber :- ReadInt(images, 0);
    var numberOfItems :- ReadInt(images, 4);
    var nRows :- ReadInt(images, 8);
    var nCols :- ReadInt(images, 12);
    var labelMagicNumber :- ReadInt(labels, 0);
    var numberOfLabels :- ReadInt(labels, 4);
    r := ReadItems(images, labels, numberOfItems, nRows, nCols);
  }

  /** Neither magic number nor the label file's count takes part in
      decoding: files that differ only there decode alike. */
  lemma HeaderFieldsIgnored(images: seq<Byte>, labels: seq<Byte>, images': seq<Byte>, labels': seq<Byte>)
    requires |images| == |images'| && |labels| == |labels'|
    requires |images| >= 4 && images[4..] == images'[4..]
    requires |labels| >= 8 && labels[8..] == labels'[8..]
    ensures Decode(images, labels) == Decode(images', labels')
  {
    assert forall k :: 4 <= k < |images| ==> images[k] == images'[k] by {
      forall k | 4 <= k < |images| ensures images[k] == images'[k] {
        assert images[4..][k - 4] == images'[4..][k - 4];
      }
    }
    assert forall k :: 8 <= k < |labels| ==> labels[k] == labels'[k] by {
      forall k | 8 <= k < |labels| ensures labels[k] == labels'[k] {
        assert labels[8..][k - 8] == labels'[8..][k - 8];
      }
    }
    if |images| >= 16 && |labels| >= 8 {
      var count := IntAt(images, 4);
      var rows := IntAt(images, 8);
      var cols := IntAt(images, 12);
      assert IntAt(images', 4) == count && IntAt(images', 8) == rows && IntAt(images', 12) == cols;
      if count > 0 && rows >= 0 && cols >= 0 && 8 + count <= |labels| && 16 + count * (rows * cols) <= |images| {
        ItemsAgree(images, labels, images', labels', count, rows, cols);
      }
    }
  }

  lemma ItemsAgree(images: seq<Byte>, labels: seq<Byte>, images': seq<Byte>, labels': seq<Byte>,
                   n: nat, rows: nat, cols: nat)
    requires |images| == |images'| && |labels| == |labels'|
    requires 8 + n <= |labels| && 16 + n * (rows * cols) <= |images|
    requires forall k :: 16 <= k < |images| ==> images[k] == images'[k]
    requires forall k :: 8 <= k < |labels| ==> labels[k] == labels'[k]
    ensures Items(images, labels, n, rows, cols) == Items(images', labels', n, rows, cols)
  {
    forall i | 0 <= i < n
      ensures Items(images, labels, n, rows, cols)[i] == Items(images', labels', n, rows, cols)[i]
    {
      ItemOf(images, labels, n, rows, cols, i);
      ItemOf(images', labels', n, rows, cols, i);
      ItemAgrees(images, labels, images', labels', i, rows, cols);
    }
  }

  lemma ItemAgrees(images: seq<Byte>, labels: seq<Byte>, images': seq<Byte>, labels': seq<Byte>,
                   i: nat, rows: nat, cols: nat)
    requires |images| == |images'| && |labels| == |labels'|
    requires 8 + i < |labels| && 16 + i * (rows * cols) + rows * cols <= |images|
    requires forall k :: 16 <= k < |images| ==> images[k] == images'[k]
    requires forall k :: 8 <= k < |labels| ==> labels[k] == labels'[k]
    ensures ItemAt(images, labels, i, rows, cols) == ItemAt(images', labels', i, rows, cols)
  {
    RowsAgree(images, images', 16 + i * (rows * cols), rows, cols);
  }

  lemma RowsAgree(images: seq<Byte>, images': seq<Byte>, base: nat, rows: nat, cols: nat)
    requires |images| == |images'| && 16 <= base && base + rows * cols <= |images|
    requires forall k :: 16 <= k < |images| ==> images[k] == images'[k]
    ensures RowsAt(images, base, rows, cols) == RowsAt(images', base, rows, cols)
  {
    forall r | 0 <= r < rows
      ensures RowsAt(images, base, rows, cols)[r] == RowsAt(images', base, rows, cols)[r]
    {
      RowAgrees(images, images', base, rows, cols, r);
    }
  }

  lemma RowAgrees(images: seq<Byte>, images': seq<Byte>, base: nat, rows: nat, cols: nat, r: nat)
    requires |images| == |images'| && 16 <= base && base + rows * cols <= |images| && r < rows
    requires forall k :: 16 <= k < |images| ==> images[k] == images'[k]
    ensures RowsAt(images, base, rows, cols)[r] == RowsAt(images', base, rows, cols)[r]
  {
    RowOf(images, base, rows, cols, r);
    RowOf(images', base, rows, cols, r);
    SliceAgrees(images, images', base + r * cols, cols);
  }

  lemma SliceAgrees(images: seq<Byte>, images': seq<Byte>, lo: nat, len: nat)
    requires |images| == |images'| && 16 <= lo && lo + len <= |images|
    requires forall k :: 16 <= k < |images| ==> images[k] == images'[k]
    ensures images[lo..lo + len] == images'[lo..lo + len]
  {
    var s, s' := images[lo..lo + len], images'[lo..lo + len];
    assert forall k :: 0 <= k < len ==> s[k] == s'[k];
  }

  /** Labels past the ones the items use are never read. */
  lemma SurplusLabelsIgnored(images: seq<Byte>, labels: seq<Byte>, extra: seq<Byte>)
    requires Decode(images, labels).Ok?
    ensures Decode(images, labels + extra) == Decode(images, labels)
  {
    var labels' := labels + extra;
    var count := IntAt(images, 4);
    var rows := IntAt(images, 8);
    var cols := IntAt(images, 12);
    if count > 0 {
      assert 16 + count * (rows * cols) <= |images| && 8 + count <= |labels|;
      forall i | 0 <= i < count
        ensures Items(images, labels, count, rows, cols)[i] == Items(images, labels', count, rows, cols)[i]
      {
        ItemOf(images, labels, count, rows, cols, i);
        ItemOf(images, labels', count, rows, cols, i);
        assert labels'[8 + i] == labels[8 + i];
      }
      assert Items(images, labels, count, rows, cols) == Items(images, labels', count, rows, cols);
    }
  }

  /** Every cell of the row is an unsigned byte. */
  predicate ByteRow(row: seq<int>) {
    forall c :: 0 <= c < |row| ==> 0 <= row[c] <= 255
  }

  /** `rows` rows of `cols` cells each. */
  predicate Sized(m: MnistMatrix, rows: nat, cols: nat) {
    && |m.data| == rows && m.nRows == rows && m.nCols == cols
    && forall r :: 0 <= r < rows ==> |m.data[r]| == cols
  }

  /** An image the layout can carry unchanged: the given dimensions, byte
      pixels and a byte label, no distance yet. */
  predicate Encodable(m: MnistMatrix, rows: nat, cols: nat) {
    && Sized(m, rows, cols)
    && (forall r :: 0 <= r < rows ==> ByteRow(m.data[r]))
    && 0 <= m.imageLabel <= 255 && m.distance == 0
  }

  predicate AllSized(items: seq<MnistMatrix>, rows: nat, cols: nat) {
    forall k :: 0 <= k < |items| ==> Sized(items[k], rows, cols)
  }

  predicate AllEncodable(items: seq<MnistMatrix>, rows: nat, cols: nat) {
    forall k :: 0 <= k < |items| ==> Encodable(items[k], rows, cols)
  }

  /** `DataOutputStream.writeByte` writes the low eight bits of its argument. */
  function LowByte(x: int): (b: Byte)
    ensures 0 <= x <= 255 ==> b == x
  {
    x % 256
  }

  /** The bytes `writeByte` writes for one row, cell by cell. */
  function RowBytes(row: seq<int>): (s: seq<Byte>)
    ensures |s| == |row|
    ensures ByteRow(row) ==> s == row
  {
    seq(|row|, c requires 0 <= c < |row| => LowByte(row[c]))
  }

  /** The bytes of the first `n` rows, row-major. */
  function GridBytes(g: seq<seq<int>>, n: nat): seq<Byte>
    requires n <= |g|
  {
    if n == 0 then [] else GridBytes(g, n - 1) + RowBytes(g[n - 1])
  }

  /** `n` rows of `cols` cells take `n * cols` bytes. */
  lemma {:induction false} GridBytesLength(g: seq<seq<int>>, n: nat, cols: nat)
    requires n <= |g|
    requires forall k :: 0 <= k < |g| ==> |g[k]| == cols
    ensures |GridBytes(g, n)| == n * cols
  {
    if n > 0 {
      GridBytesLength(g, n - 1, cols);
      MulSucc(n - 1, cols);
    }
  }

  /** Row `r` of a `cols`-wide grid occupies bytes `[r * cols, (r + 1) * cols)`,
      and a row of bytes is written unchanged. */
  lemma {:induction false} GridBytesRow(g: seq<seq<int>>, n: nat, cols: nat, r: nat, lo: nat)
    requires n <= |g| && r < n && lo == r * cols
    requires forall k :: 0 <= k < |g| ==> |g[k]| == cols
    requires ByteRow(g[r])
    ensures lo + cols <= |GridBytes(g, n)|
    ensures GridBytes(g, n)[lo..lo + cols] == g[r]
  {
    var front := GridBytes(g, n - 1);
    var last := RowBytes(g[n - 1]);
    if r < n - 1 {
      GridBytesRow(g, n - 1, cols, r, lo);
      BlockOfConcat(front, last, lo, cols, g[r], true);
    } else {
      GridBytesLength(g, n - 1, cols);
      BlockOfConcat(front, last, lo, cols, g[r], false);
    }
  }

  /** A slice inside the first part of a concatenation. */
  lemma SliceOfConcat<T>(a: seq<T>, b: seq<T>, lo: nat, len: nat)
    requires lo + len <= |a|
    ensures (a + b)[lo..lo + len] == a[lo..lo + len]
  {
    var s, t := (a + b)[lo..lo + len], a[lo..lo + len];
    assert forall k :: 0 <= k < len ==> s[k] == t[k];
  }

  /** The second part of a concatenation. */
  lemma SliceAfter<T>(a: seq<T>, b: seq<T>)
    ensures (a + b)[|a|..|a| + |b|] == b
  {
  }

  /** The pixel bytes of one image, row-major. */
  function ImageBytes(m: MnistMatrix): seq<Byte> {
    GridBytes(m.data, |m.data|)
  }

  /** The pixel bytes of the first `n` images, one after the other. */
  function ItemsBytes(items: seq<MnistMatrix>, n: nat): seq<Byte>
    requires n <= |items|
  {
    if n == 0 then [] else ItemsBytes(items, n - 1) + ImageBytes(items[n - 1])
  }

  /** A `rows x cols` image takes `rows * cols` bytes. */
  lemma ImageBytesLength(m: MnistMatrix, rows: nat, cols: nat)
    requires Sized(m, rows, cols)
    ensures |ImageBytes(m)| == rows * cols
  {
    GridBytesLength(m.data, rows, cols);
  }

  /** `n` images of `rows x cols` take `n * rows * cols` bytes. */
  lemma {:induction false} ItemsBytesLength(items: seq<MnistMatrix>, n: nat, rows: nat, cols: nat)
    requires n <= |items| && AllSized(items, rows, cols)
    ensures |ItemsBytes(items, n)| == n * (rows * cols)
  {
    if n > 0 {
      ItemsBytesLength(items, n - 1, rows, cols);
      ImageBytesLength(items[n - 1], rows, cols);
      MulSucc(n - 1, rows * cols);
    }
  }

  /** Image `i` occupies bytes `[i * size, (i + 1) * size)`. */
  lemma {:induction false} ItemsBytesBlock(items: seq<MnistMatrix>, n: nat, rows: nat, cols: nat, i: nat)
    returns (lo: nat)
    requires n <= |items| && AllSized(items, rows, cols) && i < n
    ensures lo == i * (rows * cols)
    ensures lo + rows * cols <= |ItemsBytes(items, n)|
    ensures ItemsBytes(items, n)[lo..lo + rows * cols] == ImageBytes(items[i])
  {
    var size := rows * cols;
    var front := ItemsBytes(items, n - 1);
    var last := ImageBytes(items[n - 1]);
    ImageBytesLength(items[n - 1], rows, cols);
    if i < n - 1 {
      lo := ItemsBytesBlock(items, n - 1, rows, cols, i);
      BlockOfConcat(front, last, lo, size, ImageBytes(items[i]), true);
    } else {
      ItemsBytesLength(items, n - 1, rows, cols);
      lo := |front|;
      BlockOfConcat(front, last, lo, size, last, false);
    }
  }

  /** A block of `w` elements at `lo` of `front + last`, where `last` has
      `w` elements: inside `front`, or all of `last`. */
  lemma BlockOfConcat<T>(front: seq<T>, last: seq<T>, lo: nat, w: nat, block: seq<T>, inFront: bool)
    requires |last| == w
    requires inFront ==> lo + w <= |front| && front[lo..lo + w] == block
    requires !inFront ==> lo == |front| && last == block
    ensures lo + w <= |front + last| && (front + last)[lo..lo + w] == block
  {
    if inFront {
      SliceOfConcat(front, last, lo, w);
    } else {
      SliceAfter(front, last);
    }
  }

  /** The image file `DataOutputStream` would write for `items`: the header
      of `readData` and every image's cells as bytes. */
  function EncodeImages(magic: int, rows: nat, cols: nat, items: seq<MnistMatrix>): seq<Byte>
    requires InRange(magic) && rows <= MaxInt && cols <= MaxInt && |items| <= MaxInt
  {
    EncodeInt(magic) + EncodeInt(|items|) + EncodeInt(rows) + EncodeInt(cols)
      + ItemsBytes(items, |items|)
  }

  /** The label file `DataOutputStream` would write for `items`. */
  function EncodeLabels(magic: int, items: seq<MnistMatrix>): seq<Byte>
    requires InRange(magic) && |items| <= MaxInt
  {
    EncodeInt(magic) + EncodeInt(|items|)
      + seq(|items|, k requires 0 <= k < |items| => LowByte(items[k].imageLabel))
  }

  /** The four header fields of an encoded image file read back. */
  lemma HeaderRoundTrip(magic: int, rows: nat, cols: nat, items: seq<MnistMatrix>)
    requires InRange(magic) && rows <= MaxInt && cols <= MaxInt && |items| <= MaxInt
    ensures var images := EncodeImages(magic, rows, cols, items);
      && |images| >= 16
      && IntAt(images, 4) == |items| && IntAt(images, 8) == rows && IntAt(images, 12) == cols
      && images[16..] == ItemsBytes(items, |items|)
  {
    var images := EncodeImages(magic, rows, cols, items);
    assert images[4..8] == EncodeInt(|items|);
    assert images[8..12] == EncodeInt(rows);
    assert images[12..16] == EncodeInt(cols);
    IntRoundTrip(|items|, images, 4);
    IntRoundTrip(rows, images, 8);
    IntRoundTrip(cols, images, 12);
  }

  /** Decoding what the encoder writes gives back the images, whatever the
      magic numbers. */
  lemma RoundTrip(magic: int, labelMagic: int, rows: nat, cols: nat, items: seq<MnistMatrix>)
    requires InRange(magic) && InRange(labelMagic) && rows <= MaxInt && cols <= MaxInt && |items| <= MaxInt
    requires AllEncodable(items, rows, cols)
    ensures Decode(EncodeImages(magic, rows, cols, items), EncodeLabels(labelMagic, items)) == Ok(items)
  {
    var images := EncodeImages(magic, rows, cols, items);
    var labels := EncodeLabels(labelMagic, items);
    var n := |items|;
    HeaderRoundTrip(magic, rows, cols, items);
    assert AllSized(items, rows, cols);
    ItemsBytesLength(items, n, rows, cols);
    assert |labels| == 8 + n;
    if n > 0 {
      forall k | 0 <= k < n
        ensures labels[8 + k] == items[k].imageLabel
      {
        assert Encodable(items[k], rows, cols);
        assert labels[8 + k] == labels[8..][k];
      }
      ItemsRoundTrip(images, labels, items, rows, cols);
    }
  }

  /** Every image the encoder wrote is read back. */
  lemma ItemsRoundTrip(images: seq<Byte>, labels: seq<Byte>, items: seq<MnistMatrix>, rows: nat, cols: nat)
    requires AllEncodable(items, rows, cols)
    requires |images| >= 16 && images[16..] == ItemsBytes(items, |items|)
    requires |labels| == 8 + |items|
    requires forall k :: 0 <= k < |items| ==> labels[8 + k] == items[k].imageLabel
    requires 16 + |items| * (rows * cols) <= |images|
    ensures Items(images, labels, |items|, rows, cols) == items
  {
    var n := |items|;
    var decoded := Items(images, labels, n, rows, cols);
    forall i | 0 <= i < n
      ensures decoded[i] == items[i]
    {
      ItemReadBack(images, labels, items, rows, cols, i);
    }
  }

  lemma ItemReadBack(images: seq<Byte>, labels: seq<Byte>, items: seq<MnistMatrix>, rows: nat, cols: nat, i: nat)
    requires AllEncodable(items, rows, cols) && i < |items|
    requires |images| >= 16 && images[16..] == ItemsBytes(items, |items|)
    requires |labels| == 8 + |items|
    requires forall k :: 0 <= k < |items| ==> labels[8 + k] == items[k].imageLabel
    requires 16 + |items| * (rows * cols) <= |images|
    ensures Items(images, labels, |items|, rows, cols)[i] == items[i]
  {
    var n := |items|;
    ItemOf(images, labels, n, rows, cols, i);
    assert AllSized(items, rows, cols);
    var start := ItemsBytesBlock(items, n, rows, cols, i);
    ItemRoundTrip(images, labels, ItemsBytes(items, n), items[i], i, start, rows, cols);
  }

  /** An image whose bytes sit at offset `16 + start` of the image file and
      whose label sits at offset `8 + i` of the label file is read back whole. */
  lemma ItemRoundTrip(images: seq<Byte>, labels: seq<Byte>, body: seq<Byte>, m: MnistMatrix,
                      i: nat, start: nat, rows: nat, cols: nat)
    requires Encodable(m, rows, cols)
    requires |images| >= 16 && images[16..] == body
    requires 8 + i < |labels| && labels[8 + i] == m.imageLabel
    requires start == i * (rows * cols) && start + rows * cols <= |body|
    requires body[start..start + rows * cols] == ImageBytes(m)
    ensures ItemAt(images, labels, i, rows, cols) == m
  {
    var item := ItemAt(images, labels, i, rows, cols);
    forall r | 0 <= r < rows
      ensures item.data[r] == m.data[r]
    {
      RowRoundTrip(images, body, m, start, rows, cols, r);
    }
    assert item.data == m.data;
  }

  /** Row `r` of an image read back from offset `16 + start`. */
  lemma RowRoundTrip(images: seq<Byte>, body: seq<Byte>, m: MnistMatrix, start: nat, rows: nat, cols: nat, r: nat)
    requires Encodable(m, rows, cols) && r < rows
    requires |images| >= 16 && images[16..] == body
    requires start + rows * cols <= |body|
    requires body[start..start + rows * cols] == ImageBytes(m)
    ensures RowsAt(images, 16 + start, rows, cols)[r] == m.data[r]
  {
    MulNonNegative(r, cols);
    GridBytesRow(m.data, rows, cols, r, r * cols);
    RowOf(images, 16 + start, rows, cols, r);
    RowFromBody(images, body, 16 + start, start, rows * cols, ImageBytes(m), r * cols, cols);
  }

  /** The `cols` bytes at offset `off` of an image read from offset
      `16 + start` of the file are the bytes at `off` of the image's bytes. */
  lemma RowFromBody(images: seq<Byte>, body: seq<Byte>, base: nat, start: nat, size: nat,
                    grid: seq<Byte>, off: nat, cols: nat)
    requires |images| >= 16 && images[16..] == body && base == 16 + start
    requires start + size <= |body| && body[start..start + size] == grid
    requires off + cols <= size
    ensures images[base + off..base + off + cols] == grid[off..off + cols]
  {
    var s, t := images[base + off..base + off + cols], grid[off..off + cols];
    forall k | 0 <= k < cols
      ensures s[k] == t[k]
    {
      assert s[k] == images[16..][start + off + k];
      assert t[k] == body[start..start + size][off + k];
    }
  }
}
