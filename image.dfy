/** Pixel buffers as OpenCV and numpy hold them: rows of pixels with three 8-bit channels. */
module Image {
  newtype byte = x: int | 0 <= x < 256

  /** One pixel of a colour image, in OpenCV's blue-green-red channel order. */
  datatype Pixel = Pixel(b: byte, g: byte, r: byte)

  /** What `np.zeros(..., dtype=np.uint8)` fills a buffer with: zero in every channel. */
  const Black := Pixel(0, 0, 0)

  /** An image as a value: a sequence of rows. Used for images the scripts never write to. */
  type Grid<T> = seq<seq<T>>

  /** `g` has `rows` rows of `cols` entries each (numpy's `shape[:2] == (rows, cols)`). */
  predicate Shaped<T>(g: Grid<T>, rows: nat, cols: nat) {
    |g| == rows && forall i :: 0 <= i < rows ==> |g[i]| == cols
  }

  /** The number of columns of a grid (zero for a grid without rows). */
  function Cols<T>(g: Grid<T>): nat {
    if |g| == 0 then 0 else |g[0]|
  }

  /** Every row of `g` is as long as the first. */
  predicate Rectangular<T>(g: Grid<T>) {
    Shaped(g, |g|, Cols(g))
  }

  /** What `cv2.imread` yields for a readable file: a non-empty rectangular image. */
  predicate IsImage<T>(g: Grid<T>) {
    |g| > 0 && |g[0]| > 0 && Rectangular(g)
  }

  /** The contents of a buffer that the scripts update in place. */
  ghost function Contents<T>(a: array2<T>): (g: Grid<T>)
    reads a
    ensures Shaped(g, a.Length0, a.Length1)
    ensures forall i, j :: 0 <= i < a.Length0 && 0 <= j < a.Length1 ==> g[i][j] == a[i, j]
  {
    seq(a.Length0, i requires 0 <= i < a.Length0 reads a =>
      seq(a.Length1, j requires 0 <= j < a.Length1 reads a => a[i, j]))
  }

  /** No two of the buffers are the same object, so writing one leaves the others alone. */
  predicate Distinct<T>(buffers: seq<array2<T>>) {
    forall i, j :: 0 <= i < j < |buffers| ==> buffers[i] != buffers[j]
  }

  /** The contents of each of several buffers. */
  ghost function Snapshot<T>(buffers: seq<array2<T>>): (g: seq<Grid<T>>)
    reads set k | 0 <= k < |buffers| :: buffers[k]
    ensures |g| == |buffers| && forall j :: 0 <= j < |buffers| ==> g[j] == Contents(buffers[j])
  {
    seq(|buffers|, j requires 0 <= j < |buffers| reads set k | 0 <= k < |buffers| :: buffers[k] => Contents(buffers[j]))
  }

  /** Two grids of one shape that agree everywhere are equal. */
  lemma SameGrid<T>(g: Grid<T>, h: Grid<T>, rows: nat, cols: nat)
    requires Shaped(g, rows, cols) && Shaped(h, rows, cols)
    requires forall i, j :: 0 <= i < rows && 0 <= j < cols ==> g[i][j] == h[i][j]
    ensures g == h
  {
    forall i | 0 <= i < rows
      ensures g[i] == h[i]
    {
      assert |g[i]| == cols == |h[i]|;
    }
  }

  /** Nearest-neighbour source index for target index `i` of `n` over a source of length `m`. */
  function Sample(i: nat, n: nat, m: nat): (k: nat)
    requires i < n && 0 < m
    ensures k < m
  {
    SampleBound(i, n, m);
    i * m / n
  }

  lemma SampleBound(i: nat, n: nat, m: nat)
    requires i < n && 0 < m
    ensures i * m / n < m
  {
    var q := i * m / n;
    assert q * n <= i * m;
    assert i * m < n * m by {
      assert (n - i) * m > 0;
    }
  }

  /** Stand-in for `cv2.resize(src, (cols, rows))`: an image of the requested shape.
      The model relies only on the shape; the pixels (sampled nearest-neighbour here,
      interpolated by OpenCV) are not specified. */
  function Resized<T>(src: Grid<T>, rows: nat, cols: nat): (r: Grid<T>)
    requires IsImage(src)
    ensures Shaped(r, rows, cols)
  {
    seq(rows, i requires 0 <= i < rows =>
      seq(cols, j requires 0 <= j < cols => src[Sample(i, rows, |src|)][Sample(j, cols, |src[0]|)]))
  }
}
