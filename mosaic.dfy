/** mosaic(img, pad) of python/mosaic.py: the images of an n-D array, its
    last two dimensions, laid side by side in a 2-D array that is as square
    as the number of images allows.  Elements are of any type; zero is the
    value numpy's zeros gives that type. */
module Mosaic {
  import opened Bytes

  /** What mosaic lets escape: reshape((-1, nr, nc)) of an image with no
      rows or no columns (ValueError), and m[-1] of an empty divisor list
      (IndexError). */
  datatype MosaicError = ReshapeError | IndexError

  /** The number of elements of an array of this shape. */
  function Count(shape: seq<nat>): nat
  {
    if shape == [] then 1 else Count(shape[..|shape| - 1]) * shape[|shape| - 1]
  }

  /** A numpy array: its shape and its elements in C order. */
  datatype Image<T> = Image(shape: seq<nat>, elems: seq<T>)
  {
    predicate Valid()
    {
      |elems| == Count(shape)
    }

    /** nr, the rows of one image. */
    function Rows(): nat
      requires |shape| >= 2
    {
      shape[|shape| - 2]
    }

    /** nc, the columns of one image. */
    function Cols(): nat
      requires |shape| >= 2
    {
      shape[|shape| - 1]
    }

    /** nz, the number of images: every dimension but the last two,
        lumped. */
    function Depth(): nat
      requires |shape| >= 2
    {
      Count(shape[..|shape| - 2])
    }
  }

  /** A stack of images of nr rows of nc elements each. */
  predicate Stack<T>(tiles: seq<seq<seq<T>>>, nr: nat, nc: nat)
  {
    forall k :: 0 <= k < |tiles| ==>
      |tiles[k]| == nr && forall r :: 0 <= r < nr ==> |tiles[k][r]| == nc
  }

  /** An array has as many elements as its lumped images hold. */
  lemma {:induction false} CountSplit(shape: seq<nat>)
    requires |shape| >= 2
    ensures Count(shape) == Count(shape[..|shape| - 2]) * shape[|shape| - 2] * shape[|shape| - 1]
  {
    var n := |shape|;
    assert shape[..n - 1][..n - 2] == shape[..n - 2];
  }

  /** Row r of image k ends inside the nz * nr * nc elements. */
  lemma RowFits(nz: nat, nr: nat, nc: nat, k: nat, r: nat)
    requires k < nz && r < nr
    ensures (k * nr + r) * nc + nc <= nz * nr * nc
  {
    MulLe(k + 1, nz, nr);
    assert k * nr + r + 1 <= nz * nr;
    MulLe(k * nr + r + 1, nz * nr, nc);
  }

  /** Row r of image k of elems viewed as nz images of nr x nc: the nc
      elements from (k * nr + r) * nc on. */
  function LumpRow<T>(elems: seq<T>, nz: nat, nr: nat, nc: nat, k: nat, r: nat): (row: seq<T>)
    requires |elems| == nz * nr * nc && k < nz && r < nr
    ensures |row| == nc
  {
    var start := (k * nr + r) * nc;
    RowFits(nz, nr, nc, k, r);
    elems[start .. start + nc]
  }

  /** Image k of elems viewed as nz images of nr x nc. */
  function LumpTile<T>(elems: seq<T>, nz: nat, nr: nat, nc: nat, k: nat): (tile: seq<seq<T>>)
    requires |elems| == nz * nr * nc && k < nz
    ensures |tile| == nr && forall r :: 0 <= r < nr ==> |tile[r]| == nc
  {
    seq(nr, r requires 0 <= r < nr => LumpRow(elems, nz, nr, nc, k, r))
  }

  /** img.reshape((-1, nr, nc)): image k, row r, column c is element
      (k * nr + r) * nc + c. */
  function Lump<T>(img: Image<T>): (tiles: seq<seq<seq<T>>>)
    requires img.Valid() && |img.shape| >= 2
    ensures |tiles| == img.Depth() && Stack(tiles, img.Rows(), img.Cols())
  {
    var nz, nr, nc := img.Depth(), img.Rows(), img.Cols();
    CountSplit(img.shape);
    seq(nz, k requires 0 <= k < nz => LumpTile(img.elems, nz, nr, nc, k))
  }

  /** The lumped images are the array's elements, image after image, in
      C order. */
  lemma LumpElements<T>(img: Image<T>, k: nat, r: nat, c: nat)
    requires img.Valid() && |img.shape| >= 2
    requires k < img.Depth() && r < img.Rows() && c < img.Cols()
    ensures var i := (k * img.Rows() + r) * img.Cols() + c;
      i < |img.elems| && Lump(img)[k][r][c] == img.elems[i]
  {
    var nz, nr, nc := img.Depth(), img.Rows(), img.Cols();
    CountSplit(img.shape);
    assert Lump(img)[k][r] == LumpRow(img.elems, nz, nr, nc, k, r);
    RowElement(img.elems, nz, nr, nc, k, r, c);
  }

  /** Element c of a lumped row, as an index into the elements. */
  lemma RowElement<T>(elems: seq<T>, nz: nat, nr: nat, nc: nat, k: nat, r: nat, c: nat)
    requires |elems| == nz * nr * nc && k < nz && r < nr && c < nc
    ensures (k * nr + r) * nc + c < |elems|
    ensures LumpRow(elems, nz, nr, nc, k, r)[c] == elems[(k * nr + r) * nc + c]
  {
    RowFits(nz, nr, nc, k, r);
  }

  /** int(floor(sqrt(n))), counting up from r. */
  function FloorSqrtFrom(n: nat, r: nat): (s: nat)
    requires r * r <= n
    ensures s * s <= n < (s + 1) * (s + 1)
    decreases n - r
  {
    if (r + 1) * (r + 1) > n then r
    else
      assert r < n || r == 0 by { if r >= 1 { MulLe(1, r, r); } }
      FloorSqrtFrom(n, r + 1)
  }

  /** int(floor(sqrt(n))): the largest s with s * s <= n. */
  function FloorSqrt(n: nat): (s: nat)
    ensures s * s <= n < (s + 1) * (s + 1)
  {
    FloorSqrtFrom(n, 0)
  }

  /** int(ceil(sqrt(n))): the smallest s with s * s >= n. */
  function CeilSqrt(n: nat): (s: nat)
    ensures s * s >= n
    ensures s == 0 || (s - 1) * (s - 1) < n
  {
    var f := FloorSqrt(n);
    if f * f == n then f else f + 1
  }

  /** x evenly divides nz (nz % x == 0). */
  predicate Divides(x: nat, nz: nat)
  {
    x > 0 && nz % x == 0
  }

  /** [x for x in range(1, n + 1) if nz % x == 0]. */
  function Divisors(nz: nat, n: nat): (ms: seq<nat>)
    ensures forall x :: x in ms <==> 1 <= x <= n && Divides(x, nz)
    ensures forall i :: 0 <= i < |ms| ==> ms[i] <= ms[|ms| - 1]
  {
    if n == 0 then []
    else
      var prev := Divisors(nz, n - 1);
      if Divides(n, nz) then
        assert forall i :: 0 <= i < |prev| ==> prev[i] in prev;
        prev + [n]
      else prev
  }

  /** The tiling: block rows and block columns of the output. */
  datatype Grid = Grid(down: nat, across: nat)

  /** n with pad, or n2 and n1 without, for nz images. */
  function Layout(nz: nat, pad: bool): (r: Result<Grid>)
  {
    if pad then
      var n := CeilSqrt(nz);
      Ok(Grid(n, n))
    else
      var n := FloorSqrt(nz);
      var ms := Divisors(nz, n);
      if ms == [] then Err(IndexError)
      else
        var m := ms[|ms| - 1];
        assert m in ms;
        var j := nz / m;
        Ok(Grid(if j < m then j else m, if j < m then m else j))
  }

  datatype Result<T> = Ok(value: T) | Err(error: MosaicError)

  /** With pad the grid is the smallest square with room for every image. */
  lemma PaddedGrid(nz: nat)
    ensures Layout(nz, true).Ok?
    ensures var g := Layout(nz, true).value;
      g.down == g.across && g.down * g.across >= nz &&
      forall s: nat :: s * s >= nz ==> g.across <= s
  {
    var n := CeilSqrt(nz);
    forall s: nat | s * s >= nz
      ensures n <= s
    {
      if s < n {
        MulLe(s, n - 1, s);
        MulLe(s, n - 1, n - 1);
      }
    }
  }

  /** Without pad there is no grid for no images: m[-1] of the empty list. */
  lemma ExactGridNeedsImages()
    ensures Layout(0, false) == Err(IndexError)
  {
    assert FloorSqrt(0) == 0;
  }

  /** Without pad, for nz > 0 images, the grid has exactly nz blocks, at
      least as many columns as rows, and is the squarest such grid: no
      factorisation a * b of nz with a <= b has more rows. */
  lemma ExactGrid(nz: nat)
    requires nz > 0
    ensures Layout(nz, false).Ok?
    ensures var g := Layout(nz, false).value;
      g.down * g.across == nz && g.down <= g.across &&
      forall a: nat, b: nat :: a * b == nz && a <= b ==> a <= g.down
  {
    var n := FloorSqrt(nz);
    assert n >= 1 by { if n == 0 { assert 1 * 1 <= nz; } }
    var ms := Divisors(nz, n);
    assert 1 in ms;
    var m := ms[|ms| - 1];
    assert m in ms;
    var j := nz / m;
    DivisorPair(nz, n, m);
    forall a: nat, b: nat | a * b == nz && a <= b
      ensures a <= m
    {
      SmallFactor(nz, n, a, b);
      assert a in ms;
    }
  }

  /** A divisor m <= floor(sqrt(nz)) of nz pairs with nz / m >= m. */
  lemma DivisorPair(nz: nat, n: nat, m: nat)
    requires n * n <= nz && 1 <= m <= n && Divides(m, nz)
    ensures m * (nz / m) == nz && m <= nz / m
  {
    var j := nz / m;
    if j < m {
      MulLe(j + 1, m, m);
      MulLe(m, n, m);
      MulLe(m, n, n);
    }
  }

  /** The smaller factor of nz is a divisor no larger than floor(sqrt(nz)). */
  lemma SmallFactor(nz: nat, n: nat, a: nat, b: nat)
    requires nz > 0 && n * n <= nz < (n + 1) * (n + 1)
    requires a * b == nz && a <= b
    ensures 1 <= a <= n && Divides(a, nz)
  {
    assert a >= 1;
    MulLe(a, b, a);
    if a > n {
      MulLe(n + 1, a, n + 1);
      MulLe(n + 1, a, a);
    }
    DivUnique(nz, a, b, 0);
  }

  /** The element the output holds at row i, column j: the element of the
      image whose block that is, or zero where no image was placed. */
  function Expected<T>(tiles: seq<seq<seq<T>>>, nr: nat, nc: nat, g: Grid, zero: T, i: nat, j: nat): T
    requires Stack(tiles, nr, nc) && nr > 0 && nc > 0
  {
    var k := j / nc + (i / nr) * g.across;
    if k < |tiles| then tiles[k][i % nr][j % nc] else zero
  }

  /** Row i lies in block row b of blocks nr rows high exactly when
      i / nr == b, and then it is row i - nr * b of that block. */
  lemma BlockOf(i: nat, nr: nat, b: nat)
    requires nr > 0
    ensures nr * b <= i < nr * b + nr <==> i / nr == b
    ensures i / nr == b ==> i % nr == i - nr * b
  {
    if nr * b <= i < nr * b + nr {
      DivUnique(i, nr, b, i - nr * b);
    }
  }

  /** Image k of the stack lands in block row k / across and block column
      k % across, and is copied there whole. */
  lemma TilePlaced<T>(tiles: seq<seq<seq<T>>>, nr: nat, nc: nat, g: Grid, zero: T, k: nat, r: nat, c: nat)
    requires Stack(tiles, nr, nc) && nr > 0 && nc > 0 && g.across > 0
    requires k < |tiles| && r < nr && c < nc
    ensures Expected(tiles, nr, nc, g, zero, nr * (k / g.across) + r, nc * (k % g.across) + c) == tiles[k][r][c]
  {
    var q, p := k / g.across, k % g.across;
    BlockOf(nr * q + r, nr, q);
    BlockOf(nc * p + c, nc, p);
    assert p + q * g.across == k;
  }

  /** Every image of a grid with room for it lands inside the output. */
  lemma TileInGrid(nr: nat, nc: nat, g: Grid, k: nat, r: nat, c: nat)
    requires g.across > 0 && r < nr && c < nc && k < g.down * g.across
    ensures nr * (k / g.across) + r < nr * g.down
    ensures nc * (k % g.across) + c < nc * g.across
  {
    var q, p := k / g.across, k % g.across;
    BlockFits(nc, p, g.across);
    if q >= g.down {
      MulLe(g.down, q, g.across);
    }
    BlockFits(nr, q, g.down);
  }

  /** M[ix_(rows, cols)] = tile for rows top .. top + nr - 1 and columns
      left .. left + nc - 1. */
  method PlaceTile<T>(M: array2<T>, tile: seq<seq<T>>, nr: nat, nc: nat, top: nat, left: nat)
    requires |tile| == nr && forall r :: 0 <= r < nr ==> |tile[r]| == nc
    requires top + nr <= M.Length0 && left + nc <= M.Length1
    modifies M
    ensures forall i, j :: 0 <= i < M.Length0 && 0 <= j < M.Length1 ==>
      M[i, j] == if top <= i < top + nr && left <= j < left + nc then tile[i - top][j - left] else old(M[i, j])
  {
    forall i, j | top <= i < top + nr && left <= j < left + nc {
      M[i, j] := tile[i - top][j - left];
    }
  }

  /** The state of the output after the blocks before block (j2, j1), in
      row-major order, have been placed: those hold their images, the rest
      is still zero. */
  ghost predicate Filled<T>(M: array2<T>, tiles: seq<seq<seq<T>>>, nr: nat, nc: nat, g: Grid, zero: T, j2: nat, j1: nat)
    requires Stack(tiles, nr, nc) && nr > 0 && nc > 0
    reads M
  {
    forall i, j :: 0 <= i < M.Length0 && 0 <= j < M.Length1 ==>
      M[i, j] == if i / nr < j2 || (i / nr == j2 && j / nc < j1) then Expected(tiles, nr, nc, g, zero, i, j) else zero
  }

  /** M[ix_(rows, cols)] = tiles[j1 + j2 * across] for block (j2, j1), the
      next in row-major order. */
  method PlaceBlock<T>(M: array2<T>, tiles: seq<seq<seq<T>>>, nr: nat, nc: nat, g: Grid, zero: T, j2: nat, j1: nat)
    requires Stack(tiles, nr, nc) && nr > 0 && nc > 0
    requires M.Length0 == nr * g.down && M.Length1 == nc * g.across
    requires j2 < g.down && j1 < g.across && j1 + j2 * g.across < |tiles|
    requires Filled(M, tiles, nr, nc, g, zero, j2, j1)
    modifies M
    ensures Filled(M, tiles, nr, nc, g, zero, j2, j1 + 1)
  {
    BlockFits(nr, j2, g.down);
    BlockFits(nc, j1, g.across);
    PlaceTile(M, tiles[j1 + j2 * g.across], nr, nc, nr * j2, nc * j1);
    forall i, j | 0 <= i < M.Length0 && 0 <= j < M.Length1
      ensures M[i, j] == if i / nr < j2 || (i / nr == j2 && j / nc < j1 + 1) then Expected(tiles, nr, nc, g, zero, i, j) else zero
    {
      BlockOf(i, nr, j2);
      BlockOf(j, nc, j1);
    }
  }

  /** A fresh array of zeros has no block placed yet. */
  lemma Blank<T>(M: array2<T>, tiles: seq<seq<seq<T>>>, nr: nat, nc: nat, g: Grid, zero: T)
    requires Stack(tiles, nr, nc) && nr > 0 && nc > 0
    requires forall i, j :: 0 <= i < M.Length0 && 0 <= j < M.Length1 ==> M[i, j] == zero
    ensures Filled(M, tiles, nr, nc, g, zero, 0, 0)
  {
  }

  /** A block row is finished once its blocks or the images run out. */
  lemma RowDone<T>(M: array2<T>, tiles: seq<seq<seq<T>>>, nr: nat, nc: nat, g: Grid, zero: T, j2: nat, j1: nat)
    requires Stack(tiles, nr, nc) && nr > 0 && nc > 0
    requires M.Length1 == nc * g.across
    requires j1 == g.across || j1 + j2 * g.across >= |tiles|
    requires Filled(M, tiles, nr, nc, g, zero, j2, j1)
    ensures Filled(M, tiles, nr, nc, g, zero, j2 + 1, 0)
  {
    forall i, j | 0 <= i < M.Length0 && 0 <= j < M.Length1
      ensures M[i, j] == if i / nr < j2 + 1 then Expected(tiles, nr, nc, g, zero, i, j) else zero
    {
      if i / nr == j2 && j / nc >= j1 {
        BlockRange(j, nc, g.across);
        MulLe(j2, j2, g.across);
      }
    }
  }

  /** Once every block row is finished the output is the expected mosaic. */
  lemma AllDone<T>(M: array2<T>, tiles: seq<seq<seq<T>>>, nr: nat, nc: nat, g: Grid, zero: T)
    requires Stack(tiles, nr, nc) && nr > 0 && nc > 0
    requires M.Length0 == nr * g.down
    requires Filled(M, tiles, nr, nc, g, zero, g.down, 0)
    ensures forall i, j :: 0 <= i < M.Length0 && 0 <= j < M.Length1 ==>
      M[i, j] == Expected(tiles, nr, nc, g, zero, i, j)
  {
    forall i, j | 0 <= i < M.Length0 && 0 <= j < M.Length1
      ensures M[i, j] == Expected(tiles, nr, nc, g, zero, i, j)
    {
      BlockRange(i, nr, g.down);
    }
  }

  /** The pad branch: an (nr * n) x (nc * n) array of zeros, filled block
      by block in row-major order until the images run out. */
  method PlacePadded<T>(tiles: seq<seq<seq<T>>>, nr: nat, nc: nat, n: nat, zero: T) returns (M: array2<T>)
    requires Stack(tiles, nr, nc) && nr > 0 && nc > 0
    ensures fresh(M) && M.Length0 == nr * n && M.Length1 == nc * n
    ensures forall i, j :: 0 <= i < M.Length0 && 0 <= j < M.Length1 ==>
      M[i, j] == Expected(tiles, nr, nc, Grid(n, n), zero, i, j)
  {
    var g := Grid(n, n);
    M := new T[nr * n, nc * n]((i, j) => zero);
    Blank(M, tiles, nr, nc, g, zero);
    for j2 := 0 to n
      invariant Filled(M, tiles, nr, nc, g, zero, j2, 0)
    {
      var j1 := 0;
      while j1 < n
        invariant j1 <= n
        invariant Filled(M, tiles, nr, nc, g, zero, j2, j1)
      {
        if j1 + j2 * n >= |tiles| {
          break;
        }
        PlaceBlock(M, tiles, nr, nc, g, zero, j2, j1);
        j1 := j1 + 1;
      }
      RowDone(M, tiles, nr, nc, g, zero, j2, j1);
    }
    AllDone(M, tiles, nr, nc, g, zero);
  }

  /** The pad-less branch: an (nr * n2) x (nc * n1) array of zeros with
      every block filled. */
  method PlaceExact<T>(tiles: seq<seq<seq<T>>>, nr: nat, nc: nat, n2: nat, n1: nat, zero: T) returns (M: array2<T>)
    requires Stack(tiles, nr, nc) && nr > 0 && nc > 0 && n2 * n1 == |tiles|
    ensures fresh(M) && M.Length0 == nr * n2 && M.Length1 == nc * n1
    ensures forall i, j :: 0 <= i < M.Length0 && 0 <= j < M.Length1 ==>
      M[i, j] == Expected(tiles, nr, nc, Grid(n2, n1), zero, i, j)
  {
    var g := Grid(n2, n1);
    M := new T[nr * n2, nc * n1]((i, j) => zero);
    Blank(M, tiles, nr, nc, g, zero);
    for j2 := 0 to n2
      invariant Filled(M, tiles, nr, nc, g, zero, j2, 0)
    {
      for j1 := 0 to n1
        invariant Filled(M, tiles, nr, nc, g, zero, j2, j1)
      {
        MulStep(j2, n2, n1);
        PlaceBlock(M, tiles, nr, nc, g, zero, j2, j1);
      }
      RowDone(M, tiles, nr, nc, g, zero, j2, n1);
    }
    AllDone(M, tiles, nr, nc, g, zero);
  }

  /** Block b < n of blocks w wide ends inside w * n. */
  lemma BlockFits(w: nat, b: nat, n: nat)
    requires b < n
    ensures w * b + w <= w * n
  {
    MulLe(b + 1, n, w);
  }

  /** An index below w * n lies in a block below n. */
  lemma BlockRange(i: nat, w: nat, n: nat)
    requires w > 0 && i < w * n
    ensures i / w < n
  {
    if i / w >= n {
      MulLe(n, i / w, w);
    }
  }

  /** What mosaic returns: the array itself, or the tiled 2-D array. */
  datatype Outcome<T> = Unchanged | Failed(error: MosaicError) | Tiled(m: array2<T>)

  /** mosaic(img, pad): an array of rank two or less is returned as it is;
      otherwise its images are lumped, the grid chosen and the images
      placed in it. */
  method Mosaic<T>(img: Image<T>, pad: bool, zero: T) returns (r: Outcome<T>)
    requires img.Valid()
    ensures r.Unchanged? <==> |img.shape| <= 2
    ensures r.Failed? <==>
      |img.shape| > 2 && (img.Rows() * img.Cols() == 0 || Layout(img.Depth(), pad).Err?)
    ensures r.Failed? ==> r.error == if img.Rows() * img.Cols() == 0 then ReshapeError else IndexError
    ensures r.Tiled? ==>
      fresh(r.m) && img.Rows() > 0 && img.Cols() > 0 && Layout(img.Depth(), pad).Ok? &&
      var g := Layout(img.Depth(), pad).value;
      r.m.Length0 == img.Rows() * g.down && r.m.Length1 == img.Cols() * g.across &&
      forall i, j :: 0 <= i < r.m.Length0 && 0 <= j < r.m.Length1 ==>
        r.m[i, j] == Expected(Lump(img), img.Rows(), img.Cols(), g, zero, i, j)
  {
    if |img.shape| <= 2 {
      return Unchanged;
    }
    var nr, nc := img.Rows(), img.Cols();
    if nr * nc == 0 {
      return Failed(ReshapeError);
    }
    var tiles := Lump(img);
    var nz := |tiles|;
    if pad {
      var n := CeilSqrt(nz);
      var M := PlacePadded(tiles, nr, nc, n, zero);
      return Tiled(M);
    } else {
      var n := FloorSqrt(nz);
      var ms := Divisors(nz, n);
      if ms == [] {
        return Failed(IndexError);
      }
      var m := ms[|ms| - 1];
      assert m in ms;
      var j := nz / m;
      var n2 := if j < m then j else m;
      var n1 := if j < m then m else j;
      assert n2 * n1 == nz by { DivisorPair(nz, n, m); }
      var M := PlaceExact(tiles, nr, nc, n2, n1, zero);
      return Tiled(M);
    }
  }
}
