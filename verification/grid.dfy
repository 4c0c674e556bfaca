/**
 The Game of Life grid: a flat, row-major buffer of cells addressed by (x, y),
 read and written under one of two boundary policies.

 The program keeps the dimensions and the boundary flag in process-wide
 variables; here they are gathered into an immutable `Shape` that every
 operation takes explicitly.
 */
module Grid {

  /** How coordinates off the grid are treated (the `--toroidal` flag). */
  datatype Boundary = Clamped | Toroidal

  /** Grid dimensions and boundary policy, fixed for the lifetime of the grid. */
  datatype Shape = Shape(width: int, height: int, boundary: Boundary) {

    predicate Valid() {
      width > 0 && height > 0
    }

    /** Number of cells, and so the length of every buffer. */
    function Size(): (n: int) {
      width * height
    }

    predicate InRange(x: int, y: int) {
      0 <= x < width && 0 <= y < height
    }

    /** The coordinates `Set` accepts: anything when toroidal, the grid itself otherwise. */
    predicate Writable(x: int, y: int) {
      boundary == Toroidal || InRange(x, y)
    }
  }

  /** One buffer of cells; `true` is alive. */
  type Board = seq<bool>

  /** The buffer has exactly one cell per grid position. */
  predicate Fits(s: Shape, b: Board) {
    s.Valid() && |b| == s.Size()
  }

  /** A board of the right size with every cell dead (what `make([]bool, n)` yields). */
  function Empty(s: Shape): (b: Board)
    requires s.Valid()
    ensures Fits(s, b)
    ensures forall i :: 0 <= i < |b| ==> !b[i]
  {
    seq(s.Size(), _ => false)
  }

  /**
   The toroidal correction of one coordinate against an extent `n`: a
   negative coordinate becomes `n - 1` and one at or past `n` becomes 0,
   however far out it lies. This is a single correction, not a modulus.
   */
  function Wrap(c: int, n: int): (r: int)
    requires n > 0
    ensures 0 <= r < n
    ensures 0 <= c < n ==> r == c
  {
    if c < 0 then n - 1
    else if c >= n then 0
    else c
  }

  lemma RowStart(w: int, h: int, y: int)
    requires w > 0 && 0 <= y < h
    ensures 0 <= y * w && y * w + w <= h * w
  {
    assert (y + 1) * w == y * w + w;
    assert (h - (y + 1)) * w >= 0;
  }

  /** Position of cell (x, y) in the row-major buffer. */
  function Index(s: Shape, x: int, y: int): (i: int)
    requires s.Valid() && s.InRange(x, y)
    ensures 0 <= i < s.Size()
    ensures i % s.width == x && i / s.width == y
  {
    RowStart(s.width, s.height, y);
    DivMod(s.width, x, y);
    y * s.width + x
  }

  /** Euclidean division of `y * w + x` recovers the row and the column. */
  lemma DivMod(w: int, x: int, y: int)
    requires w > 0 && 0 <= x < w && 0 <= y
    ensures (y * w + x) / w == y && (y * w + x) % w == x
  {
    var i := y * w + x;
    UniqueDivision(w, i / w, i % w, y, x);
  }

  lemma UniqueDivision(w: int, q: int, r: int, q': int, r': int)
    requires w > 0 && 0 <= r < w && 0 <= r' < w
    requires q * w + r == q' * w + r'
    ensures q == q' && r == r'
  {
    if q > q' {
      StepsOfWidth(q - q', w);
    } else if q < q' {
      StepsOfWidth(q' - q, w);
    }
  }

  lemma StepsOfWidth(k: int, w: int)
    requires k >= 1 && w > 0
    ensures k * w >= w
  {
  }

  /** Two grid positions share a buffer index only if they are the same position. */
  lemma IndexInjective(s: Shape, x: int, y: int, x': int, y': int)
    requires s.Valid() && s.InRange(x, y) && s.InRange(x', y')
    ensures Index(s, x, y) == Index(s, x', y') <==> x == x' && y == y'
  {
  }

  /** Every buffer index is the index of exactly the cell (i % width, i / width). */
  lemma IndexSurjective(s: Shape, i: int)
    requires s.Valid() && 0 <= i < s.Size()
    ensures s.InRange(i % s.width, i / s.width)
    ensures Index(s, i % s.width, i / s.width) == i
  {
    var x, y := i % s.width, i / s.width;
    assert i == y * s.width + x;
  }

  /**
   The buffer index that `get` and `set` touch for (x, y): the position
   itself, after the one-step correction when the grid is toroidal.
   */
  function Target(s: Shape, x: int, y: int): (i: int)
    requires s.Valid() && s.Writable(x, y)
    ensures 0 <= i < s.Size()
    ensures s.InRange(x, y) ==> i == Index(s, x, y)
  {
    if s.boundary == Toroidal then Index(s, Wrap(x, s.width), Wrap(y, s.height))
    else Index(s, x, y)
  }

  /** The source's `get`: the cell at (x, y), dead off a clamped grid. */
  function Get(s: Shape, b: Board, x: int, y: int): (r: bool)
    requires Fits(s, b)
    ensures s.InRange(x, y) ==> r == b[Index(s, x, y)]
    ensures s.boundary == Clamped && !s.InRange(x, y) ==> !r
  {
    if s.boundary == Clamped && !s.InRange(x, y) then false
    else b[Target(s, x, y)]
  }

  /** The source's `set`: the buffer with the cell `get` would read at (x, y) replaced by `v`. */
  function Set(s: Shape, b: Board, x: int, y: int, v: bool): (r: Board)
    requires Fits(s, b) && s.Writable(x, y)
    ensures Fits(s, r)
    ensures r[Target(s, x, y)] == v
    ensures forall i :: 0 <= i < |b| && i != Target(s, x, y) ==> r[i] == b[i]
  {
    b[Target(s, x, y) := v]
  }

  /** A fully dead buffer reads dead at every coordinate, in either mode. */
  lemma GetOfDeadBoard(s: Shape, b: Board, x: int, y: int)
    requires Fits(s, b) && forall i :: 0 <= i < |b| ==> !b[i]
    ensures !Get(s, b, x, y)
  {
  }

  /** Toroidal reads one step off the left or right edge land on the opposite edge. */
  lemma ToroidalWrapsColumns(s: Shape, b: Board, y: int)
    requires Fits(s, b) && s.boundary == Toroidal
    ensures Get(s, b, -1, y) == Get(s, b, s.width - 1, y)
    ensures Get(s, b, s.width, y) == Get(s, b, 0, y)
  {
  }

  /** Toroidal reads one step off the top or bottom edge land on the opposite edge. */
  lemma ToroidalWrapsRows(s: Shape, b: Board, x: int)
    requires Fits(s, b) && s.boundary == Toroidal
    ensures Get(s, b, x, -1) == Get(s, b, x, s.height - 1)
    ensures Get(s, b, x, s.height) == Get(s, b, x, 0)
  {
  }

  /**
   Toroidal reads any distance off an edge land on the opposite edge's
   first line: every negative column reads column width-1, every column at
   or past width reads column 0, and likewise for rows.
   */
  lemma ToroidalWrapsAnyDistance(s: Shape, b: Board, x: int, y: int)
    requires Fits(s, b) && s.boundary == Toroidal
    ensures x < 0 ==> Get(s, b, x, y) == Get(s, b, s.width - 1, y)
    ensures x >= s.width ==> Get(s, b, x, y) == Get(s, b, 0, y)
    ensures y < 0 ==> Get(s, b, x, y) == Get(s, b, x, s.height - 1)
    ensures y >= s.height ==> Get(s, b, x, y) == Get(s, b, x, 0)
  {
  }

  /**
   Toroidal writes any distance off an edge land on the opposite edge's
   first line, just as the reads do.
   */
  lemma ToroidalSetWraps(s: Shape, b: Board, x: int, y: int, v: bool)
    requires Fits(s, b) && s.boundary == Toroidal
    ensures x < 0 ==> Set(s, b, x, y, v) == Set(s, b, s.width - 1, y, v)
    ensures x >= s.width ==> Set(s, b, x, y, v) == Set(s, b, 0, y, v)
    ensures y < 0 ==> Set(s, b, x, y, v) == Set(s, b, x, s.height - 1, v)
    ensures y >= s.height ==> Set(s, b, x, y, v) == Set(s, b, x, 0, v)
  {
  }

  /**
   The correction is not a modulus: on a toroidal grid at least three cells
   wide, column -2 reads column width-1, not width-2.
   */
  lemma ToroidalWrapIsNotModulo(s: Shape, b: Board, y: int)
    requires Fits(s, b) && s.boundary == Toroidal && s.width >= 3
    ensures Get(s, b, -2, y) == Get(s, b, s.width - 1, y)
    ensures Target(s, -2, y) != Target(s, s.width - 2, y)
  {
    IndexInjective(s, s.width - 1, Wrap(y, s.height), s.width - 2, Wrap(y, s.height));
  }

  /** Reading back a written cell yields the written value. */
  lemma GetSetSame(s: Shape, b: Board, x: int, y: int, v: bool)
    requires Fits(s, b) && s.Writable(x, y)
    ensures Get(s, Set(s, b, x, y, v), x, y) == v
  {
  }

  /** Writing one grid position leaves every other grid position as it was. */
  lemma GetSetOther(s: Shape, b: Board, x: int, y: int, v: bool, x': int, y': int)
    requires Fits(s, b) && s.InRange(x, y) && s.InRange(x', y')
    requires x != x' || y != y'
    ensures Get(s, Set(s, b, x, y, v), x', y') == Get(s, b, x', y')
  {
    IndexInjective(s, x, y, x', y');
  }
}
