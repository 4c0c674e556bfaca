/**
 Boards built by writing live cells into a dead board, as the program
 seeds its first generation: a glider and a blinker at fixed coordinates.
 Also the blinker's period-two oscillation under the transition rule.
 */
module Patterns {
  import opened Grid
  import opened Life

  /** Every listed coordinate is one `Set` accepts on this grid. */
  predicate AllWritable(s: Shape, cells: seq<(int, int)>) {
    forall k :: 0 <= k < |cells| ==> s.Writable(cells[k].0, cells[k].1)
  }

  /** Every listed coordinate lies on the grid. */
  predicate AllInRange(s: Shape, cells: seq<(int, int)>) {
    forall k :: 0 <= k < |cells| ==> s.InRange(cells[k].0, cells[k].1)
  }

  /** `set(board, x, y, true)` for each listed cell, in order. */
  function Plant(s: Shape, b: Board, cells: seq<(int, int)>): (r: Board)
    requires Fits(s, b) && AllWritable(s, cells)
    ensures Fits(s, r)
    ensures forall i :: 0 <= i < |b| && b[i] ==> r[i]
    ensures forall k :: 0 <= k < |cells| ==> r[Target(s, cells[k].0, cells[k].1)]
    decreases |cells|
  {
    if cells == [] then b
    else Plant(s, Set(s, b, cells[0].0, cells[0].1, true), cells[1..])
  }

  /** Planting on-grid cells makes exactly those cells alive and leaves the rest as they were. */
  lemma {:induction false} PlantMarks(s: Shape, b: Board, cells: seq<(int, int)>, x: int, y: int)
    requires Fits(s, b) && AllInRange(s, cells) && s.InRange(x, y)
    ensures Get(s, Plant(s, b, cells), x, y) <==> Get(s, b, x, y) || (x, y) in cells
    decreases |cells|
  {
    if cells != [] {
      var c := cells[0];
      var b' := Set(s, b, c.0, c.1, true);
      PlantMarks(s, b', cells[1..], x, y);
      if (x, y) == c {
        GetSetSame(s, b, x, y, true);
      } else {
        GetSetOther(s, b, c.0, c.1, true, x, y);
      }
      assert cells == [c] + cells[1..];
    }
  }

  /**
   In either mode, a buffer slot is alive after planting exactly when it was
   alive before or some listed cell's write, wrapped or not, lands on it.
   */
  lemma {:induction false} PlantExactly(s: Shape, b: Board, cells: seq<(int, int)>, i: int)
    requires Fits(s, b) && AllWritable(s, cells) && 0 <= i < |b|
    ensures Plant(s, b, cells)[i] <==>
              b[i] || exists k :: 0 <= k < |cells| && i == Target(s, cells[k].0, cells[k].1)
    decreases |cells|
  {
    if cells != [] {
      var b' := Set(s, b, cells[0].0, cells[0].1, true);
      var rest := cells[1..];
      PlantExactly(s, b', rest, i);
      if exists k :: 0 <= k < |rest| && i == Target(s, rest[k].0, rest[k].1) {
        var k :| 0 <= k < |rest| && i == Target(s, rest[k].0, rest[k].1);
        assert cells[k + 1] == rest[k];
      }
      if exists k :: 0 <= k < |cells| && i == Target(s, cells[k].0, cells[k].1) {
        var k :| 0 <= k < |cells| && i == Target(s, cells[k].0, cells[k].1);
        if k > 0 {
          assert rest[k - 1] == cells[k];
        }
      }
    }
  }

  /** A dead board with exactly the listed cells alive. */
  function Pattern(s: Shape, cells: seq<(int, int)>): (r: Board)
    requires s.Valid() && AllWritable(s, cells)
    ensures Fits(s, r)
  {
    Plant(s, Empty(s), cells)
  }

  /** On the grid, a pattern's live cells are exactly the listed ones; off a clamped grid nothing lives. */
  lemma PatternCells(s: Shape, cells: seq<(int, int)>, x: int, y: int)
    requires s.Valid() && AllInRange(s, cells)
    ensures s.InRange(x, y) ==> (Get(s, Pattern(s, cells), x, y) <==> (x, y) in cells)
    ensures s.boundary == Clamped ==> (Get(s, Pattern(s, cells), x, y) <==> (x, y) in cells)
  {
    if s.InRange(x, y) {
      PlantMarks(s, Empty(s), cells, x, y);
    }
  }

  /** Over the whole grid, a pattern's buffer holds `true` exactly at the listed cells. */
  lemma PatternLayout(s: Shape, cells: seq<(int, int)>)
    requires s.Valid() && AllInRange(s, cells)
    ensures forall x, y :: s.InRange(x, y) ==> (Pattern(s, cells)[Index(s, x, y)] <==> (x, y) in cells)
  {
    forall x, y | s.InRange(x, y)
      ensures Pattern(s, cells)[Index(s, x, y)] <==> (x, y) in cells
    {
      PatternCells(s, cells, x, y);
    }
  }

  /** The glider the program seeds. */
  const Glider: seq<(int, int)> := [(5, 5), (6, 5), (7, 5), (7, 4), (6, 3)]

  /** A vertical line of three cells centred on (cx, cy). */
  function Vertical(cx: int, cy: int): (cells: seq<(int, int)>) {
    [(cx, cy - 1), (cx, cy), (cx, cy + 1)]
  }

  /** A horizontal line of three cells centred on (cx, cy). */
  function Horizontal(cx: int, cy: int): (cells: seq<(int, int)>) {
    [(cx - 1, cy), (cx, cy), (cx + 1, cy)]
  }

  /** The blinker the program seeds: the vertical line through (20, 4), (20, 5), (20, 6). */
  const Blinker: seq<(int, int)> := Vertical(20, 5)

  /**
   The first generation the program starts from: the glider, then the
   blinker, written into a dead board. On a clamped grid every seed cell
   must lie on the grid, since the program's unchecked write would
   otherwise land on a wrong cell or outside the buffer.
   */
  function Seed(s: Shape): (r: Board)
    requires s.Valid() && AllWritable(s, Glider + Blinker)
    ensures Fits(s, r)
    ensures s.width > 20 && s.height > 6 ==>
              forall x, y :: s.InRange(x, y) ==> (r[Index(s, x, y)] <==> (x, y) in Glider + Blinker)
  {
    if s.width > 20 && s.height > 6 then
      PatternLayout(s, Glider + Blinker);
      Pattern(s, Glider + Blinker)
    else
      Pattern(s, Glider + Blinker)
  }

  /** On a grid large enough for every seed cell, exactly the eight seed cells start alive. */
  lemma SeedCells(s: Shape, x: int, y: int)
    requires s.Valid() && s.width > 20 && s.height > 6 && s.InRange(x, y)
    ensures Get(s, Seed(s), x, y) <==>
              (x, y) in {(5, 5), (6, 5), (7, 5), (7, 4), (6, 3), (20, 4), (20, 5), (20, 6)}
  {
    PatternCells(s, Glider + Blinker, x, y);
  }

  /** A toroidal grid admits the seed whatever its size; a clamped one needs 21 columns and 7 rows. */
  lemma SeedWritable(s: Shape)
    requires s.Valid()
    ensures AllWritable(s, Glider + Blinker) <==> s.boundary == Toroidal || (s.width > 20 && s.height > 6)
  {
    if s.boundary == Clamped && AllWritable(s, Glider + Blinker) {
      assert (Glider + Blinker)[5] == (20, 4);
      assert (Glider + Blinker)[7] == (20, 6);
    }
  }

  /** Under the rule, a live vertical line of three turns into the horizontal line through its centre. */
  lemma VerticalLineNext(s: Shape, b: Board, cx: int, cy: int, x: int, y: int)
    requires Fits(s, b)
    requires forall u, w :: Get(s, b, u, w) <==> u == cx && cy - 1 <= w <= cy + 1
    ensures NextAt(s, b, x, y) <==> y == cy && cx - 1 <= x <= cx + 1
  {
    var n := NeighborCount(s, b, x, y);
    if x < cx - 1 || x > cx + 1 || y < cy - 2 || y > cy + 2 {
      assert n == 0;
    } else if x == cx {
      assert n == (if y == cy then 2 else 1);
    } else {
      assert n == 3 - (if y < cy then cy - y else y - cy);
    }
  }

  /** Under the rule, a live horizontal line of three turns into the vertical line through its centre. */
  lemma HorizontalLineNext(s: Shape, b: Board, cx: int, cy: int, x: int, y: int)
    requires Fits(s, b)
    requires forall u, w :: Get(s, b, u, w) <==> w == cy && cx - 1 <= u <= cx + 1
    ensures NextAt(s, b, x, y) <==> x == cx && cy - 1 <= y <= cy + 1
  {
    var n := NeighborCount(s, b, x, y);
    if x < cx - 2 || x > cx + 2 || y < cy - 1 || y > cy + 1 {
      assert n == 0;
    } else if y == cy {
      assert n == (if x == cx then 2 else 1);
    } else {
      assert n == 3 - (if x < cx then cx - x else x - cx);
    }
  }

  /** The live cells of a vertical line pattern on a clamped grid. */
  lemma VerticalCells(s: Shape, cx: int, cy: int, u: int, w: int)
    requires s.Valid() && s.boundary == Clamped
    requires 0 <= cx < s.width && 1 <= cy < s.height - 1
    ensures Get(s, Pattern(s, Vertical(cx, cy)), u, w) <==> u == cx && cy - 1 <= w <= cy + 1
  {
    PatternCells(s, Vertical(cx, cy), u, w);
  }

  /** The live cells of a horizontal line pattern on a clamped grid. */
  lemma HorizontalCells(s: Shape, cx: int, cy: int, u: int, w: int)
    requires s.Valid() && s.boundary == Clamped
    requires 1 <= cx < s.width - 1 && 0 <= cy < s.height
    ensures Get(s, Pattern(s, Horizontal(cx, cy)), u, w) <==> w == cy && cx - 1 <= u <= cx + 1
  {
    PatternCells(s, Horizontal(cx, cy), u, w);
  }

  /** On a clamped grid a vertical blinker with room around it turns horizontal. */
  lemma BlinkerTurnsHorizontal(s: Shape, cx: int, cy: int)
    requires s.Valid() && s.boundary == Clamped
    requires 1 <= cx < s.width - 1 && 1 <= cy < s.height - 1
    ensures Next(s, Pattern(s, Vertical(cx, cy))) == Pattern(s, Horizontal(cx, cy))
  {
    var v, h := Pattern(s, Vertical(cx, cy)), Pattern(s, Horizontal(cx, cy));
    forall u, w
      ensures Get(s, v, u, w) <==> u == cx && cy - 1 <= w <= cy + 1
    {
      VerticalCells(s, cx, cy, u, w);
    }
    var n := Next(s, v);
    forall x, y | s.InRange(x, y)
      ensures n[Index(s, x, y)] == h[Index(s, x, y)]
    {
      VerticalLineNext(s, v, cx, cy, x, y);
      HorizontalCells(s, cx, cy, x, y);
      assert n[Index(s, x, y)] == NextAt(s, v, x, y);
      assert h[Index(s, x, y)] == Get(s, h, x, y);
    }
    BoardsAgree(s, n, h);
  }

  /** On a clamped grid a horizontal blinker with room around it turns vertical. */
  lemma BlinkerTurnsVertical(s: Shape, cx: int, cy: int)
    requires s.Valid() && s.boundary == Clamped
    requires 1 <= cx < s.width - 1 && 1 <= cy < s.height - 1
    ensures Next(s, Pattern(s, Horizontal(cx, cy))) == Pattern(s, Vertical(cx, cy))
  {
    var h, v := Pattern(s, Horizontal(cx, cy)), Pattern(s, Vertical(cx, cy));
    forall u, w
      ensures Get(s, h, u, w) <==> w == cy && cx - 1 <= u <= cx + 1
    {
      HorizontalCells(s, cx, cy, u, w);
    }
    var n := Next(s, h);
    forall x, y | s.InRange(x, y)
      ensures n[Index(s, x, y)] == v[Index(s, x, y)]
    {
      HorizontalLineNext(s, h, cx, cy, x, y);
      VerticalCells(s, cx, cy, x, y);
      assert n[Index(s, x, y)] == NextAt(s, h, x, y);
      assert v[Index(s, x, y)] == Get(s, v, x, y);
    }
    BoardsAgree(s, n, v);
  }

  /** The blinker is a period-two oscillator. */
  lemma BlinkerPeriodTwo(s: Shape, cx: int, cy: int)
    requires s.Valid() && s.boundary == Clamped
    requires 1 <= cx < s.width - 1 && 1 <= cy < s.height - 1
    ensures Run(s, Pattern(s, Vertical(cx, cy)), 1) == Pattern(s, Horizontal(cx, cy))
    ensures Run(s, Pattern(s, Vertical(cx, cy)), 2) == Pattern(s, Vertical(cx, cy))
  {
    BlinkerTurnsHorizontal(s, cx, cy);
    BlinkerTurnsVertical(s, cx, cy);
  }
}
