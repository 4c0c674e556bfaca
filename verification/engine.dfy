/**
 The generation engine: the program's `step`, which writes the next
 generation into the `current` buffer cell by cell in row-major order,
 reading only the `last` buffer, and then copies `current` back into `last`.
 */
module Engine {
  import opened Grid
  import opened Life

  /**
   `step` over buffers passed by value: returns the new contents of `last`
   and of `current`. The incoming `current` is scratch space; its contents
   never reach the result.
   */
  method Step(s: Shape, last: Board, current: Board) returns (last': Board, current': Board)
    requires Fits(s, last) && Fits(s, current)
    ensures Fits(s, current') && Fits(s, last')
    ensures forall x, y :: s.InRange(x, y) ==>
              var n := NeighborCount(s, last, x, y);
              current'[Index(s, x, y)] == ((Get(s, last, x, y) && n == 2) || n == 3)
    ensures last' == current'
  {
    var cur := current;
    var y := 0;
    while y < s.height
      invariant 0 <= y <= s.height
      invariant Fits(s, cur)
      invariant forall u, v :: 0 <= u < s.width && 0 <= v < y ==> cur[Index(s, u, v)] == NextAt(s, last, u, v)
    {
      var x := 0;
      while x < s.width
        invariant 0 <= x <= s.width
        invariant Fits(s, cur)
        invariant forall u, v :: s.InRange(u, v) && Before(u, v, x, y) ==> cur[Index(s, u, v)] == NextAt(s, last, u, v)
      {
        ghost var before := cur;
        cur := Set(s, cur, x, y, (Get(s, last, x, y) && NeighborCount(s, last, x, y) == 2) || NeighborCount(s, last, x, y) == 3);
        forall u, v | s.InRange(u, v) && Before(u, v, x, y)
          ensures cur[Index(s, u, v)] == before[Index(s, u, v)]
        {
          IndexInjective(s, u, v, x, y);
        }
        x := x + 1;
      }
      y := y + 1;
    }
    last' := cur;
    current' := cur;
  }

  /** The step computes exactly the reference next generation. */
  lemma StepIsNext(s: Shape, last: Board, current': Board)
    requires Fits(s, last) && Fits(s, current')
    requires forall x, y :: s.InRange(x, y) ==>
               var n := NeighborCount(s, last, x, y);
               current'[Index(s, x, y)] == ((Get(s, last, x, y) && n == 2) || n == 3)
    ensures current' == Next(s, last)
  {
    BoardsAgree(s, current', Next(s, last));
  }

  /** Cells strictly before (x, y) in row-major order. */
  predicate Before(u: int, v: int, x: int, y: int) {
    v < y || (v == y && u < x)
  }

  /** One pass of the inner loop of `step`: fills row `y` of `current` from `last`. */
  method AdvanceRow(s: Shape, last: array<bool>, current: array<bool>, y: int)
    requires s.Valid() && last.Length == s.Size() && current.Length == s.Size()
    requires last != current && 0 <= y < s.height
    requires forall u, v :: s.InRange(u, v) && v < y ==> current[Index(s, u, v)] == NextAt(s, last[..], u, v)
    modifies current
    ensures forall u, v :: s.InRange(u, v) && v <= y ==> current[Index(s, u, v)] == NextAt(s, last[..], u, v)
  {
    var x := 0;
    while x < s.width
      invariant 0 <= x <= s.width
      invariant forall u, v :: s.InRange(u, v) && Before(u, v, x, y) ==> current[Index(s, u, v)] == NextAt(s, last[..], u, v)
    {
      var n := NeighborCount(s, last[..], x, y);
      forall u, v | s.InRange(u, v) && Before(u, v, x, y)
        ensures Index(s, u, v) != Target(s, x, y)
      {
        IndexInjective(s, u, v, x, y);
      }
      current[Target(s, x, y)] := (Get(s, last[..], x, y) && n == 2) || n == 3;
      x := x + 1;
    }
  }

  /**
   `step` over two distinct mutable buffers, as the program runs it: after
   the call `current` holds the next generation of what `last` held, and
   `last` holds the same cells.
   */
  method StepInPlace(s: Shape, last: array<bool>, current: array<bool>)
    requires s.Valid() && last.Length == s.Size() && current.Length == s.Size()
    requires last != current
    modifies last, current
    ensures current[..] == Next(s, old(last[..]))
    ensures last[..] == current[..]
  {
    var y := 0;
    while y < s.height
      invariant 0 <= y <= s.height
      invariant last[..] == old(last[..])
      invariant forall u, v :: s.InRange(u, v) && v < y ==> current[Index(s, u, v)] == NextAt(s, last[..], u, v)
    {
      AdvanceRow(s, last, current, y);
      y := y + 1;
    }
    BoardsAgree(s, current[..], Next(s, last[..]));
    CopyInto(last, current);
  }

  /** Go's `copy(dst, src)` on two buffers of equal length. */
  method CopyInto(dst: array<bool>, src: array<bool>)
    requires dst != src && dst.Length == src.Length
    modifies dst
    ensures dst[..] == src[..]
  {
    var i := 0;
    while i < dst.Length
      invariant 0 <= i <= dst.Length
      invariant dst[..i] == src[..i]
    {
      dst[i] := src[i];
      i := i + 1;
    }
  }
}
