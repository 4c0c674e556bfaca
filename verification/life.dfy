/**
 The neighbourhood rule and the transition rule of Conway's Game of Life,
 as pure functions over one buffer, and the whole next generation as a
 reference definition that the imperative step is proved against.
 */
module Life {
  import opened Grid

  /** 1 for a live cell, 0 for a dead one. */
  function Count(alive: bool): (n: nat) {
    if alive then 1 else 0
  }

  /**
   The eight Moore-neighbourhood offsets in the order the program visits
   them: left, top left, top, top right, right, bottom right, bottom,
   bottom left.
   */
  const Moore: seq<(int, int)> := [(-1, 0), (-1, -1), (0, -1), (1, -1), (1, 0), (1, 1), (0, 1), (-1, 1)]

  /** The Moore offsets are exactly the eight non-zero steps of at most one in each direction. */
  lemma MooreIsNeighbourhood(dx: int, dy: int)
    ensures (dx, dy) in Moore <==> -1 <= dx <= 1 && -1 <= dy <= 1 && (dx, dy) != (0, 0)
  {
  }

  /**
   The eight offsets are pairwise distinct. On a grid at least three cells
   in each direction they therefore name eight different cells; on a
   narrower toroidal grid several offsets can read the same cell (see
   `NarrowTorusCountsTwice`).
   */
  lemma MooreDistinct()
    ensures |Moore| == 8
    ensures forall i, j :: 0 <= i < j < |Moore| ==> Moore[i] != Moore[j]
  {
  }

  /** How many of the cells at (x, y) + d, for d in `ds`, are alive. */
  function LiveAmong(s: Shape, b: Board, x: int, y: int, ds: seq<(int, int)>): (n: nat)
    requires Fits(s, b)
    ensures n <= |ds|
  {
    if ds == [] then 0
    else Count(Get(s, b, x + ds[0].0, y + ds[0].1)) + LiveAmong(s, b, x, y, ds[1..])
  }

  /** Counting from position `k` on is the cell at offset `ds[k]` plus the count from `k + 1` on. */
  lemma LiveAmongFrom(s: Shape, b: Board, x: int, y: int, ds: seq<(int, int)>, k: int)
    requires Fits(s, b) && 0 <= k < |ds|
    ensures LiveAmong(s, b, x, y, ds[k..]) == Count(Get(s, b, x + ds[k].0, y + ds[k].1)) + LiveAmong(s, b, x, y, ds[k + 1..])
  {
    assert ds[k..][1..] == ds[k + 1..];
  }

  /** Counting over a concatenation is the sum of the counts over the parts. */
  lemma {:induction false} LiveAmongAppend(s: Shape, b: Board, x: int, y: int, ds: seq<(int, int)>, es: seq<(int, int)>)
    requires Fits(s, b)
    ensures LiveAmong(s, b, x, y, ds + es) == LiveAmong(s, b, x, y, ds) + LiveAmong(s, b, x, y, es)
  {
    if ds != [] {
      assert (ds + es)[1..] == ds[1..] + es;
      LiveAmongAppend(s, b, x, y, ds[1..], es);
    } else {
      assert ds + es == es;
    }
  }

  /** Taking the same element out of two permutations of each other leaves permutations. */
  lemma RemoveMatching<T>(ds: seq<T>, es: seq<T>, k: int)
    requires multiset(ds) == multiset(es) && ds != [] && 0 <= k < |es| && es[k] == ds[0]
    ensures multiset(ds[1..]) == multiset(es[..k] + es[k + 1..])
  {
    assert ds == [ds[0]] + ds[1..];
    assert es == es[..k] + [es[k]] + es[k + 1..];
    assert multiset(ds[1..]) == multiset(ds) - multiset{ds[0]};
    assert multiset(es[..k] + es[k + 1..]) == multiset(es) - multiset{es[k]};
  }

  /** Taking the offset at position `k` out of the list takes its cell out of the count. */
  lemma {:induction false} LiveAmongExtract(s: Shape, b: Board, x: int, y: int, es: seq<(int, int)>, k: int)
    requires Fits(s, b) && 0 <= k < |es|
    ensures LiveAmong(s, b, x, y, es) == Count(Get(s, b, x + es[k].0, y + es[k].1)) + LiveAmong(s, b, x, y, es[..k] + es[k + 1..])
    decreases k
  {
    if k == 0 {
      assert es[..0] + es[1..] == es[1..];
    } else {
      var tail := es[1..];
      LiveAmongExtract(s, b, x, y, tail, k - 1);
      assert tail[k - 1] == es[k];
      var rest := tail[..k - 1] + tail[k..];
      assert es[..k] + es[k + 1..] == [es[0]] + rest;
      assert ([es[0]] + rest)[1..] == rest;
    }
  }

  /** The order in which offsets are visited does not change the count. */
  lemma {:induction false} LiveAmongPermutation(s: Shape, b: Board, x: int, y: int, ds: seq<(int, int)>, es: seq<(int, int)>)
    requires Fits(s, b) && multiset(ds) == multiset(es)
    ensures LiveAmong(s, b, x, y, ds) == LiveAmong(s, b, x, y, es)
    decreases |ds|
  {
    if ds == [] {
      assert |es| == |multiset(es)| == 0;
    } else {
      assert ds[0] in multiset(es);
      var k :| 0 <= k < |es| && es[k] == ds[0];
      RemoveMatching(ds, es, k);
      LiveAmongPermutation(s, b, x, y, ds[1..], es[..k] + es[k + 1..]);
      LiveAmongExtract(s, b, x, y, es, k);
    }
  }

  /** The program's `neighborCount`: the live cells among the eight neighbours of (x, y). */
  function NeighborCount(s: Shape, b: Board, x: int, y: int): (n: nat)
    requires Fits(s, b)
    ensures n <= 8
  {
    Count(Get(s, b, x - 1, y))
    + Count(Get(s, b, x - 1, y - 1))
    + Count(Get(s, b, x, y - 1))
    + Count(Get(s, b, x + 1, y - 1))
    + Count(Get(s, b, x + 1, y))
    + Count(Get(s, b, x + 1, y + 1))
    + Count(Get(s, b, x, y + 1))
    + Count(Get(s, b, x - 1, y + 1))
  }

  /**
   On a toroidal grid one or two columns wide, the left and the right read
   of a cell in column 0 land on the same cell, and the count takes it in
   twice; with a single column that cell is the cell itself.
   */
  lemma NarrowTorusCountsTwice(s: Shape, b: Board, y: int)
    requires Fits(s, b) && s.boundary == Toroidal && s.width <= 2
    ensures Get(s, b, 0 - 1, y) == Get(s, b, 0 + 1, y)
    ensures NeighborCount(s, b, 0, y) >= 2 * Count(Get(s, b, 0 + 1, y))
    ensures s.width == 1 ==> Get(s, b, 0 + 1, y) == Get(s, b, 0, y)
  {
  }

  /** On a fully dead buffer every cell has no live neighbour. */
  lemma NeighborCountOfDeadBoard(s: Shape, b: Board, x: int, y: int)
    requires Fits(s, b) && forall i :: 0 <= i < |b| ==> !b[i]
    ensures NeighborCount(s, b, x, y) == 0
  {
    GetOfDeadBoard(s, b, x - 1, y);
    GetOfDeadBoard(s, b, x - 1, y - 1);
    GetOfDeadBoard(s, b, x, y - 1);
    GetOfDeadBoard(s, b, x + 1, y - 1);
    GetOfDeadBoard(s, b, x + 1, y);
    GetOfDeadBoard(s, b, x + 1, y + 1);
    GetOfDeadBoard(s, b, x, y + 1);
    GetOfDeadBoard(s, b, x - 1, y + 1);
  }

  /** `LiveAmongFrom` with the neighbour named by its absolute coordinates (u, v). */
  lemma LiveAmongAt(s: Shape, b: Board, x: int, y: int, ds: seq<(int, int)>, k: int, u: int, v: int)
    requires Fits(s, b) && 0 <= k < |ds| && ds[k] == (u - x, v - y)
    ensures LiveAmong(s, b, x, y, ds[k..]) == Count(Get(s, b, u, v)) + LiveAmong(s, b, x, y, ds[k + 1..])
  {
    LiveAmongFrom(s, b, x, y, ds, k);
  }

  /** The unrolled count is the count over the Moore offsets. */
  lemma NeighborCountIsMooreCount(s: Shape, b: Board, x: int, y: int)
    requires Fits(s, b)
    ensures NeighborCount(s, b, x, y) == LiveAmong(s, b, x, y, Moore)
  {
    var d := Moore;
    assert d[0..] == d && d[8..] == [];
    LiveAmongAt(s, b, x, y, d, 0, x - 1, y);
    LiveAmongAt(s, b, x, y, d, 1, x - 1, y - 1);
    LiveAmongAt(s, b, x, y, d, 2, x, y - 1);
    LiveAmongAt(s, b, x, y, d, 3, x + 1, y - 1);
    LiveAmongAt(s, b, x, y, d, 4, x + 1, y);
    LiveAmongAt(s, b, x, y, d, 5, x + 1, y + 1);
    LiveAmongAt(s, b, x, y, d, 6, x, y + 1);
    LiveAmongAt(s, b, x, y, d, 7, x - 1, y + 1);
  }

  /** Summing the eight neighbours in any order gives the program's count. */
  lemma NeighborCountAnyOrder(s: Shape, b: Board, x: int, y: int, ds: seq<(int, int)>)
    requires Fits(s, b) && multiset(ds) == multiset(Moore)
    ensures NeighborCount(s, b, x, y) == LiveAmong(s, b, x, y, ds)
  {
    NeighborCountIsMooreCount(s, b, x, y);
    LiveAmongPermutation(s, b, x, y, Moore, ds);
  }

  /** (u, v) is one of the eight cells around (x, y). */
  predicate Adjacent(x: int, y: int, u: int, v: int) {
    -1 <= u - x <= 1 && -1 <= v - y <= 1 && (u != x || v != y)
  }

  /** The eight cells adjacent to (x, y), one by one. */
  lemma AdjacentCases(x: int, y: int, u: int, v: int)
    requires Adjacent(x, y, u, v)
    ensures || (u, v) == (x - 1, y) || (u, v) == (x - 1, y - 1)
            || (u, v) == (x, y - 1) || (u, v) == (x + 1, y - 1)
            || (u, v) == (x + 1, y) || (u, v) == (x + 1, y + 1)
            || (u, v) == (x, y + 1) || (u, v) == (x - 1, y + 1)
  {
  }

  /** A count of 0 means no adjacent cell is alive. */
  lemma NoneAliveWhenZero(s: Shape, b: Board, x: int, y: int)
    requires Fits(s, b) && NeighborCount(s, b, x, y) == 0
    ensures forall u, v :: Adjacent(x, y, u, v) ==> !Get(s, b, u, v)
  {
    forall u, v | Adjacent(x, y, u, v)
      ensures !Get(s, b, u, v)
    {
      AdjacentCases(x, y, u, v);
    }
  }

  /** No live neighbour is exactly a neighbour count of zero. */
  lemma LonelyIffNoNeighbours(s: Shape, b: Board, x: int, y: int)
    requires Fits(s, b)
    ensures NeighborCount(s, b, x, y) == 0
        <==> forall u, v :: Adjacent(x, y, u, v) ==> !Get(s, b, u, v)
  {
    if NeighborCount(s, b, x, y) == 0 {
      NoneAliveWhenZero(s, b, x, y);
    } else {
      assert Adjacent(x, y, x - 1, y) && Adjacent(x, y, x - 1, y - 1);
      assert Adjacent(x, y, x, y - 1) && Adjacent(x, y, x + 1, y - 1);
      assert Adjacent(x, y, x + 1, y) && Adjacent(x, y, x + 1, y + 1);
      assert Adjacent(x, y, x, y + 1) && Adjacent(x, y, x - 1, y + 1);
    }
  }

  /** A count of 8 means every adjacent cell is alive. */
  lemma AllAliveWhenEight(s: Shape, b: Board, x: int, y: int)
    requires Fits(s, b) && NeighborCount(s, b, x, y) == 8
    ensures forall u, v :: Adjacent(x, y, u, v) ==> Get(s, b, u, v)
  {
    forall u, v | Adjacent(x, y, u, v)
      ensures Get(s, b, u, v)
    {
      AdjacentCases(x, y, u, v);
    }
  }

  /** Eight live neighbours is exactly a fully live neighbourhood. */
  lemma CrowdedIffAllNeighbours(s: Shape, b: Board, x: int, y: int)
    requires Fits(s, b)
    ensures NeighborCount(s, b, x, y) == 8
        <==> forall u, v :: Adjacent(x, y, u, v) ==> Get(s, b, u, v)
  {
    if NeighborCount(s, b, x, y) == 8 {
      AllAliveWhenEight(s, b, x, y);
    } else {
      assert Adjacent(x, y, x - 1, y) && Adjacent(x, y, x - 1, y - 1);
      assert Adjacent(x, y, x, y - 1) && Adjacent(x, y, x + 1, y - 1);
      assert Adjacent(x, y, x + 1, y) && Adjacent(x, y, x + 1, y + 1);
      assert Adjacent(x, y, x, y + 1) && Adjacent(x, y, x - 1, y + 1);
    }
  }

  /**
   The transition rule as the program writes it, `alive && n == 2 || n == 3`
   with `&&` binding tighter. It is the standard B3/S23 rule: a live cell
   survives with two or three neighbours, a dead cell is born with three.
   */
  function NextCell(alive: bool, n: int): (r: bool)
    ensures alive ==> (r <==> n == 2 || n == 3)
    ensures !alive ==> (r <==> n == 3)
  {
    (alive && n == 2) || n == 3
  }

  /** The next state of cell (x, y), computed only from `b`. */
  function NextAt(s: Shape, b: Board, x: int, y: int): (r: bool)
    requires Fits(s, b)
  {
    NextCell(Get(s, b, x, y), NeighborCount(s, b, x, y))
  }

  /** The whole next generation: every cell advanced by the rule, reading only `b`. */
  function Next(s: Shape, b: Board): (r: Board)
    requires Fits(s, b)
    ensures Fits(s, r)
    ensures forall x, y :: s.InRange(x, y) ==> r[Index(s, x, y)] == NextAt(s, b, x, y)
  {
    var r := seq(s.Size(), i requires 0 <= i < s.Size() =>
                   IndexSurjective(s, i);
                   NextAt(s, b, i % s.width, i / s.width));
    assert forall x, y :: s.InRange(x, y) ==> r[Index(s, x, y)] == NextAt(s, b, x, y);
    r
  }

  /** `k` generations from `b`. */
  function Run(s: Shape, b: Board, k: nat): (r: Board)
    requires Fits(s, b)
    ensures Fits(s, r)
    decreases k
  {
    if k == 0 then b else Run(s, Next(s, b), k - 1)
  }

  /** Running `j` generations and then `k` more is running `j + k` generations. */
  lemma {:induction false} RunAdditive(s: Shape, b: Board, j: nat, k: nat)
    requires Fits(s, b)
    ensures Run(s, b, j + k) == Run(s, Run(s, b, j), k)
    decreases j
  {
    if j > 0 {
      RunAdditive(s, Next(s, b), j - 1, k);
    }
  }

  /** A board that agrees with `b` at every grid position is `b`. */
  lemma BoardsAgree(s: Shape, b: Board, c: Board)
    requires Fits(s, b) && Fits(s, c)
    requires forall x, y :: s.InRange(x, y) ==> b[Index(s, x, y)] == c[Index(s, x, y)]
    ensures b == c
  {
    forall i | 0 <= i < |b|
      ensures b[i] == c[i]
    {
      IndexSurjective(s, i);
    }
  }

  /** No spontaneous births: a fully dead board stays fully dead, in either boundary mode. */
  lemma DeadStaysDead(s: Shape, b: Board)
    requires Fits(s, b) && forall i :: 0 <= i < |b| ==> !b[i]
    ensures Next(s, b) == b
  {
    var r := Next(s, b);
    forall i | 0 <= i < |r|
      ensures !r[i]
    {
      IndexSurjective(s, i);
      GetOfDeadBoard(s, b, i % s.width, i / s.width);
      NeighborCountOfDeadBoard(s, b, i % s.width, i / s.width);
    }
  }

  /** ... and after any number of generations. */
  lemma {:induction false} DeadStaysDeadForever(s: Shape, b: Board, k: nat)
    requires Fits(s, b) && forall i :: 0 <= i < |b| ==> !b[i]
    ensures Run(s, b, k) == b
  {
    if k > 0 {
      DeadStaysDead(s, b);
      DeadStaysDeadForever(s, b, k - 1);
    }
  }

  /** A cell with no live neighbour is dead in the next generation, alive or not. */
  lemma IsolatedCellDies(s: Shape, b: Board, x: int, y: int)
    requires Fits(s, b) && s.InRange(x, y)
    requires forall u, v :: Adjacent(x, y, u, v) ==> !Get(s, b, u, v)
    ensures !Next(s, b)[Index(s, x, y)]
  {
    LonelyIffNoNeighbours(s, b, x, y);
  }

  /** The centre of a fully live 3x3 block dies of overpopulation. */
  lemma CrowdedCellDies(s: Shape, b: Board, x: int, y: int)
    requires Fits(s, b) && s.InRange(x, y)
    requires Get(s, b, x, y)
    requires forall u, v :: Adjacent(x, y, u, v) ==> Get(s, b, u, v)
    ensures !Next(s, b)[Index(s, x, y)]
  {
    CrowdedIffAllNeighbours(s, b, x, y);
  }
}
