/** The rules of Conway's Game of Life on a bounded (non-wrapping) grid, as values.
    A generation is a width × height grid of cells stored row-major in one flat
    buffer, cell (x, y) at index y * width + x. Cells outside the grid read as dead.
    This module is the specification the imperative engine in GameOfLife is proved against. */
module Life {

  /** Number of values of a 32-bit unsigned integer: coordinates wrap modulo this. */
  const U32: nat := 0x1_0000_0000

  /** Largest value of a 32-bit signed integer, the type of the grid dimensions. */
  const I32_MAX: nat := 0x7FFF_FFFF

  /** Dimensions the engine can be built with: positive signed 32-bit values whose
      product, which clearing the world computes in signed 32-bit arithmetic, does not
      overflow. The unsigned index y * width + x then never wraps either. */
  predicate ValidSize(width: nat, height: nat)
  {
    0 < width <= I32_MAX && 0 < height <= I32_MAX && width * height <= I32_MAX
  }

  /** One generation. */
  datatype Grid = Grid(width: nat, height: nat, cells: seq<bool>)
  {
    ghost predicate Valid()
    {
      ValidSize(width, height) && |cells| == width * height
    }
  }

  /** `v - 1` in 32-bit unsigned arithmetic. */
  function Dec32(v: nat): (r: nat)
    requires v < U32
    ensures r < U32
    ensures r == if v == 0 then U32 - 1 else v - 1
  {
    (v - 1) % U32
  }

  /** `v + 1` in 32-bit unsigned arithmetic. */
  function Inc32(v: nat): (r: nat)
    requires v < U32
    ensures r < U32
    ensures r == if v == U32 - 1 then 0 else v + 1
  {
    (v + 1) % U32
  }

  predicate InBounds(g: Grid, x: int, y: int)
  {
    0 <= x < g.width && 0 <= y < g.height
  }

  /** Position of cell (x, y) in the flat buffer. */
  function Index(g: Grid, x: nat, y: nat): (i: nat)
    requires g.Valid() && InBounds(g, x, y)
    ensures i < |g.cells|
  {
    IndexInRange(g.width, g.height, x, y);
    y * g.width + x
  }

  /** Whether cell (x, y) is alive; every coordinate outside the grid is dead. */
  function Alive(g: Grid, x: int, y: int): (alive: bool)
    requires g.Valid()
    ensures alive ==> InBounds(g, x, y)
  {
    InBounds(g, x, y) && g.cells[Index(g, x, y)]
  }

  /** The Moore neighbourhood: the eight orthogonal and diagonal offsets. */
  const Moore: seq<(int, int)> := [(-1, -1), (0, -1), (1, -1), (1, 0), (1, 1), (0, 1), (-1, 1), (-1, 0)]

  /** How many of the cells (x + dx, y + dy), for (dx, dy) in `offsets`, are alive. */
  function CountAlive(g: Grid, x: int, y: int, offsets: seq<(int, int)>): (n: nat)
    requires g.Valid()
    ensures n <= |offsets|
  {
    if offsets == [] then 0
    else Bit(Alive(g, x + offsets[0].0, y + offsets[0].1)) + CountAlive(g, x, y, offsets[1..])
  }

  /** 1 for a live cell, 0 for a dead one. */
  function Bit(alive: bool): (n: nat)
    ensures n <= 1 && (n == 1 <==> alive)
  {
    if alive then 1 else 0
  }

  /** Number of live cells among the eight neighbours of (x, y). */
  function LiveNeighbours(g: Grid, x: int, y: int): (n: nat)
    requires g.Valid()
    ensures n <= 8
  {
    CountAlive(g, x, y, Moore)
  }

  /** The next state of one cell, as a decision table on its state and neighbour count:
      it is the B3/S23 rule (born with 3, survives with 2 or 3). */
  function Rule(alive: bool, n: nat): (next: bool)
    ensures next <==> n == 3 || (alive && n == 2)
  {
    if alive then
      if n < 2 then false        // underpopulation
      else if n <= 3 then true   // survives
      else false                 // overpopulation
    else
      n == 3                     // birth, or stays dead
  }

  /** The next generation: every cell follows Rule, reading only the current generation. */
  function NextGen(g: Grid): (r: Grid)
    requires g.Valid()
    ensures r.Valid() && r.width == g.width && r.height == g.height
  {
    Grid(g.width, g.height,
         seq(|g.cells|, i requires 0 <= i < |g.cells| =>
               Rule(g.cells[i], LiveNeighbours(g, i % g.width, i / g.width))))
  }

  /** The grid after n generations. */
  function Generations(g: Grid, n: nat): (r: Grid)
    requires g.Valid()
    ensures r.Valid() && r.width == g.width && r.height == g.height
  {
    if n == 0 then g else NextGen(Generations(g, n - 1))
  }

  /** The all-dead grid of the given size. */
  function Dead(width: nat, height: nat): (g: Grid)
    requires ValidSize(width, height)
    ensures g.Valid() && g.width == width && g.height == height
    ensures forall x, y :: !Alive(g, x, y)
  {
    Grid(width, height, seq(width * height, _ => false))
  }

  /** The grid with cell (x, y) forced to `alive` and every other cell as it was. */
  function Edit(g: Grid, x: int, y: int, alive: bool): (r: Grid)
    requires g.Valid() && InBounds(g, x, y)
    ensures r.Valid() && r.width == g.width && r.height == g.height
    ensures Alive(r, x, y) == alive
    ensures forall x', y' :: (x', y') != (x, y) ==> Alive(r, x', y') == Alive(g, x', y')
  {
    var r := Grid(g.width, g.height, g.cells[Index(g, x, y) := alive]);
    forall x', y' | (x', y') != (x, y) && InBounds(g, x', y')
      ensures Alive(r, x', y') == Alive(g, x', y')
    {
      assert Index(r, x', y') != Index(g, x, y) by {
        IndexInjective(g, x, y, x', y');
      }
    }
    r
  }

  /** The unchecked write of a cell: `alive` is stored at flat position i, which edits the
      cell stored there (every position holds exactly one cell, see CellAt). */
  function WriteAt(g: Grid, i: nat, alive: bool): (r: Grid)
    requires g.Valid() && i < |g.cells|
    ensures forall x: nat, y: nat {:trigger Index(g, x, y)} ::
              InBounds(g, x, y) && Index(g, x, y) == i ==> r == Edit(g, x, y, alive)
  {
    Grid(g.width, g.height, g.cells[i := alive])
  }

  /** The write at position i edits the cell (i mod width, i div width). */
  lemma WriteAtDecodes(g: Grid, i: nat, alive: bool)
    requires g.Valid() && i < |g.cells|
    ensures i % g.width < g.width && i / g.width < g.height
    ensures WriteAt(g, i, alive) == Edit(g, i % g.width, i / g.width, alive)
  {
    var x, y := CellAt(g, i);
  }

  /** A column one past the right edge of row y lands on the first cell of row y + 1. */
  lemma PastRowEndEditsNextRow(g: Grid, y: nat, alive: bool)
    requires g.Valid() && y + 1 < g.height
    ensures y * g.width + g.width < |g.cells|
    ensures WriteAt(g, y * g.width + g.width, alive) == Edit(g, 0, y + 1, alive)
  {
    IndexInRange(g.width, g.height, 0, y + 1);
    assert Index(g, 0, y + 1) == y * g.width + g.width by {
      RowStart(g.width, y);
    }
  }

  /** Each in-bounds cell of the next generation is Rule applied to the cell's state and
      its live-neighbour count; outside the grid the next generation is dead as well. */
  lemma NextGenAt(g: Grid, x: int, y: int)
    requires g.Valid()
    ensures Alive(NextGen(g), x, y) == (InBounds(g, x, y) && Rule(Alive(g, x, y), LiveNeighbours(g, x, y)))
  {
    if InBounds(g, x, y) {
      NextGenIndex(g, x, y);
      assert Index(NextGen(g), x, y) == Index(g, x, y);
    }
  }

  /** NextGen stores the next state of cell (x, y) at the cell's own position. */
  lemma NextGenIndex(g: Grid, x: nat, y: nat)
    requires g.Valid() && InBounds(g, x, y)
    ensures NextGen(g).cells[Index(g, x, y)] == Rule(g.cells[Index(g, x, y)], LiveNeighbours(g, x, y))
  {
    IndexDecodes(g.width, x, y);
  }

  /** `next` holds, at the position of every cell, Rule applied to that cell. */
  ghost predicate IsNextGenCells(g: Grid, next: seq<bool>)
    requires g.Valid()
  {
    |next| == |g.cells| &&
    forall x: nat, y: nat {:trigger next[Index(g, x, y)]} :: InBounds(g, x, y) ==>
      next[Index(g, x, y)] == Rule(g.cells[Index(g, x, y)], LiveNeighbours(g, x, y))
  }

  /** Cell by cell, NextGen is the only sequence that applies Rule at every position. */
  lemma NextGenCells(g: Grid, next: seq<bool>)
    requires g.Valid()
    ensures IsNextGenCells(g, next) <==> next == NextGen(g).cells
  {
    if IsNextGenCells(g, next) {
      IsNextGenCellsUnique(g, next);
    }
    if next == NextGen(g).cells {
      forall x: nat, y: nat | InBounds(g, x, y)
        ensures next[Index(g, x, y)] == Rule(g.cells[Index(g, x, y)], LiveNeighbours(g, x, y))
      {
        NextGenIndex(g, x, y);
      }
    }
  }

  /** Some sequence satisfies IsNextGenCells: the cells of NextGen. */
  lemma NextGenCellsExist(g: Grid) returns (next: seq<bool>)
    requires g.Valid()
    ensures IsNextGenCells(g, next) && |next| == |g.cells|
  {
    next := NextGen(g).cells;
    NextGenCells(g, next);
  }

  lemma IsNextGenCellsUnique(g: Grid, next: seq<bool>)
    requires g.Valid() && IsNextGenCells(g, next)
    ensures next == NextGen(g).cells
  {
    forall i | 0 <= i < |next|
      ensures next[i] == NextGen(g).cells[i]
    {
      IsNextGenCellsAt(g, next, i);
    }
  }

  lemma IsNextGenCellsAt(g: Grid, next: seq<bool>, i: nat)
    requires g.Valid() && IsNextGenCells(g, next) && i < |next|
    ensures next[i] == NextGen(g).cells[i]
  {
    var x, y := CellAt(g, i);
    NextGenIndex(g, x, y);
    assert next[Index(g, x, y)] == Rule(g.cells[Index(g, x, y)], LiveNeighbours(g, x, y));
  }

  /** `buf` after writing, at each position of `order` in turn, the next state of the
      cell there, computed from `g` alone: the inner step of a tick, visiting the cells in
      an arbitrary order and starting from whatever the output buffer held. This is a fact
      about the writes themselves. Tick does not use this fold: it proves its own
      row-major order through its loop invariants. */
  function WriteNext(g: Grid, buf: seq<bool>, order: seq<nat>): (r: seq<bool>)
    requires g.Valid() && |buf| == |g.cells|
    requires forall k :: 0 <= k < |order| ==> order[k] < |buf|
    ensures |r| == |buf|
    decreases |order|
  {
    if order == [] then buf
    else WriteNext(g, buf[order[0] := NextGen(g).cells[order[0]]], order[1..])
  }

  /** Once every position has been visited, the output is the next generation, whatever
      the visiting order and whatever the output buffer held before: no write depends on
      another write. */
  lemma AnyOrderGivesNextGen(g: Grid, buf: seq<bool>, order: seq<nat>)
    requires g.Valid() && |buf| == |g.cells|
    requires forall k :: 0 <= k < |order| ==> order[k] < |buf|
    requires forall i :: 0 <= i < |buf| ==> i in order
    ensures WriteNext(g, buf, order) == NextGen(g).cells
  {
    WriteNextAt(g, buf, order);
  }

  /** A visited position holds its cell's next state; any other keeps its old value. */
  lemma {:induction false} WriteNextAt(g: Grid, buf: seq<bool>, order: seq<nat>)
    requires g.Valid() && |buf| == |g.cells|
    requires forall k :: 0 <= k < |order| ==> order[k] < |buf|
    ensures forall i :: 0 <= i < |buf| ==>
              WriteNext(g, buf, order)[i] == if i in order then NextGen(g).cells[i] else buf[i]
    decreases |order|
  {
    if order != [] {
      var buf' := buf[order[0] := NextGen(g).cells[order[0]]];
      WriteNextAt(g, buf', order[1..]);
    }
  }

  /** A grid is determined by its dimensions and by which coordinates are alive. */
  lemma SameCells(g: Grid, h: Grid)
    requires g.Valid() && h.Valid() && g.width == h.width && g.height == h.height
    requires forall x, y :: Alive(g, x, y) == Alive(h, x, y)
    ensures g == h
  {
    forall i | 0 <= i < |g.cells|
      ensures g.cells[i] == h.cells[i]
    {
      var x, y := CellAt(g, i);
      assert Alive(g, x, y) == Alive(h, x, y);
    }
  }

  /** The coordinates of the cell stored at position i. */
  lemma CellAt(g: Grid, i: nat) returns (x: nat, y: nat)
    requires g.Valid() && i < |g.cells|
    ensures InBounds(g, x, y) && Index(g, x, y) == i
    ensures x == i % g.width && y == i / g.width
  {
    x, y := IndexSplits(g.width, g.height, i);
    assert Index(g, x, y) == y * g.width + x;
  }

  /** The count is zero exactly when none of the examined cells is alive. */
  lemma {:induction false} CountAliveZero(g: Grid, x: int, y: int, offsets: seq<(int, int)>)
    requires g.Valid()
    ensures CountAlive(g, x, y, offsets) == 0 <==>
            forall k :: 0 <= k < |offsets| ==> !Alive(g, x + offsets[k].0, y + offsets[k].1)
  {
    if offsets != [] {
      CountAliveZero(g, x, y, offsets[1..]);
      assert forall k :: 1 <= k < |offsets| ==> offsets[k] == offsets[1..][k - 1];
    }
  }

  /** Advancing an all-dead grid yields the same all-dead grid: no dead cell has
      exactly three live neighbours. */
  lemma DeadStaysDead(width: nat, height: nat)
    requires ValidSize(width, height)
    ensures NextGen(Dead(width, height)) == Dead(width, height)
  {
    var g := Dead(width, height);
    forall i | 0 <= i < |g.cells|
      ensures NextGen(g).cells[i] == g.cells[i]
    {
      CountAliveZero(g, i % width, i / width, Moore);
    }
  }

  /** The live-neighbour count written out as its eight terms. */
  lemma LiveNeighboursUnrolled(g: Grid, x: int, y: int)
    requires g.Valid()
    ensures LiveNeighbours(g, x, y) ==
            Bit(Alive(g, x - 1, y - 1)) + Bit(Alive(g, x, y - 1)) +
            Bit(Alive(g, x + 1, y - 1)) + Bit(Alive(g, x + 1, y)) +
            Bit(Alive(g, x + 1, y + 1)) + Bit(Alive(g, x, y + 1)) +
            Bit(Alive(g, x - 1, y + 1)) + Bit(Alive(g, x - 1, y))
  {
    var o := Moore;
    LastFourNeighbours(g, x, y);
    assert CountAlive(g, x, y, o[3..]) == Bit(Alive(g, x + 1, y)) + CountAlive(g, x, y, o[4..]);
    assert CountAlive(g, x, y, o[2..]) == Bit(Alive(g, x + 1, y - 1)) + CountAlive(g, x, y, o[3..]);
    assert CountAlive(g, x, y, o[1..]) == Bit(Alive(g, x, y - 1)) + CountAlive(g, x, y, o[2..]);
  }

  /** The count over the last four Moore offsets, written out term by term. */
  lemma LastFourNeighbours(g: Grid, x: int, y: int)
    requires g.Valid()
    ensures CountAlive(g, x, y, Moore[4..]) ==
            Bit(Alive(g, x + 1, y + 1)) + Bit(Alive(g, x, y + 1)) +
            Bit(Alive(g, x - 1, y + 1)) + Bit(Alive(g, x - 1, y))
  {
    var o := Moore;
    assert CountAlive(g, x, y, o[8..]) == 0;
    assert CountAlive(g, x, y, o[7..]) == Bit(Alive(g, x - 1, y));
    assert CountAlive(g, x, y, o[6..]) == Bit(Alive(g, x - 1, y + 1)) + CountAlive(g, x, y, o[7..]);
    assert CountAlive(g, x, y, o[5..]) == Bit(Alive(g, x, y + 1)) + CountAlive(g, x, y, o[6..]);
  }

  /** Stepping to a neighbour with 32-bit unsigned arithmetic reaches the same cell as
      stepping with integer coordinates (Alive), as long as the increment does not wrap: a
      decrement of 0 wraps to a value past the last column or row, which reads as dead. */
  lemma LiveNeighboursWrapped(g: Grid, x: nat, y: nat)
    requires g.Valid() && x < U32 && y < U32
    ensures x + 1 < U32 && y + 1 < U32 ==>
              LiveNeighbours(g, x, y) ==
              Bit(Alive(g, Dec32(x), Dec32(y))) + Bit(Alive(g, x, Dec32(y))) +
              Bit(Alive(g, Inc32(x), Dec32(y))) + Bit(Alive(g, Inc32(x), y)) +
              Bit(Alive(g, Inc32(x), Inc32(y))) + Bit(Alive(g, x, Inc32(y))) +
              Bit(Alive(g, Dec32(x), Inc32(y))) + Bit(Alive(g, Dec32(x), y))
  {
    if x + 1 < U32 && y + 1 < U32 {
      LiveNeighboursUnrolled(g, x, y);
      forall b: int ensures Alive(g, Dec32(x), b) == Alive(g, x - 1, b) {}
      forall a: int ensures Alive(g, a, Dec32(y)) == Alive(g, a, y - 1) {}
    }
  }

  /** Distinct in-bounds cells occupy distinct positions of the buffer. */
  lemma IndexInjective(g: Grid, x: nat, y: nat, x': nat, y': nat)
    requires g.Valid() && InBounds(g, x, y) && InBounds(g, x', y')
    ensures Index(g, x, y) == Index(g, x', y') ==> x == x' && y == y'
  {
    IndexDecodes(g.width, x, y);
    IndexDecodes(g.width, x', y');
  }

  // Arithmetic about the row-major layout.

  lemma {:induction false} MulMonotone(a: nat, b: nat, c: nat)
    requires a <= b
    ensures a * c <= b * c
  {
    if a < b {
      MulMonotone(a, b - 1, c);
      assert b * c == (b - 1) * c + c;
    }
  }

  lemma IndexInRange(width: nat, height: nat, x: nat, y: nat)
    requires x < width && y < height
    ensures y * width + x < width * height
  {
    MulMonotone(y + 1, height, width);
    assert (y + 1) * width == y * width + width;
  }

  /** The first cell of row y + 1 follows the last cell of row y. */
  lemma RowStart(width: nat, y: nat)
    ensures (y + 1) * width == y * width + width
  {
  }

  /** Position i of a width × height buffer is column i mod width of row i div width. */
  lemma IndexSplits(width: nat, height: nat, i: nat) returns (x: nat, y: nat)
    requires 0 < width && i < width * height
    ensures x == i % width && y == i / width
    ensures x < width && y < height && i == y * width + x
  {
    x, y := i % width, i / width;
    if y >= height {
      MulMonotone(height, y, width);
    }
  }

  lemma IndexDecodes(width: nat, x: nat, y: nat)
    requires x < width
    ensures (y * width + x) / width == y && (y * width + x) % width == x
  {
    var a := y * width + x;
    var q, r := a / width, a % width;
    assert q * width + r == a;
    if q > y {
      MulMonotone(1, q - y, width);
      assert false;
    } else if q < y {
      MulMonotone(1, y - q, width);
      assert false;
    }
  }
}
