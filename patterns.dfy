/** Concrete generations on small grids: a still life, a period-2 oscillator and a
    pattern that the grid's edge truncates. */
module Patterns {
  import opened Life

  /** A 2 × 2 block in the middle of a 4 × 4 grid. */
  const Block: Grid :=
    Grid(4, 4, [
      false, false, false, false,
      false, true , true , false,
      false, true , true , false,
      false, false, false, false])

  /** A blinker in its horizontal phase in the top-left corner of a 5 × 5 grid: cells
      (0, 1), (1, 1) and (2, 1). */
  const Horizontal: Grid :=
    Grid(5, 5, [
      false, false, false, false, false,
      true , true , true , false, false,
      false, false, false, false, false,
      false, false, false, false, false,
      false, false, false, false, false])

  /** The same blinker in its vertical phase: cells (1, 0), (1, 1) and (1, 2). */
  const Vertical: Grid :=
    Grid(5, 5, [
      false, true , false, false, false,
      false, true , false, false, false,
      false, true , false, false, false,
      false, false, false, false, false,
      false, false, false, false, false])

  /** Three live cells along the top edge of a 5 × 5 grid: (0, 0), (1, 0) and (2, 0). */
  const TopRow: Grid :=
    Grid(5, 5, [
      true , true , true , false, false,
      false, false, false, false, false,
      false, false, false, false, false,
      false, false, false, false, false,
      false, false, false, false, false])

  /** What TopRow advances to: cells (1, 0) and (1, 1). In an infinite Life universe,
      cell (1, -1) would be born as well. */
  const TopRowNext: Grid :=
    Grid(5, 5, [
      false, true , false, false, false,
      false, true , false, false, false,
      false, false, false, false, false,
      false, false, false, false, false,
      false, false, false, false, false])

  /** The live coordinates of each pattern; the lemmas below tie each constant to its predicate. */
  predicate InBlockAt(p: int, q: int, a: int, b: int) { p <= a <= p + 1 && q <= b <= q + 1 }
  predicate InHorizontal(a: int, b: int) { b == 1 && 0 <= a <= 2 }
  predicate InVertical(a: int, b: int) { a == 1 && 0 <= b <= 2 }
  predicate InTopRow(a: int, b: int) { b == 0 && 0 <= a <= 2 }
  predicate InTopRowNext(a: int, b: int) { a == 1 && 0 <= b <= 1 }

  lemma BlockAlive(a: int, b: int)
    ensures Block.Valid() && Alive(Block, a, b) == InBlockAt(1, 1, a, b)
  {
  }

  lemma HorizontalAlive(a: int, b: int)
    ensures Horizontal.Valid() && Alive(Horizontal, a, b) == InHorizontal(a, b)
  {
  }

  lemma VerticalAlive(a: int, b: int)
    ensures Vertical.Valid() && Alive(Vertical, a, b) == InVertical(a, b)
  {
  }

  lemma TopRowAlive(a: int, b: int)
    ensures TopRow.Valid() && Alive(TopRow, a, b) == InTopRow(a, b)
  {
  }

  lemma TopRowNextAlive(a: int, b: int)
    ensures TopRowNext.Valid() && Alive(TopRowNext, a, b) == InTopRowNext(a, b)
  {
  }

  /** On any grid holding exactly one 2 × 2 block, at columns p..p+1 and rows q..q+1,
      the live cells of the next generation are exactly that block again: each of its
      cells has three live neighbours, and no other cell has three. */
  lemma BlockStep(g: Grid, p: nat, q: nat)
    requires g.Valid() && p + 1 < g.width && q + 1 < g.height
    requires forall a, b :: Alive(g, a, b) == InBlockAt(p, q, a, b)
    ensures forall a, b :: Alive(NextGen(g), a, b) == InBlockAt(p, q, a, b)
  {
    forall a, b ensures Alive(NextGen(g), a, b) == InBlockAt(p, q, a, b) {
      NextGenAt(g, a, b);
      LiveNeighboursUnrolled(g, a, b);
    }
  }

  /** Such a block is a still life: it is unchanged after any number of generations. */
  lemma {:induction false} BlockStaysStill(g: Grid, p: nat, q: nat, n: nat)
    requires g.Valid() && p + 1 < g.width && q + 1 < g.height
    requires forall a, b :: Alive(g, a, b) == InBlockAt(p, q, a, b)
    ensures Generations(g, n) == g
  {
    if n > 0 {
      BlockStaysStill(g, p, q, n - 1);
      BlockStep(g, p, q);
      SameCells(NextGen(g), g);
    }
  }

  /** The block constant is a still life: advancing it gives the block again. */
  lemma BlockIsStill()
    ensures NextGen(Block) == Block
  {
    var g := Block;
    forall a, b ensures Alive(g, a, b) == InBlockAt(1, 1, a, b) {
      BlockAlive(a, b);
    }
    BlockStep(g, 1, 1);
    forall a, b ensures Alive(NextGen(g), a, b) == Alive(Block, a, b) {
      BlockAlive(a, b);
    }
    SameCells(NextGen(g), Block);
  }

  /** On any grid of at least 5 × 5 whose live cells are exactly the horizontal blinker, the live cells
      of the next generation are exactly the vertical blinker. */
  lemma HorizontalStep(g: Grid)
    requires g.Valid() && g.width >= 5 && g.height >= 5
    requires forall a, b :: Alive(g, a, b) == InHorizontal(a, b)
    ensures forall a, b :: Alive(NextGen(g), a, b) == InVertical(a, b)
  {
    forall a, b ensures Alive(NextGen(g), a, b) == InVertical(a, b) {
      NextGenAt(g, a, b);
      LiveNeighboursUnrolled(g, a, b);
    }
  }

  /** The horizontal blinker turns vertical after one generation. */
  lemma HorizontalTurnsVertical()
    ensures NextGen(Horizontal) == Vertical
  {
    var g := Horizontal;
    forall a, b ensures Alive(g, a, b) == InHorizontal(a, b) {
      HorizontalAlive(a, b);
    }
    HorizontalStep(g);
    forall a, b ensures Alive(NextGen(g), a, b) == Alive(Vertical, a, b) {
      VerticalAlive(a, b);
    }
    SameCells(NextGen(g), Vertical);
  }

  /** On any grid of at least 5 × 5 whose live cells are exactly the vertical blinker, the live cells
      of the next generation are exactly the horizontal blinker. */
  lemma VerticalStep(g: Grid)
    requires g.Valid() && g.width >= 5 && g.height >= 5
    requires forall a, b :: Alive(g, a, b) == InVertical(a, b)
    ensures forall a, b :: Alive(NextGen(g), a, b) == InHorizontal(a, b)
  {
    forall a, b ensures Alive(NextGen(g), a, b) == InHorizontal(a, b) {
      NextGenAt(g, a, b);
      LiveNeighboursUnrolled(g, a, b);
    }
  }

  /** The vertical blinker turns horizontal again after one generation. */
  lemma VerticalTurnsHorizontal()
    ensures NextGen(Vertical) == Horizontal
  {
    var g := Vertical;
    forall a, b ensures Alive(g, a, b) == InVertical(a, b) {
      VerticalAlive(a, b);
    }
    VerticalStep(g);
    forall a, b ensures Alive(NextGen(g), a, b) == Alive(Horizontal, a, b) {
      HorizontalAlive(a, b);
    }
    SameCells(NextGen(g), Horizontal);
  }

  /** On any grid of at least 5 × 5 whose live cells are exactly the top-row line, the
      live cells of the next generation are exactly (1, 0) and (1, 1). Cell (1, -1) has
      three live neighbours, as it would in an infinite Life universe, yet it is not born:
      it lies outside the grid, and the grid does not wrap. */
  lemma TopRowStep(g: Grid)
    requires g.Valid() && g.width >= 5 && g.height >= 5
    requires forall a, b :: Alive(g, a, b) == InTopRow(a, b)
    ensures forall a, b :: Alive(NextGen(g), a, b) == InTopRowNext(a, b)
    ensures LiveNeighbours(g, 1, -1) == 3 && !Alive(NextGen(g), 1, -1)
  {
    forall a, b ensures Alive(NextGen(g), a, b) == InTopRowNext(a, b) {
      NextGenAt(g, a, b);
      LiveNeighboursUnrolled(g, a, b);
    }
    LiveNeighboursUnrolled(g, 1, -1);
  }

  /** The edge truncates the top-row line: it advances to TopRowNext. */
  lemma TopRowTruncated()
    ensures NextGen(TopRow) == TopRowNext
  {
    var g := TopRow;
    forall a, b ensures Alive(g, a, b) == InTopRow(a, b) {
      TopRowAlive(a, b);
    }
    TopRowStep(g);
    forall a, b ensures Alive(NextGen(g), a, b) == Alive(TopRowNext, a, b) {
      TopRowNextAlive(a, b);
    }
    SameCells(NextGen(g), TopRowNext);
  }

  /** The blinker has period two. */
  lemma BlinkerPeriodTwo()
    ensures NextGen(NextGen(Horizontal)) == Horizontal
    ensures NextGen(Horizontal) != Horizontal
  {
    HorizontalTurnsVertical();
    VerticalTurnsHorizontal();
    HorizontalAlive(0, 1);
    VerticalAlive(0, 1);
  }
}
