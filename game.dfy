/** The generation engine of the Game class: two flat buffers of width × height cells,
    `oldWorld` holding the current generation and `newWorld` the one being computed. */
module GameOfLife {
  import opened Life

  class Game {
    const width: nat
    const height: nat
    /** The current generation, read by the rule and by the renderer. */
    const oldWorld: array<bool>
    /** The next generation, written by Tick. */
    const newWorld: array<bool>

    ghost predicate Valid()
      reads this
    {
      ValidSize(width, height) &&
      oldWorld.Length == width * height && newWorld.Length == width * height &&
      oldWorld != newWorld
    }

    /** The current generation as a value. */
    ghost function Current(): (g: Grid)
      reads this, oldWorld
      requires Valid()
      ensures g.Valid()
    {
      Grid(width, height, oldWorld[..])
    }

    /** Allocates both buffers, clears them and runs one tick, as loading the game does. */
    constructor (width: nat, height: nat)
      requires ValidSize(width, height)
      ensures Valid() && fresh(oldWorld) && fresh(newWorld)
      ensures this.width == width && this.height == height
      ensures Current() == Dead(width, height)
      ensures forall i :: 0 <= i < newWorld.Length ==> !newWorld[i]
    {
      this.width, this.height := width, height;
      newWorld := new bool[width * height];
      oldWorld := new bool[width * height];
      new;
      ClearWorld();
      Tick();
      DeadStaysDead(width, height);
    }

    /** Reads cell (x, y) of the current generation, for 32-bit unsigned coordinates;
        a coordinate past the last column or row (including a decrement that wrapped
        below zero) reads as dead. */
    function CheckCell(x: nat, y: nat): (alive: bool)
      reads this, oldWorld
      requires Valid() && x < U32 && y < U32
      ensures alive == Alive(Current(), x, y)
    {
      if x > width - 1 then false
      else if y > height - 1 then false
      else
        IndexInRange(width, height, x, y);
        oldWorld[y * width + x]
    }

    /** Counts the live cells among the eight neighbours of (x, y), stepping to each with
        32-bit unsigned arithmetic: the count is the live-neighbour count of the
        (non-wrapping) grid unless x + 1 or y + 1 itself wraps around to 0. */
    function CheckLiveNeighbors(x: nat, y: nat): (n: nat)
      reads this, oldWorld
      requires Valid() && x < U32 && y < U32
      ensures n <= 8
      ensures x + 1 < U32 && y + 1 < U32 ==> n == LiveNeighbours(Current(), x, y)
    {
      LiveNeighboursWrapped(Current(), x, y);
      Bit(CheckCell(Dec32(x), Dec32(y))) +  // upper left
      Bit(CheckCell(x, Dec32(y))) +         // up
      Bit(CheckCell(Inc32(x), Dec32(y))) +  // upper right
      Bit(CheckCell(Inc32(x), y)) +         // right
      Bit(CheckCell(Inc32(x), Inc32(y))) +  // down right
      Bit(CheckCell(x, Inc32(y))) +         // down
      Bit(CheckCell(Dec32(x), Inc32(y))) +  // down left
      Bit(CheckCell(Dec32(x), y))           // left
    }

    /** Sets every cell of both buffers to dead. */
    method ClearWorld()
      requires Valid()
      modifies newWorld, oldWorld
      ensures Current() == Dead(width, height)
      ensures forall i :: 0 <= i < newWorld.Length ==> !newWorld[i]
    {
      forall i | 0 <= i < newWorld.Length {
        newWorld[i] := false;
      }
      forall i | 0 <= i < oldWorld.Length {
        oldWorld[i] := false;
      }
    }

    /** Advances one generation: computes every cell of newWorld from oldWorld alone,
        row by row, then copies newWorld back into oldWorld. */
    method Tick()
      requires Valid()
      modifies newWorld, oldWorld
      ensures Current() == NextGen(old(Current()))
      ensures newWorld[..] == oldWorld[..]
    {
      ghost var g := Current();
      ghost var next := NextGenCellsExist(g);
      for y := 0 to height
        modifies newWorld
        invariant y * width <= newWorld.Length
        invariant forall i :: 0 <= i < y * width ==> newWorld[i] == next[i]
      {
        ghost var rowStart := y * width;
        for x := 0 to width
          modifies newWorld
          invariant rowStart + x <= newWorld.Length
          invariant forall i :: 0 <= i < rowStart + x ==> newWorld[i] == next[i]
        {
          var currentPosition := y * width + x;
          UpdateCell(x, y, currentPosition, next);
        }
        RowStart(width, y);
      }
      assert |next| == newWorld.Length == height * width;
      assert newWorld[..] == next;
      // Save the new world for the next tick.
      forall i | 0 <= i < oldWorld.Length {
        oldWorld[i] := newWorld[i];
      }
      NextGenCells(g, next);
    }

    /** The body of Tick's inner loop: writes the next state of cell (x, y), which sits at
        `currentPosition`, into newWorld, reading only oldWorld; no other cell changes. */
    method UpdateCell(x: nat, y: nat, currentPosition: nat, ghost next: seq<bool>)
      requires Valid() && x < width && y < height && currentPosition == y * width + x
      requires IsNextGenCells(Current(), next)
      modifies newWorld
      ensures currentPosition < newWorld.Length
      ensures newWorld[currentPosition] == next[currentPosition]
      ensures forall i :: 0 <= i < newWorld.Length && i != currentPosition ==> newWorld[i] == old(newWorld[i])
    {
      IndexInRange(width, height, x, y);
      assert currentPosition == Index(Current(), x, y);
      newWorld[currentPosition] := false;
      var liveNeighbors := CheckLiveNeighbors(x, y);
      if oldWorld[currentPosition] {     // alive
        if liveNeighbors < 2 {           // underpopulation
          newWorld[currentPosition] := false;
        } else if liveNeighbors <= 3 {   // lives on
          newWorld[currentPosition] := true;
        } else {                         // overpopulation
          newWorld[currentPosition] := false;
        }
      } else if liveNeighbors == 3 {     // birth
        newWorld[currentPosition] := true;
      }
    }

    /** Forces a cell of the current generation alive (holding the left button) or dead
        (releasing the right button) by storing at position y * width + x, unchecked: the
        cell edited is the one that position decodes to, which is (x, y) itself when (x, y)
        lies inside the grid. Nothing else changes. */
    method SetCell(x: int, y: int, alive: bool)
      requires Valid() && 0 <= y * width + x < oldWorld.Length
      modifies oldWorld
      ensures Current() == WriteAt(old(Current()), y * width + x, alive)
      ensures InBounds(Current(), x, y) ==> Current() == Edit(old(Current()), x, y, alive)
    {
      ghost var g := Current();
      var i := y * width + x;
      oldWorld[i] := alive;
      if InBounds(g, x, y) {
        assert Index(g, x, y) == i;
      }
    }

    /** Clears the world and runs one tick, as the clear key does: afterwards every
        cell of both buffers is dead, whatever the state before. */
    method Reset()
      requires Valid()
      modifies newWorld, oldWorld
      ensures Current() == Dead(width, height)
      ensures forall i :: 0 <= i < newWorld.Length ==> !newWorld[i]
    {
      ClearWorld();
      Tick();
      DeadStaysDead(width, height);
    }
  }
}
