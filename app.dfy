/** The game component's engine state: the grid dimensions and the row-major
    cell buffer, with the operations that read and update it in place. Each
    method is proved against the value model in module Life. */
module Game {
  import opened Life

  class App {
    var width: nat
    var height: nat
    var cells: array<Cell>

    /** Positive dimensions and a buffer of exactly width * height cells. */
    ghost predicate Valid()
      reads this
    {
      width >= 1 && height >= 1 && cells.Length == width * height
    }

    /** The start-up grid: 64 by 64 cells filled with the seed pattern. */
    constructor ()
      ensures Valid() && fresh(cells)
      ensures width == 64 && height == 64
      ensures cells[..] == Seed(width * height)
    {
      width, height := 64, 64;
      cells := new Cell[64 * 64](i requires 0 <= i => SeedCell(i));
    }

    /** Number of columns; with Height() it accounts for every cell of the buffer. */
    function Width(): (w: nat)
      reads this
      requires Valid()
      ensures w >= 1 && w * height == cells.Length
    {
      width
    }

    /** Number of rows; with Width() it accounts for every cell of the buffer. */
    function Height(): (h: nat)
      reads this
      requires Valid()
      ensures h >= 1 && width * h == cells.Length
    {
      height
    }

    /** Counts the live cells over the eight wrapped offsets around (row, column),
        walking the row offsets height - 1, 0, 1 and, inside, the column offsets
        width - 1, 0, 1, and skipping the pair (0, 0). */
    method LiveNeighborCount(row: nat, column: nat) returns (count: nat)
      requires Valid()
      ensures count == NeighborCount(width, height, cells[..], row, column)
      ensures count <= 8
    {
      ghost var grid := cells[..];
      count := 0;
      var rowDeltas := Deltas(height);
      var colDeltas := Deltas(width);
      for i := 0 to 3
        invariant count == GridSum(width, height, grid, row, column, rowDeltas[..i])
      {
        var deltaRow := rowDeltas[i];
        assert rowDeltas[..i + 1][..i] == rowDeltas[..i];
        assert GridSum(width, height, grid, row, column, rowDeltas[..i + 1]) ==
          GridSum(width, height, grid, row, column, rowDeltas[..i])
          + RowSum(width, height, grid, row, column, deltaRow, colDeltas);
        for j := 0 to 3
          invariant count == GridSum(width, height, grid, row, column, rowDeltas[..i])
                             + RowSum(width, height, grid, row, column, deltaRow, colDeltas[..j])
        {
          var deltaCol := colDeltas[j];
          assert colDeltas[..j + 1][..j] == colDeltas[..j];
          assert RowSum(width, height, grid, row, column, deltaRow, colDeltas[..j + 1]) ==
            RowSum(width, height, grid, row, column, deltaRow, colDeltas[..j])
            + Visit(width, height, grid, row, column, deltaRow, deltaCol);
          if deltaRow == 0 && deltaCol == 0 {
            continue;
          }
          var neighborRow := (row + deltaRow) % height;
          var neighborCol := (column + deltaCol) % width;
          IndexInGrid(width, height, neighborRow, neighborCol);
          var idx := Index(width, neighborRow, neighborCol);
          count := count + Weight(cells[idx]);
        }
        assert colDeltas[..3] == colDeltas;
      }
      assert rowDeltas[..3] == rowDeltas;
    }

    /** Advances one generation. Every new state is computed into a fresh buffer
        from the current buffer only, and the fresh buffer then replaces it; the
        dimensions stay as they were. */
    method Tick()
      requires Valid()
      modifies this
      ensures Valid()
      ensures width == old(width) && height == old(height)
      ensures fresh(cells)
      ensures cells[..] == Step(width, height, old(cells[..]))
    {
      var current := cells;
      var next := new Cell[current.Length](i requires 0 <= i < current.Length reads current => current[i]);
      ghost var grid := cells[..];
      ghost var target := Step(width, height, grid);
      // done counts the cells written so far; row-major order makes them a prefix
      ghost var done := 0;
      for row := 0 to height
        invariant done == row * width <= next.Length
        invariant forall k :: 0 <= k < done ==> next[k] == target[k]
        modifies next
      {
        MulMonotone(row + 1, height, width);
        assert row * width + width == (row + 1) * width <= next.Length;
        for col := 0 to width
          invariant done == row * width + col
          invariant row * width + width <= next.Length
          invariant forall k :: 0 <= k < done ==> next[k] == target[k]
          modifies next
        {
          StepAt(width, height, grid, row, col);
          var idx := Index(width, row, col);
          var cell := cells[idx];
          var liveNeighbors := LiveNeighborCount(row, col);
          next[idx] := NextCell(cell, liveNeighbors);
          done := done + 1;
        }
        assert done == (row + 1) * width;
      }
      assert next[..] == target;
      cells := next;
    }

    /** A click on the cell at linear index idx flips that cell and nothing else. */
    method Click(idx: nat)
      requires Valid() && idx < cells.Length
      modifies cells
      ensures cells[..] == Toggle(old(cells[..]), idx)
    {
      cells[idx] := Flip(cells[idx]);
    }
  }
}
