/** The cellular-automaton engine of the game, as values: a toroidal grid of
    cells stored row-major in a sequence, the neighbour count the engine takes
    over eight wrapped offsets, the Life transition rule, one whole generation,
    the seed pattern and the single-cell toggle. The class in app.dfy is proved
    against these definitions. */
module Life {

  /** The two cell states; the source gives them the discriminants 0 and 1. */
  datatype Cell = Dead | Alive

  /** What one cell adds to a neighbour count: its discriminant as a number. */
  function Weight(c: Cell): (n: nat)
    ensures n <= 1
    ensures n == 1 <==> c == Alive
  {
    match c
    case Dead => 0
    case Alive => 1
  }

  /** The other state. */
  function Flip(c: Cell): (r: Cell)
    ensures r != c
  {
    match c
    case Alive => Dead
    case Dead => Alive
  }

  /** A grid of positive size whose cell sequence holds exactly width * height cells. */
  predicate ValidGrid(width: nat, height: nat, cells: seq<Cell>) {
    width >= 1 && height >= 1 && |cells| == width * height
  }

  // ---------------------------------------------------------------------------
  // Row-major indexing

  /** Division by a positive d has one answer: q and r with n == q * d + r and r < d. */
  lemma DivModUnique(n: nat, d: nat, q: nat, r: nat)
    requires r < d && n == q * d + r
    ensures n / d == q && n % d == r
  {
    var q', r' := n / d, n % d;
    assert n == q' * d + r';
    if q > q' {
      MulMonotone(1, q - q', d);
      assert false;
    } else if q < q' {
      MulMonotone(1, q' - q, d);
      assert false;
    }
  }

  /** Linear position of (row, column): the row and column can be read back from it. */
  function Index(width: nat, row: nat, column: nat): (idx: nat)
    requires column < width
    ensures idx / width == row && idx % width == column
  {
    DivModUnique(row * width + column, width, row, column);
    row * width + column
  }

  /** An in-range coordinate has an index inside the grid. */
  lemma IndexInGrid(width: nat, height: nat, row: nat, column: nat)
    requires row < height && column < width
    ensures Index(width, row, column) < width * height
  {
    calc {
      Index(width, row, column);
      < row * width + width;
      == (row + 1) * width;
      <= { MulMonotone(row + 1, height, width); }
      height * width;
    }
  }

  lemma {:induction false} MulMonotone(a: nat, b: nat, k: nat)
    requires a <= b
    ensures a * k <= b * k
  {
    if a < b {
      MulMonotone(a, b - 1, k);
      assert b * k == (b - 1) * k + k;
    }
  }

  /** Every linear index is the index of the coordinate it decomposes into. */
  lemma IndexOfCoordinates(width: nat, height: nat, idx: nat)
    requires width >= 1 && idx < width * height
    ensures idx / width < height
    ensures Index(width, idx / width, idx % width) == idx
  {
    if idx / width >= height {
      MulMonotone(height, idx / width, width);
      assert false;
    }
  }

  // ---------------------------------------------------------------------------
  // Neighbour counting

  /** The offsets along an axis of length n, in the order the engine visits them:
      n - 1 stands for "one back" so that no intermediate value is negative. Modulo n
      the three offsets are one back, none and one forward. */
  function Deltas(n: nat): (ds: seq<nat>)
    requires n >= 1
    ensures |ds| == 3
    ensures forall i :: 0 <= i < 3 ==> (ds[i] + 1) % n == i % n
  {
    [n - 1, 0, 1]
  }

  /** What the offset (dr, dc) adds to the count at (row, column): nothing when both
      offsets are zero, otherwise the weight of the wrapped neighbour. */
  function Visit(width: nat, height: nat, cells: seq<Cell>, row: nat, column: nat, dr: nat, dc: nat): (n: nat)
    requires ValidGrid(width, height, cells)
    ensures n <= 1
    ensures dr == 0 && dc == 0 ==> n == 0
  {
    if dr == 0 && dc == 0 then 0
    else
      var r, c := (row + dr) % height, (column + dc) % width;
      IndexInGrid(width, height, r, c);
      Weight(cells[Index(width, r, c)])
  }

  /** The contributions of the column offsets dcs, taken with row offset dr. */
  function RowSum(width: nat, height: nat, cells: seq<Cell>, row: nat, column: nat, dr: nat, dcs: seq<nat>): (n: nat)
    requires ValidGrid(width, height, cells)
    ensures n <= |dcs|
    decreases |dcs|
  {
    if dcs == [] then 0
    else RowSum(width, height, cells, row, column, dr, dcs[..|dcs| - 1])
         + Visit(width, height, cells, row, column, dr, dcs[|dcs| - 1])
  }

  /** The contributions of the row offsets drs, each with every column offset. */
  function GridSum(width: nat, height: nat, cells: seq<Cell>, row: nat, column: nat, drs: seq<nat>): (n: nat)
    requires ValidGrid(width, height, cells)
    ensures n <= 3 * |drs|
    decreases |drs|
  {
    if drs == [] then 0
    else GridSum(width, height, cells, row, column, drs[..|drs| - 1])
         + RowSum(width, height, cells, row, column, drs[|drs| - 1], Deltas(width))
  }

  /** The live-neighbour count of (row, column): one contribution per offset pair
      other than (0, 0), so at most eight. */
  function NeighborCount(width: nat, height: nat, cells: seq<Cell>, row: nat, column: nat): (count: nat)
    requires ValidGrid(width, height, cells)
    ensures count <= 8
  {
    NeighborCountUnfold(width, height, cells, row, column);
    GridSum(width, height, cells, row, column, Deltas(height))
  }

  /** The count written out as the sum over the nine offset pairs, in visiting order. */
  lemma NeighborCountUnfold(width: nat, height: nat, cells: seq<Cell>, row: nat, column: nat)
    requires ValidGrid(width, height, cells)
    ensures GridSum(width, height, cells, row, column, Deltas(height)) ==
      Visit(width, height, cells, row, column, height - 1, width - 1) +
      Visit(width, height, cells, row, column, height - 1, 0) +
      Visit(width, height, cells, row, column, height - 1, 1) +
      Visit(width, height, cells, row, column, 0, width - 1) +
      Visit(width, height, cells, row, column, 0, 0) +
      Visit(width, height, cells, row, column, 0, 1) +
      Visit(width, height, cells, row, column, 1, width - 1) +
      Visit(width, height, cells, row, column, 1, 0) +
      Visit(width, height, cells, row, column, 1, 1)
  {
    var ds := Deltas(width);
    RowSumOfThree(width, height, cells, row, column, height - 1, ds);
    RowSumOfThree(width, height, cells, row, column, 0, ds);
    RowSumOfThree(width, height, cells, row, column, 1, ds);
    var rs := Deltas(height);
    var two := rs[..2];
    var one := two[..1];
    assert GridSum(width, height, cells, row, column, rs) ==
      GridSum(width, height, cells, row, column, two) + RowSum(width, height, cells, row, column, 1, ds);
    assert GridSum(width, height, cells, row, column, two) ==
      GridSum(width, height, cells, row, column, one) + RowSum(width, height, cells, row, column, 0, ds);
    assert one[..0] == [];
    assert GridSum(width, height, cells, row, column, one) ==
      RowSum(width, height, cells, row, column, height - 1, ds);
  }

  lemma RowSumOfThree(width: nat, height: nat, cells: seq<Cell>, row: nat, column: nat, dr: nat, dcs: seq<nat>)
    requires ValidGrid(width, height, cells) && |dcs| == 3
    ensures RowSum(width, height, cells, row, column, dr, dcs) ==
      Visit(width, height, cells, row, column, dr, dcs[0]) +
      Visit(width, height, cells, row, column, dr, dcs[1]) +
      Visit(width, height, cells, row, column, dr, dcs[2])
  {
    var two := dcs[..2];
    var one := two[..1];
    assert RowSum(width, height, cells, row, column, dr, dcs) ==
      RowSum(width, height, cells, row, column, dr, two) + Visit(width, height, cells, row, column, dr, dcs[2]);
    assert RowSum(width, height, cells, row, column, dr, two) ==
      RowSum(width, height, cells, row, column, dr, one) + Visit(width, height, cells, row, column, dr, dcs[1]);
    assert one[..0] == [];
    assert RowSum(width, height, cells, row, column, dr, one) ==
      Visit(width, height, cells, row, column, dr, dcs[0]);
  }

  /** Wrapping x < n forward and back by one along an axis of length n. */
  lemma WrapByOne(n: nat, x: nat)
    requires x < n
    ensures (x + (n - 1)) % n == if x == 0 then n - 1 else x - 1
    ensures (x + 0) % n == x
    ensures (x + 1) % n == if x + 1 == n then 0 else x + 1
  {
    if x == 0 {
      DivModUnique(x + (n - 1), n, 0, n - 1);
    } else {
      DivModUnique(x + (n - 1), n, 1, x - 1);
    }
    DivModUnique(x, n, 0, x);
    if x + 1 == n {
      DivModUnique(x + 1, n, 1, 0);
    } else {
      DivModUnique(x + 1, n, 0, x + 1);
    }
  }

  /** Along an axis of length at least 3 the three offsets reach three different
      positions (per axis; NeighborsDistinct combines the two axes). */
  lemma OffsetsDistinct(n: nat, x: nat)
    requires n >= 3 && x < n
    ensures forall i, j :: 0 <= i < j < 3 ==> (x + Deltas(n)[i]) % n != (x + Deltas(n)[j]) % n
  {
    WrapByOne(n, x);
  }

  /** On a grid whose sides are at least 3, two different offset pairs reach two
      different cells. */
  lemma NeighborsDistinct(width: nat, height: nat, row: nat, column: nat, i: nat, j: nat, k: nat, l: nat)
    requires width >= 3 && height >= 3 && row < height && column < width
    requires i < 3 && j < 3 && k < 3 && l < 3 && (i != k || j != l)
    ensures Index(width, (row + Deltas(height)[i]) % height, (column + Deltas(width)[j]) % width) !=
            Index(width, (row + Deltas(height)[k]) % height, (column + Deltas(width)[l]) % width)
  {
    OffsetsDistinct(height, row);
    OffsetsDistinct(width, column);
  }

  /** On such a grid only the skipped pair (0, 0) reaches the cell itself: the eight
      visited offsets are eight different cells, none of them (row, column). */
  lemma NeighborsNotSelf(width: nat, height: nat, row: nat, column: nat, i: nat, j: nat)
    requires width >= 3 && height >= 3 && row < height && column < width
    requires i < 3 && j < 3 && (i != 1 || j != 1)
    ensures Index(width, (row + Deltas(height)[i]) % height, (column + Deltas(width)[j]) % width) !=
            Index(width, row, column)
  {
    NeighborsDistinct(width, height, row, column, i, j, 1, 1);
    WrapByOne(height, row);
    WrapByOne(width, column);
  }

  /** On a 1 by 1 grid every offset wraps onto the cell itself. The offsets equal to
      zero by value are skipped, and since height - 1 == width - 1 == 0 that is four
      of the nine pairs: a live cell is counted five times as its own neighbour. */
  lemma OneByOneCount(cells: seq<Cell>, row: nat, column: nat)
    requires ValidGrid(1, 1, cells)
    ensures NeighborCount(1, 1, cells, row, column) == 5 * Weight(cells[0])
  {
    NeighborCountUnfold(1, 1, cells, row, column);
  }

  /** On a 2 by 2 grid the offsets 1 and n - 1 reach the same position, and each
      offset is counted: the side neighbours count twice, the diagonal one four times. */
  lemma TwoByTwoCount(cells: seq<Cell>, row: nat, column: nat)
    requires ValidGrid(2, 2, cells) && row < 2 && column < 2
    ensures NeighborCount(2, 2, cells, row, column) ==
      2 * Weight(cells[Index(2, row, 1 - column)]) +
      2 * Weight(cells[Index(2, 1 - row, column)]) +
      4 * Weight(cells[Index(2, 1 - row, 1 - column)])
  {
    NeighborCountUnfold(2, 2, cells, row, column);
  }

  // ---------------------------------------------------------------------------
  // The transition rule and one generation

  /** The next state of a cell from its state and live-neighbour count: the four
      rules of the source, every other cell keeping its state. The ensures is the
      classic "born with 3, survives with 2 or 3" formulation of the same rule. */
  function NextCell(cell: Cell, liveNeighbors: nat): (next: Cell)
    ensures next == Alive <==> liveNeighbors == 3 || (cell == Alive && liveNeighbors == 2)
  {
    match cell
    case Alive =>
      if liveNeighbors < 2 then Dead                              // underpopulation
      else if liveNeighbors == 2 || liveNeighbors == 3 then Alive  // survival
      else Dead                                                    // overpopulation
    case Dead =>
      if liveNeighbors == 3 then Alive                             // reproduction
      else cell
  }

  /** The next generation: every cell's new state from the current grid only. */
  function Step(width: nat, height: nat, cells: seq<Cell>): (next: seq<Cell>)
    requires ValidGrid(width, height, cells)
    ensures |next| == |cells|
  {
    seq(|cells|, i requires 0 <= i < |cells| => CellAfter(width, height, cells, i))
  }

  /** The state of the cell at linear index i in the next generation. */
  function CellAfter(width: nat, height: nat, cells: seq<Cell>, i: nat): (next: Cell)
    requires ValidGrid(width, height, cells) && i < |cells|
    ensures var n := NeighborCount(width, height, cells, i / width, i % width);
      next == Alive <==> n == 3 || (cells[i] == Alive && n == 2)
  {
    NextCell(cells[i], NeighborCount(width, height, cells, i / width, i % width))
  }

  /** The cell at (row, column) of the next generation is the rule applied to that
      cell's current state and current neighbour count. */
  lemma StepAt(width: nat, height: nat, cells: seq<Cell>, row: nat, column: nat)
    requires ValidGrid(width, height, cells) && row < height && column < width
    ensures Index(width, row, column) < |cells|
    ensures Step(width, height, cells)[Index(width, row, column)] ==
      NextCell(cells[Index(width, row, column)], NeighborCount(width, height, cells, row, column))
  {
    IndexInGrid(width, height, row, column);
  }

  /** The rule table of a generation, cell by cell. */
  lemma StepRules(width: nat, height: nat, cells: seq<Cell>, row: nat, column: nat)
    requires ValidGrid(width, height, cells) && row < height && column < width
    ensures Index(width, row, column) < |cells|
    ensures
      var i := Index(width, row, column);
      var n := NeighborCount(width, height, cells, row, column);
      var next := Step(width, height, cells)[i];
      (cells[i] == Alive && n < 2 ==> next == Dead) &&
      (cells[i] == Alive && (n == 2 || n == 3) ==> next == Alive) &&
      (cells[i] == Alive && n > 3 ==> next == Dead) &&
      (cells[i] == Dead && n == 3 ==> next == Alive) &&
      (cells[i] == Dead && n != 3 ==> next == Dead)
  {
    StepAt(width, height, cells, row, column);
  }

  /** A grid with no live cell. */
  predicate AllDead(cells: seq<Cell>) {
    forall k :: 0 <= k < |cells| ==> cells[k] == Dead
  }

  /** A grid with no live cell gives every coordinate the count 0. */
  lemma NeighborCountAllDead(width: nat, height: nat, cells: seq<Cell>, row: nat, column: nat)
    requires ValidGrid(width, height, cells) && AllDead(cells)
    ensures NeighborCount(width, height, cells, row, column) == 0
  {
    NeighborCountUnfold(width, height, cells, row, column);
    forall dr: nat, dc: nat
      ensures Visit(width, height, cells, row, column, dr, dc) == 0
    {
      VisitAllDead(width, height, cells, row, column, dr, dc);
    }
  }

  lemma VisitAllDead(width: nat, height: nat, cells: seq<Cell>, row: nat, column: nat, dr: nat, dc: nat)
    requires ValidGrid(width, height, cells) && AllDead(cells)
    ensures Visit(width, height, cells, row, column, dr, dc) == 0
  {
    if !(dr == 0 && dc == 0) {
      var r, c := (row + dr) % height, (column + dc) % width;
      IndexInGrid(width, height, r, c);
      assert cells[Index(width, r, c)] == Dead;
    }
  }

  /** A grid with no live cell is its own next generation. */
  lemma StepAllDead(width: nat, height: nat, cells: seq<Cell>)
    requires ValidGrid(width, height, cells) && AllDead(cells)
    ensures Step(width, height, cells) == cells
  {
    var next := Step(width, height, cells);
    forall i | 0 <= i < |cells|
      ensures next[i] == cells[i]
    {
      NeighborCountAllDead(width, height, cells, i / width, i % width);
    }
    assert next == cells;
  }

  // ---------------------------------------------------------------------------
  // Seed and toggle

  /** The seed state of the cell at linear index i. */
  function SeedCell(i: nat): (c: Cell)
    ensures c == Alive <==> i % 2 == 0 || i % 7 == 0
  {
    if i % 2 == 0 || i % 7 == 0 then Alive else Dead
  }

  /** The initial grid of n cells: cell i is alive exactly when i is even or a multiple of 7. */
  function Seed(n: nat): (cells: seq<Cell>)
    ensures |cells| == n
    ensures forall i :: 0 <= i < n ==> (cells[i] == Alive <==> i % 2 == 0 || i % 7 == 0)
  {
    seq(n, i requires 0 <= i => SeedCell(i))
  }

  /** The grid with the cell at linear index idx flipped and every other cell kept. */
  function Toggle(cells: seq<Cell>, idx: nat): (toggled: seq<Cell>)
    requires idx < |cells|
    ensures |toggled| == |cells|
    ensures toggled[idx] != cells[idx]
    ensures forall j :: 0 <= j < |cells| && j != idx ==> toggled[j] == cells[j]
  {
    cells[idx := Flip(cells[idx])]
  }

  /** Toggling the same cell twice gives back the grid. */
  lemma ToggleTwice(cells: seq<Cell>, idx: nat)
    requires idx < |cells|
    ensures Toggle(Toggle(cells, idx), idx) == cells
  {
    var once := Toggle(cells, idx);
    assert Toggle(once, idx)[idx] == Flip(once[idx]) == cells[idx];
  }
}
