/** The crate's unit test of the neighbour count, restated as lemmas about the
    value model on the source's 64 by 64 grid. */
module LifeTests {
  import opened Life

  /** The all-dead 64 by 64 grid the test starts from. */
  function EmptyGrid(): (cells: seq<Cell>)
    ensures ValidGrid(64, 64, cells) && AllDead(cells)
  {
    seq(64 * 64, _ => Dead)
  }

  /** Only the top-left cell alive: the cell itself is not its own neighbour. */
  lemma CornerAloneHasNoNeighbors()
    ensures NeighborCount(64, 64, EmptyGrid()[0 := Alive], 0, 0) == 0
  {
    var g := EmptyGrid()[0 := Alive];
    NeighborCountUnfold(64, 64, g, 0, 0);
  }

  /** Cells 0 and 1 alive: the counts at the four corners, through the wrapped edges. */
  lemma PairSeenAcrossEdges()
    ensures var g := EmptyGrid()[0 := Alive][1 := Alive];
      NeighborCount(64, 64, g, 0, 0) == 1 &&
      NeighborCount(64, 64, g, 63, 0) == 2 &&
      NeighborCount(64, 64, g, 0, 63) == 1 &&
      NeighborCount(64, 64, g, 63, 63) == 1
  {
    var g := EmptyGrid()[0 := Alive][1 := Alive];
    NeighborCountUnfold(64, 64, g, 0, 0);
    NeighborCountUnfold(64, 64, g, 63, 0);
    NeighborCountUnfold(64, 64, g, 0, 63);
    NeighborCountUnfold(64, 64, g, 63, 63);
  }

  /** Cells 0, 1 and 63 alive: cell (1, 63) sees 63 above it and 0 across the right edge. */
  lemma TopRightCornerAdded()
    ensures NeighborCount(64, 64, EmptyGrid()[0 := Alive][1 := Alive][63 := Alive], 1, 63) == 2
  {
    var g := EmptyGrid()[0 := Alive][1 := Alive][63 := Alive];
    NeighborCountUnfold(64, 64, g, 1, 63);
  }
}
