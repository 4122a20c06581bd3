/*
 * The Universe of cgol/src/lib.rs: a toroidal grid held in two row-major
 * buffers of the same size. `cells` holds the current generation; a tick
 * writes the next one into `nextCells` and then exchanges the two arrays.
 */
module Cgol {
  import opened CgolRules

  class Universe {
    const width: nat
    const height: nat
    /** The current generation, row-major. */
    var cells: array<Cell>
    /** Scratch buffer that a tick writes the next generation into. */
    var nextCells: array<Cell>
    /** Scratch list of the live neighbours' hues of the cell last surveyed. */
    var neighborHues: seq<Hue>

    ghost predicate Valid()
      reads this
    {
      1 <= width && 1 <= height &&
      cells.Length == width * height &&
      nextCells.Length == width * height &&
      cells != nextCells
    }

    /**
     * Universe::new: both buffers hold `width * height` cells, the scratch
     * one all dead; the current one is filled from `draws`, the outcome of
     * the random draws made by `randomize`, one per cell.
     */
    constructor (width: nat, height: nat, draws: seq<Cell>)
      requires 1 <= width && 1 <= height
      requires |draws| == width * height
      ensures Valid()
      ensures this.width == width && this.height == height
      ensures fresh(cells) && fresh(nextCells)
      ensures cells[..] == draws
      ensures forall i :: 0 <= i < nextCells.Length ==> nextCells[i] == Dead
      ensures neighborHues == []
    {
      this.width := width;
      this.height := height;
      var size := width * height;
      cells := new Cell[size](i requires 0 <= i < size => draws[i]);
      nextCells := new Cell[size](_ => Dead);
      neighborHues := [];
    }

    /**
     * Surveys the eight wrapped neighbours of (row, col) in the order
     * NW, N, NE, W, E, SW, S, SE, leaves the hues of the live ones in
     * `neighborHues`, and returns how many there were.
     */
    method CountNeighborsAndGetHues(row: nat, col: nat) returns (count: uint8)
      requires Valid() && row < height && col < width
      modifies this`neighborHues
      ensures Valid()
      ensures neighborHues == LiveHues(Neighbors(cells[..], width, height, row, col))
      ensures count as int == |neighborHues| == LiveCount(Neighbors(cells[..], width, height, row, col))
      ensures count <= 8
    {
      neighborHues := [];

      var north := Prev(height, row);
      var south := Next(height, row);
      var west := Prev(width, col);
      var east := Next(width, col);

      var neighbors := [(north, west), (north, col), (north, east),
                        (row, west), (row, east),
                        (south, west), (south, col), (south, east)];
      ghost var around := Neighbors(cells[..], width, height, row, col);
      assert neighbors == NeighborCoords(width, height, row, col);

      for k := 0 to 8
        invariant neighborHues == LiveHues(around[..k])
      {
        var (nr, nc) := neighbors[k];
        var idx := Index(width, nr, nc);
        IndexInRange(width, height, nr, nc);
        assert around[..k + 1] == around[..k] + [cells[idx]];
        match cells[idx]
        case Alive(hue) =>
          neighborHues := neighborHues + [hue];
        case Dead =>
      }

      assert around[..8] == around;
      NeighborCountBounds(cells[..], width, height, row, col);
      count := |neighborHues| as uint8;
    }

    /**
     * Advances one generation: every cell's next state is computed from
     * the pre-tick buffer alone and written to the scratch buffer, then the
     * two buffers exchange roles (no cell is copied).
     */
    method Tick(mean: seq<Hue> -> Hue)
      requires Valid()
      modifies this, nextCells
      ensures Valid()
      ensures cells == old(nextCells) && nextCells == old(cells)
      ensures cells[..] == NextGeneration(old(cells[..]), width, height, mean)
      ensures nextCells[..] == old(cells[..])
    {
      ghost var before := cells[..];
      ghost var next := NextGeneration(before, width, height, mean);
      var row := 0;
      while row < height
        invariant 0 <= row <= height
        invariant Valid() && cells == old(cells) && nextCells == old(nextCells)
        invariant cells[..] == before
        invariant Index(width, row, 0) <= width * height
        invariant nextCells[..Index(width, row, 0)] == next[..Index(width, row, 0)]
      {
        TickRow(row, mean);
        assert (row + 1) * width == row * width + width;
        assert Index(width, row, width) == Index(width, row + 1, 0);
        row := row + 1;
      }
      assert Index(width, height, 0) == width * height;
      cells, nextCells := nextCells, cells;
    }

    /** The inner loop of a tick: writes the next state of every cell of `row`. */
    method TickRow(row: nat, mean: seq<Hue> -> Hue)
      requires Valid() && row < height
      requires Index(width, row, 0) <= width * height
      requires nextCells[..Index(width, row, 0)] == NextGeneration(cells[..], width, height, mean)[..Index(width, row, 0)]
      modifies nextCells, this`neighborHues
      ensures Valid()
      ensures Index(width, row, width) <= width * height
      ensures nextCells[..Index(width, row, width)] == NextGeneration(cells[..], width, height, mean)[..Index(width, row, width)]
      ensures forall i :: Index(width, row, width) <= i < nextCells.Length ==> nextCells[i] == old(nextCells[i])
    {
      ghost var before := cells[..];
      ghost var next := NextGeneration(before, width, height, mean);
      var col := 0;
      while col < width
        invariant 0 <= col <= width
        invariant Valid()
        invariant cells[..] == before
        invariant Index(width, row, col) <= width * height
        invariant nextCells[..Index(width, row, col)] == next[..Index(width, row, col)]
        invariant forall i :: Index(width, row, width) <= i < nextCells.Length ==> nextCells[i] == old(nextCells[i])
      {
        var idx := Index(width, row, col);
        assert idx < Index(width, row, width);
        IndexInRange(width, height, row, col);
        var cell := cells[idx];
        var neighborCount := CountNeighborsAndGetHues(row, col);

        TransitionIsNextGeneration(before, width, height, row, col, neighborCount, neighborHues, mean);
        nextCells[idx] := Transition(cell, neighborCount, neighborHues, mean);
        col := col + 1;
      }
    }

    /**
     * Paints the (2*half+1)^2 square centred on (centerRow, centerCol)
     * alive with `hue`, wrapping each coordinate with rem_euclid; every
     * cell outside the square keeps its state.
     */
    method SetAliveBlock(centerRow: int, centerCol: int, half: int, hue: Hue)
      requires Valid()
      modifies cells
      ensures Valid()
      ensures cells[..] == PaintRect(old(cells[..]), width, height,
                                     centerRow - half, 2 * half + 1, centerCol - half, 2 * half + 1, hue)
    {
      var h := height;
      var w := width;
      ghost var rowLo, colLo, side := centerRow - half, centerCol - half, 2 * half + 1;
      PaintRectEmpty(old(cells[..]), width, height, rowLo, 0, colLo, side, hue);
      var dr := -half;
      while dr <= half
        invariant -half <= dr
        invariant half >= 0 ==> dr <= half + 1
        invariant half < 0 ==> dr == -half
        invariant cells[..] == PaintRect(old(cells[..]), width, height, rowLo, dr + half, colLo, side, hue)
      {
        var r := RemEuclid(centerRow + dr, h);
        ghost var rowsDone := cells[..];
        PaintRectEmpty(rowsDone, width, height, r, 1, colLo, 0, hue);
        var dc := -half;
        while dc <= half
          invariant -half <= dc <= half + 1
          invariant cells[..] == PaintRect(rowsDone, width, height, r, 1, colLo, dc + half, hue)
        {
          var c := RemEuclid(centerCol + dc, w);
          var idx := Index(width, r, c);
          IndexInRange(width, height, r, c);
          PaintRectColumnStep(rowsDone, width, height, r, colLo, dc + half, hue);
          cells[idx] := Alive(hue);
          dc := dc + 1;
        }
        PaintRectRowStep(old(cells[..]), width, height, rowLo, dr + half, colLo, side, hue);
        dr := dr + 1;
      }
      if half < 0 {
        PaintRectEmpty(old(cells[..]), width, height, rowLo, side, colLo, side, hue);
      }
    }
  }
}
