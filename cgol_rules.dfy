/*
 * The pure rules of the coloured Game of Life engine (cgol/src/lib.rs):
 * cells and hues, row-major indexing, toroidal wrap-around, the survey of
 * the eight neighbours, the B3/S23 transition with hue inheritance and
 * mixing, and the wrapped square painted under the cursor.
 *
 * The class in cgol_universe.dfy runs these rules in place over two
 * buffers; everything here is the specification it is proved against.
 */
module CgolRules {

  newtype uint8 = x: int | 0 <= x < 0x100

  /** A colour: an angle on a 256-step wheel (0..255 spread over 0..360 degrees). */
  type Hue = uint8

  /** A dead cell carries no colour at all; a live one carries its hue. */
  datatype Cell = Dead | Alive(hue: Hue)

  /** Side of one cell in canvas pixels (CELL_SIZE). */
  const CellSize: nat := 20

  /**
   * Number of cells across a canvas side of `pixels` pixels: as many whole
   * cells as fit, but never fewer than one (the `.max(1)` clamp), so every
   * universe has at least one row and one column.
   */
  function GridCells(pixels: nat): (n: nat)
    ensures n >= 1
    ensures pixels >= CellSize ==> n * CellSize <= pixels < (n + 1) * CellSize
    ensures pixels < CellSize ==> n == 1
  {
    var whole := pixels / CellSize;
    if whole < 1 then 1 else whole
  }

  // ---------------------------------------------------------------------
  // Row-major indexing

  /** Position of cell (row, col) in a row-major buffer of rows `width` wide. */
  function Index(width: nat, row: nat, col: nat): (i: nat)
    ensures col < width ==> i / width == row && i % width == col
  {
    if col < width then DivMod(row, width, col); row * width + col
    else row * width + col
  }

  /** Quotient and remainder of q * size + r, for any sign of q. */
  lemma DivMod(q: int, size: nat, r: nat)
    requires r < size
    ensures (q * size + r) / size == q
    ensures (q * size + r) % size == r
  {
    var v := q * size + r;
    var q', r' := v / size, v % size;
    assert v == q' * size + r';
    assert (q' - q) * size == r - r';
    if q' > q {
      MulAtLeast(q' - q, size);
      assert false;
    } else if q' < q {
      MulAtLeast(q - q', size);
      assert false;
    }
  }

  lemma MulAtLeast(k: int, size: nat)
    requires k >= 1
    ensures k * size >= size
  {
    assert k * size == (k - 1) * size + size;
  }

  /** An in-grid coordinate always lands inside a `width * height` buffer. */
  lemma {:induction false} IndexInRange(width: nat, height: nat, row: nat, col: nat)
    requires row < height && col < width
    ensures Index(width, row, col) < width * height
  {
    assert row * width + col < row * width + width == (row + 1) * width;
    assert (row + 1) * width <= height * width by {
      assert height * width == (row + 1) * width + (height - row - 1) * width;
    }
  }

  /** Distinct in-grid coordinates have distinct indices. */
  lemma IndexInjective(width: nat, r1: nat, c1: nat, r2: nat, c2: nat)
    requires c1 < width && c2 < width
    requires Index(width, r1, c1) == Index(width, r2, c2)
    ensures r1 == r2 && c1 == c2
  {
  }

  /** Every position of a `width * height` buffer is the index of one in-grid cell. */
  lemma Position(width: nat, height: nat, i: nat)
    requires i < width * height
    ensures width >= 1 && i / width < height
    ensures Index(width, i / width, i % width) == i
  {
    var row := i / width;
    assert i == row * width + i % width;
    if row >= height {
      MulAtLeast(row - height + 1, width);
      assert false;
    }
  }

  /** The cell at (row, col) of a `width * height` buffer. */
  function CellAt(cells: seq<Cell>, width: nat, height: nat, row: nat, col: nat): Cell
    requires |cells| == width * height && row < height && col < width
  {
    IndexInRange(width, height, row, col);
    cells[Index(width, row, col)]
  }

  // ---------------------------------------------------------------------
  // Toroidal wrap-around

  /** Rust's `rem_euclid`: the remainder in [0, size) for any sign of `v`. */
  function RemEuclid(v: int, size: nat): (r: nat)
    requires size >= 1
    ensures r < size
    ensures v == (v / size) * size + r
  {
    v % size
  }

  /** Adding any multiple of `size` does not change the remainder. */
  lemma RemEuclidOf(q: int, size: nat, r: nat)
    requires r < size
    ensures RemEuclid(q * size + r, size) == r
  {
    DivMod(q, size, r);
  }

  /** The coordinate before `x` on a ring of `size` (north of a row, west of a column). */
  function Prev(size: nat, x: nat): (p: nat)
    requires x < size
    ensures p < size
    ensures p == RemEuclid(x - 1, size)
  {
    if x == 0 then RemEuclidOf(-1, size, size - 1); size - 1
    else RemEuclidOf(0, size, x - 1); x - 1
  }

  /** The coordinate after `x` on a ring of `size` (south of a row, east of a column). */
  function Next(size: nat, x: nat): (n: nat)
    requires x < size
    ensures n < size
    ensures n == RemEuclid(x + 1, size)
  {
    if x == size - 1 then RemEuclidOf(1, size, 0); 0
    else RemEuclidOf(0, size, x + 1); x + 1
  }

  /** Stepping back and forth on the ring returns to the start. */
  lemma PrevNextInverse(size: nat, x: nat)
    requires x < size
    ensures Next(size, Prev(size, x)) == x
    ensures Prev(size, Next(size, x)) == x
  {
  }

  /**
   * The eight neighbour coordinates of (row, col) in survey order:
   * north-west, north, north-east, west, east, south-west, south, south-east.
   */
  function NeighborCoords(width: nat, height: nat, row: nat, col: nat): (ns: seq<(nat, nat)>)
    requires row < height && col < width
    ensures |ns| == 8
    ensures forall k :: 0 <= k < 8 ==> ns[k].0 < height && ns[k].1 < width
  {
    var north, south := Prev(height, row), Next(height, row);
    var west, east := Prev(width, col), Next(width, col);
    [(north, west), (north, col), (north, east),
     (row, west), (row, east),
     (south, west), (south, col), (south, east)]
  }

  /** Row offsets of the survey order, and column offsets. */
  const RowOffsets: seq<int> := [-1, -1, -1, 0, 0, 1, 1, 1]
  const ColOffsets: seq<int> := [-1, 0, 1, -1, 1, -1, 0, 1]

  /**
   * The survey visits exactly the eight cells at offsets (dr, dc) in
   * {-1, 0, 1}^2 other than (0, 0), each wrapped with Euclidean remainder.
   */
  lemma NeighborCoordsAreOffsets(width: nat, height: nat, row: nat, col: nat)
    requires row < height && col < width
    ensures forall k :: 0 <= k < 8 ==>
      NeighborCoords(width, height, row, col)[k] ==
        (RemEuclid(row + RowOffsets[k], height), RemEuclid(col + ColOffsets[k], width))
  {
    var ns := NeighborCoords(width, height, row, col);
    RemEuclidOf(0, height, row);
    RemEuclidOf(0, width, col);
    forall k | 0 <= k < 8
      ensures ns[k] == (RemEuclid(row + RowOffsets[k], height), RemEuclid(col + ColOffsets[k], width))
    {
    }
  }

  /** The far corner (height-1, width-1) is the north-west neighbour of (0, 0). */
  lemma CornerWrapsDiagonally(width: nat, height: nat)
    requires width >= 1 && height >= 1
    ensures NeighborCoords(width, height, 0, 0)[0] == (height - 1, width - 1)
  {
  }

  // ---------------------------------------------------------------------
  // Neighbour survey

  /** The eight neighbouring cells of (row, col), in survey order. */
  function Neighbors(cells: seq<Cell>, width: nat, height: nat, row: nat, col: nat): (ns: seq<Cell>)
    requires |cells| == width * height && row < height && col < width
    ensures |ns| == 8
  {
    var coords := NeighborCoords(width, height, row, col);
    seq(8, k requires 0 <= k < 8 => CellAt(cells, width, height, coords[k].0, coords[k].1))
  }

  /** The hue a surveyed cell contributes: its own if alive, none if dead. */
  function HueOf(cell: Cell): seq<Hue>
  {
    if cell.Alive? then [cell.hue] else []
  }

  /** The hues of the live cells among `ns`, in the order they are met. */
  function LiveHues(ns: seq<Cell>): (hues: seq<Hue>)
    ensures |hues| <= |ns|
  {
    if ns == [] then []
    else LiveHues(ns[..|ns| - 1]) + HueOf(ns[|ns| - 1])
  }

  /** The number of live cells among `ns`. */
  function LiveCount(ns: seq<Cell>): nat
  {
    |set k | 0 <= k < |ns| && ns[k].Alive?|
  }

  /** Exactly one hue is collected per live cell. */
  lemma {:induction false} LiveHuesCountsLiveCells(ns: seq<Cell>)
    ensures |LiveHues(ns)| == LiveCount(ns)
  {
    if ns != [] {
      var n := |ns| - 1;
      var init := ns[..n];
      LiveHuesCountsLiveCells(init);
      var before := set k | 0 <= k < n && init[k].Alive?;
      var all := set k | 0 <= k < |ns| && ns[k].Alive?;
      assert n !in before;
      if ns[n].Alive? {
        assert all == before + {n};
      } else {
        assert all == before;
      }
    }
  }

  /** Hues of earlier cells come before hues of later ones. */
  lemma {:induction false} LiveHuesAppend(a: seq<Cell>, b: seq<Cell>)
    ensures LiveHues(a + b) == LiveHues(a) + LiveHues(b)
  {
    if b != [] {
      var n := |b| - 1;
      assert (a + b)[..|a + b| - 1] == a + b[..n];
      LiveHuesAppend(a, b[..n]);
    } else {
      assert a + b == a;
    }
  }

  /** A hue is collected exactly when some surveyed cell is alive with it. */
  lemma {:induction false} LiveHuesMembers(ns: seq<Cell>, h: Hue)
    ensures h in LiveHues(ns) <==> Alive(h) in ns
  {
    if ns != [] {
      var n := |ns| - 1;
      LiveHuesMembers(ns[..n], h);
      assert ns == ns[..n] + [ns[n]];
    }
  }

  /** The survey count lies in [0, 8] and equals the number of live neighbours. */
  lemma NeighborCountBounds(cells: seq<Cell>, width: nat, height: nat, row: nat, col: nat)
    requires |cells| == width * height && row < height && col < width
    ensures |LiveHues(Neighbors(cells, width, height, row, col))| ==
      LiveCount(Neighbors(cells, width, height, row, col)) <= 8
  {
    LiveHuesCountsLiveCells(Neighbors(cells, width, height, row, col));
  }

  // ---------------------------------------------------------------------
  // Transition

  /**
   * mix_colors: an empty list mixes to hue 0; otherwise the hues' circular
   * mean, which is floating-point arithmetic and is passed in as `mean`.
   */
  function MixColors(mean: seq<Hue> -> Hue, hues: seq<Hue>): (h: Hue)
    ensures hues == [] ==> h == 0
    ensures hues != [] ==> h == mean(hues)
  {
    if |hues| == 0 then 0 else mean(hues)
  }

  /**
   * The B3/S23 table with colour: a live cell with 2 or 3 live neighbours
   * keeps its hue, any other live cell dies; a dead cell with exactly 3
   * live neighbours is born with the mix of their hues, any other stays dead.
   */
  function NextState(cell: Cell, hues: seq<Hue>, mean: seq<Hue> -> Hue): Cell
  {
    match cell
    case Alive(_) => if |hues| == 2 || |hues| == 3 then cell else Dead
    case Dead => if |hues| == 3 then Alive(MixColors(mean, hues)) else Dead
  }

  /**
   * The match a tick applies to a cell and its neighbour count, arm by arm
   * in the order they are tried; `hues` are the live neighbours' hues.
   */
  function Transition(cell: Cell, neighborCount: uint8, hues: seq<Hue>, mean: seq<Hue> -> Hue): Cell
  {
    if cell.Alive? && neighborCount < 2 then Dead
    else if cell.Alive? && (neighborCount == 2 || neighborCount == 3) then Alive(cell.hue)
    else if cell.Alive? && neighborCount > 3 then Dead
    else if cell == Dead && neighborCount == 3 then Alive(MixColors(mean, hues))
    else cell
  }

  /** The match, fed the survey's count, is the B3/S23 table. */
  lemma TransitionFollowsTable(cell: Cell, neighborCount: uint8, hues: seq<Hue>, mean: seq<Hue> -> Hue)
    requires neighborCount as int == |hues|
    ensures Transition(cell, neighborCount, hues, mean) == NextState(cell, hues, mean)
  {
  }

  /** Next state of cell (row, col), computed from the buffer `cells` alone. */
  function NextCell(cells: seq<Cell>, width: nat, height: nat, row: nat, col: nat,
                    mean: seq<Hue> -> Hue): Cell
    requires |cells| == width * height && row < height && col < width
  {
    NextState(CellAt(cells, width, height, row, col),
              LiveHues(Neighbors(cells, width, height, row, col)), mean)
  }

  /** The whole next generation of a `width * height` buffer, cell by cell. */
  function NextGeneration(cells: seq<Cell>, width: nat, height: nat, mean: seq<Hue> -> Hue): (next: seq<Cell>)
    requires |cells| == width * height
    ensures |next| == |cells|
  {
    seq(|cells|, i requires 0 <= i < |cells| => NextAtPosition(cells, width, height, i, mean))
  }

  function NextAtPosition(cells: seq<Cell>, width: nat, height: nat, i: nat, mean: seq<Hue> -> Hue): Cell
    requires |cells| == width * height && i < |cells|
  {
    Position(width, height, i);
    NextCell(cells, width, height, i / width, i % width, mean)
  }

  /** Cell (row, col) of the next generation is that cell's next state. */
  lemma NextGenerationAt(cells: seq<Cell>, width: nat, height: nat, row: nat, col: nat,
                         mean: seq<Hue> -> Hue)
    requires |cells| == width * height && row < height && col < width
    ensures Index(width, row, col) < |cells| &&
      NextGeneration(cells, width, height, mean)[Index(width, row, col)] ==
        NextCell(cells, width, height, row, col, mean)
  {
    var i := Index(width, row, col);
    IndexInRange(width, height, row, col);
    assert i / width == row && i % width == col;
  }

  /**
   * What a tick writes for cell (row, col), given the survey of the
   * pre-tick buffer, is that cell of the next generation.
   */
  lemma TransitionIsNextGeneration(cells: seq<Cell>, width: nat, height: nat, row: nat, col: nat,
                                   neighborCount: uint8, hues: seq<Hue>, mean: seq<Hue> -> Hue)
    requires |cells| == width * height && row < height && col < width
    requires hues == LiveHues(Neighbors(cells, width, height, row, col))
    requires neighborCount as int == |hues|
    ensures Index(width, row, col) < |cells|
    ensures Transition(CellAt(cells, width, height, row, col), neighborCount, hues, mean) ==
      NextGeneration(cells, width, height, mean)[Index(width, row, col)]
  {
    NextGenerationAt(cells, width, height, row, col, mean);
    TransitionFollowsTable(CellAt(cells, width, height, row, col), neighborCount, hues, mean);
  }

  /**
   * Generation isolation: the next state of a cell is a function of that
   * cell and its eight neighbours in the pre-tick buffer; two buffers that
   * agree there give the same next state, whatever else they hold.
   */
  lemma NextCellIsLocal(c1: seq<Cell>, c2: seq<Cell>, width: nat, height: nat,
                        row: nat, col: nat, mean: seq<Hue> -> Hue)
    requires |c1| == |c2| == width * height && row < height && col < width
    requires CellAt(c1, width, height, row, col) == CellAt(c2, width, height, row, col)
    requires forall k :: 0 <= k < 8 ==>
      var p := NeighborCoords(width, height, row, col)[k];
      CellAt(c1, width, height, p.0, p.1) == CellAt(c2, width, height, p.0, p.1)
    ensures NextCell(c1, width, height, row, col, mean) == NextCell(c2, width, height, row, col, mean)
  {
    var n1, n2 := Neighbors(c1, width, height, row, col), Neighbors(c2, width, height, row, col);
    assert forall k :: 0 <= k < 8 ==> n1[k] == n2[k];
    assert n1 == n2;
  }

  /** Survival keeps the hue bit for bit; under- and over-population kill. */
  lemma {:induction false} LiveCellRule(cells: seq<Cell>, width: nat, height: nat, row: nat, col: nat,
                                        mean: seq<Hue> -> Hue)
    requires |cells| == width * height && row < height && col < width
    requires CellAt(cells, width, height, row, col).Alive?
    ensures var n := LiveCount(Neighbors(cells, width, height, row, col));
      NextCell(cells, width, height, row, col, mean) ==
        if n == 2 || n == 3 then CellAt(cells, width, height, row, col) else Dead
  {
    LiveHuesCountsLiveCells(Neighbors(cells, width, height, row, col));
  }

  /** Birth needs exactly three live neighbours and takes the mix of their hues. */
  lemma {:induction false} DeadCellRule(cells: seq<Cell>, width: nat, height: nat, row: nat, col: nat,
                                        mean: seq<Hue> -> Hue)
    requires |cells| == width * height && row < height && col < width
    requires CellAt(cells, width, height, row, col) == Dead
    ensures var ns := Neighbors(cells, width, height, row, col);
      NextCell(cells, width, height, row, col, mean) ==
        if LiveCount(ns) == 3 then Alive(mean(LiveHues(ns))) else Dead
  {
    LiveHuesCountsLiveCells(Neighbors(cells, width, height, row, col));
  }

  /** A live cell whose eight neighbours are all dead dies, whatever its hue. */
  lemma IsolatedCellDies(cells: seq<Cell>, width: nat, height: nat, row: nat, col: nat,
                         mean: seq<Hue> -> Hue)
    requires |cells| == width * height && row < height && col < width
    requires CellAt(cells, width, height, row, col).Alive?
    requires forall k :: 0 <= k < 8 ==> Neighbors(cells, width, height, row, col)[k] == Dead
    ensures NextCell(cells, width, height, row, col, mean) == Dead
  {
    var ns := Neighbors(cells, width, height, row, col);
    LiveHuesMembers(ns, CellAt(cells, width, height, row, col).hue);
    if |LiveHues(ns)| > 0 {
      LiveHuesMembers(ns, LiveHues(ns)[0]);
    }
  }

  /** 1 for a live cell, 0 for a dead one. */
  function Liveness(cell: Cell): nat
  {
    if cell.Alive? then 1 else 0
  }

  /** The number of live hues among eight neighbours, slot by slot. */
  lemma {:induction false} LiveHuesOfEight(ns: seq<Cell>)
    requires |ns| == 8
    ensures |LiveHues(ns)| == Liveness(ns[0]) + Liveness(ns[1]) + Liveness(ns[2]) + Liveness(ns[3]) +
                              Liveness(ns[4]) + Liveness(ns[5]) + Liveness(ns[6]) + Liveness(ns[7])
  {
    assert ns[..0] == [];
    LiveHuesStep(ns, 1);
    LiveHuesStep(ns, 2);
    LiveHuesStep(ns, 3);
    LiveHuesStep(ns, 4);
    LiveHuesStep(ns, 5);
    LiveHuesStep(ns, 6);
    LiveHuesStep(ns, 7);
    LiveHuesStep(ns, 8);
    assert ns[..8] == ns;
  }

  lemma LiveHuesStep(ns: seq<Cell>, k: nat)
    requires 1 <= k <= |ns|
    ensures |LiveHues(ns[..k])| == |LiveHues(ns[..k - 1])| + Liveness(ns[k - 1])
  {
    assert ns[..k][..k - 1] == ns[..k - 1];
  }

  /**
   * One cell's live-neighbour count read off its eight wrapped neighbours
   * by name: NW, N, NE, W, E, SW, S, SE.
   */
  lemma Survey(cells: seq<Cell>, width: nat, height: nat, row: nat, col: nat)
    requires |cells| == width * height && row < height && col < width
    ensures var n, s, w, e := Prev(height, row), Next(height, row), Prev(width, col), Next(width, col);
      |LiveHues(Neighbors(cells, width, height, row, col))| ==
        Liveness(CellAt(cells, width, height, n, w)) + Liveness(CellAt(cells, width, height, n, col)) +
        Liveness(CellAt(cells, width, height, n, e)) + Liveness(CellAt(cells, width, height, row, w)) +
        Liveness(CellAt(cells, width, height, row, e)) + Liveness(CellAt(cells, width, height, s, w)) +
        Liveness(CellAt(cells, width, height, s, col)) + Liveness(CellAt(cells, width, height, s, e))
  {
    LiveHuesOfEight(Neighbors(cells, width, height, row, col));
  }

  // ---------------------------------------------------------------------
  // Painting a wrapped square

  /**
   * `x` is one of lo, lo+1, ..., lo+n-1 taken modulo `size` (none of them
   * when n <= 0).
   */
  predicate InWrappedRun(size: nat, lo: int, n: int, x: nat)
    requires size >= 1
  {
    RemEuclid(x - lo, size) < n
  }

  /** Growing a run by one adds exactly the next wrapped coordinate. */
  lemma WrappedRunStep(size: nat, lo: int, n: nat, x: nat)
    requires size >= 1 && x < size
    ensures InWrappedRun(size, lo, n + 1, x) <==> InWrappedRun(size, lo, n, x) || x == RemEuclid(lo + n, size)
  {
    if RemEuclid(x - lo, size) == n {
      RunEndLandsOnX(size, lo, n, x);
    }
    if x == RemEuclid(lo + n, size) {
      XIsRunEnd(size, lo, n, x);
    }
  }

  lemma RunEndLandsOnX(size: nat, lo: int, n: nat, x: nat)
    requires size >= 1 && x < size && RemEuclid(x - lo, size) == n
    ensures x == RemEuclid(lo + n, size)
  {
    var q := (x - lo) / size;
    assert lo + n == (-q) * size + x;
    RemEuclidOf(-q, size, x);
  }

  lemma XIsRunEnd(size: nat, lo: int, n: nat, x: nat)
    requires size >= 1 && x < size && x == RemEuclid(lo + n, size)
    ensures RemEuclid(x - lo, size) <= n
  {
    if n < size {
      var q := (lo + n) / size;
      assert x - lo == (-q) * size + n;
      RemEuclidOf(-q, size, n);
    }
  }

  /**
   * The rows (or columns) painted by a square of half-width `half` centred
   * on `center` are exactly the remainders of center-half .. center+half.
   */
  lemma BlockSpanIsWrappedRange(size: nat, center: int, half: int, x: nat)
    requires size >= 1 && x < size
    ensures InWrappedRun(size, center - half, 2 * half + 1, x) <==>
      exists v :: center - half <= v <= center + half && RemEuclid(v, size) == x
  {
    if InWrappedRun(size, center - half, 2 * half + 1, x) {
      var v := RunMember(size, center - half, x);
      assert center - half <= v <= center + half && RemEuclid(v, size) == x;
    }
    if v :| center - half <= v <= center + half && RemEuclid(v, size) == x {
      RunCovers(size, center - half, v, x);
    }
  }

  /** The value of the run lo, lo+1, ... that lands on `x`. */
  lemma RunMember(size: nat, lo: int, x: nat) returns (v: int)
    requires size >= 1 && x < size
    ensures v == lo + RemEuclid(x - lo, size) && RemEuclid(v, size) == x
  {
    var q := (x - lo) / size;
    v := lo + RemEuclid(x - lo, size);
    assert v == (-q) * size + x;
    RemEuclidOf(-q, size, x);
  }

  /** Any `v` at or after `lo` that lands on `x` is at least as far from `lo` as the run's member. */
  lemma RunCovers(size: nat, lo: int, v: int, x: nat)
    requires size >= 1 && x < size && lo <= v
    requires RemEuclid(v, size) == x
    ensures RemEuclid(x - lo, size) <= v - lo
  {
    var q := v / size;
    var e := v - lo;
    assert x - lo == (-q) * size + e;
    if e < size {
      RemEuclidOf(-q, size, e);
    }
  }

  /**
   * The buffer with every cell whose row is in the wrapped run
   * (rowLo, rows) and whose column is in the wrapped run (colLo, cols) set
   * alive with `hue`; every other cell as it was.
   */
  function PaintRect(cells: seq<Cell>, width: nat, height: nat,
                     rowLo: int, rows: int, colLo: int, cols: int, hue: Hue): (painted: seq<Cell>)
    requires |cells| == width * height
    ensures |painted| == |cells|
  {
    seq(|cells|, i requires 0 <= i < |cells| => PaintAtPosition(cells, width, height, rowLo, rows, colLo, cols, hue, i))
  }

  function PaintAtPosition(cells: seq<Cell>, width: nat, height: nat,
                           rowLo: int, rows: int, colLo: int, cols: int, hue: Hue, i: nat): Cell
    requires |cells| == width * height && i < |cells|
  {
    Position(width, height, i);
    if InWrappedRun(height, rowLo, rows, i / width) && InWrappedRun(width, colLo, cols, i % width)
    then Alive(hue) else cells[i]
  }

  lemma PaintRectAt(cells: seq<Cell>, width: nat, height: nat,
                    rowLo: int, rows: int, colLo: int, cols: int, hue: Hue, row: nat, col: nat)
    requires |cells| == width * height && row < height && col < width
    ensures Index(width, row, col) < |cells| &&
      PaintRect(cells, width, height, rowLo, rows, colLo, cols, hue)[Index(width, row, col)] ==
        if InWrappedRun(height, rowLo, rows, row) && InWrappedRun(width, colLo, cols, col)
        then Alive(hue) else cells[Index(width, row, col)]
  {
    var i := Index(width, row, col);
    IndexInRange(width, height, row, col);
    assert i / width == row && i % width == col;
  }

  /** A run of length one starting at an in-range `r` is the single coordinate `r`. */
  lemma UnitRun(size: nat, r: nat, x: nat)
    requires r < size && x < size
    ensures InWrappedRun(size, r, 1, x) <==> x == r
  {
    var v := RunMember(size, r, x);
    if x == r {
      RemEuclidOf(0, size, 0);
    }
  }

  /** Painting one more column of a one-row run is a single cell update. */
  lemma {:induction false} PaintRectColumnStep(cells: seq<Cell>, width: nat, height: nat,
                                               r: nat, colLo: int, cols: nat, hue: Hue)
    requires |cells| == width * height && r < height
    ensures width >= 1 ==>
      var c := RemEuclid(colLo + cols, width);
      Index(width, r, c) < |cells| &&
      PaintRect(cells, width, height, r, 1, colLo, cols + 1, hue) ==
        PaintRect(cells, width, height, r, 1, colLo, cols, hue)[Index(width, r, c) := Alive(hue)]
  {
    if width >= 1 {
      var c := RemEuclid(colLo + cols, width);
      IndexInRange(width, height, r, c);
      var a := PaintRect(cells, width, height, r, 1, colLo, cols + 1, hue);
      var b := PaintRect(cells, width, height, r, 1, colLo, cols, hue)[Index(width, r, c) := Alive(hue)];
      forall i | 0 <= i < |cells| ensures a[i] == b[i] {
        Position(width, height, i);
        UnitRun(height, r, i / width);
        WrappedRunStep(width, colLo, cols, i % width);
      }
    }
  }

  /** Finishing the painting of row `RemEuclid(rowLo + rows)` grows the row run by one. */
  lemma {:induction false} PaintRectRowStep(cells: seq<Cell>, width: nat, height: nat,
                                            rowLo: int, rows: nat, colLo: int, cols: int, hue: Hue)
    requires |cells| == width * height && height >= 1
    ensures
      var r := RemEuclid(rowLo + rows, height);
      PaintRect(PaintRect(cells, width, height, rowLo, rows, colLo, cols, hue), width, height, r, 1, colLo, cols, hue) ==
        PaintRect(cells, width, height, rowLo, rows + 1, colLo, cols, hue)
  {
    var r := RemEuclid(rowLo + rows, height);
    var inner := PaintRect(cells, width, height, rowLo, rows, colLo, cols, hue);
    var a := PaintRect(inner, width, height, r, 1, colLo, cols, hue);
    var b := PaintRect(cells, width, height, rowLo, rows + 1, colLo, cols, hue);
    forall i | 0 <= i < |cells| ensures a[i] == b[i] {
      Position(width, height, i);
      UnitRun(height, r, i / width);
      WrappedRunStep(height, rowLo, rows, i / width);
    }
  }

  /** Nothing is painted by a run of length zero. */
  lemma {:induction false} PaintRectEmpty(cells: seq<Cell>, width: nat, height: nat,
                                          rowLo: int, rows: int, colLo: int, cols: int, hue: Hue)
    requires |cells| == width * height && (rows <= 0 || cols <= 0)
    ensures PaintRect(cells, width, height, rowLo, rows, colLo, cols, hue) == cells
  {
    var a := PaintRect(cells, width, height, rowLo, rows, colLo, cols, hue);
    forall i | 0 <= i < |cells| ensures a[i] == cells[i] {
      Position(width, height, i);
    }
  }

  /**
   * The mouse or touch cursor paints with half-width 2; at (0, 0) the
   * square covers rows n-2, n-1, 0, 1 and 2 (and the same for columns),
   * which on a grid fewer than five cells high overlap and cover it all.
   */
  lemma InjectionWrapsAtOrigin(n: nat, x: nat)
    requires n >= 1 && x < n
    ensures InWrappedRun(n, 0 - 2, 2 * 2 + 1, x) <==> x == n - 2 || x == n - 1 || x <= 2
  {
    if n >= 5 {
      if x >= n - 2 {
        RemEuclidOf(1, n, x + 2 - n);
      } else {
        RemEuclidOf(0, n, x + 2);
      }
    } else {
      assert RemEuclid(x + 2, n) < 5;
    }
  }
}
