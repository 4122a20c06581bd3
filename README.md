# Coloured Game of Life engine and ANSI text helpers, in Dafny

This project models two small cores of a personal web site.

The first is the simulation engine behind the site's animated background
(`cgol/src/lib.rs`): a toroidal Game of Life with the B3/S23 rule whose
live cells carry an 8-bit hue. A `Universe` keeps two row-major buffers of
cells and a scratch list of neighbour hues. A tick surveys the eight
wrapped neighbours of every cell, writes each cell's next state into the
second buffer, and then swaps the buffers. A surviving cell keeps its hue
bit for bit; a newborn cell takes the circular mean of its three parents'
hues. The mouse or touch cursor paints a wrapped square of live cells straight into the
current buffer.

The second is a pair of text helpers of the terminal-output component
(`src/app/_components/ansi.tsx`). `fixBackspace` applies backspace
characters until nothing changes. `createClass` turns the colours and
decoration of one parsed ANSI span into Tailwind class names through three
fixed tables.

Files:

- `cgol_rules.dfy` (module `CgolRules`): cells and hues, indexing, wrap-around,
  the neighbour survey, the transition table, the whole next generation as a
  function of the pre-tick buffer, and the painted square as a function of
  the old buffer. This is the specification the class is proved against.
- `cgol_universe.dfy` (module `Cgol`): the `Universe` class with its two
  `array<Cell>` buffers and the methods of the source, each proved to compute
  exactly the specification function of the old state.
- `cgol_block.dfy` (module `CgolBlock`): a worked generation. On a 4 x 4
  torus the 2 x 2 block is a still life and each block cell keeps its own hue.
- `ansi.dfy` (module `Ansi`): `fixBackspace` as a loop proved against a
  fixed-point function, `createClass` as a method proved against a list of
  classes, and the three tables with their exact entries.

Modelling choices:

- Integers are unbounded. The source's `u32` and `i32` arithmetic never wraps
  for the grid sizes a canvas produces, and the model does not model wrap-around.
- `mix_colors` is floating-point trigonometry. It is the parameter
  `mean: seq<Hue> -> Hue`, and only the empty case (hue 0) is fixed, as in
  the source. Every result holds for every choice of `mean`.
- The random initial contents are the constructor parameter `draws`.
- A backspace right after a newline is not always kept, because a backspace
  is itself a character that the next backspace deletes: `"\n\b\b"` becomes
  `"\n"`. `Ansi.BackspaceErasesBackspace` proves this. What always holds is
  that no newline is ever deleted.

## Model

| member | source | states |
|---|---|---|
| CgolRules.GridCells | cgol/src/lib.rs:251-252 | the number of cells across a canvas side is at least 1; at least one cell's worth of pixels gives the largest n with n*20 <= pixels, fewer pixels give 1 |
| CgolRules.Cell | cgol/src/lib.rs:54-58 | a cell is Dead, with no colour, or Alive with an 8-bit hue |
| CgolRules.Index | cgol/src/lib.rs:93-95 | for an in-range column the index divides back into (row, col): i / width == row and i % width == col |
| CgolRules.IndexInRange | cgol/src/lib.rs:93-95 | row < height and col < width give an index below width * height |
| CgolRules.IndexInjective | cgol/src/lib.rs:93-95 | distinct in-grid coordinates have distinct indices |
| CgolRules.Position | cgol/src/lib.rs:93-95 | every buffer position is the index of exactly the in-grid cell (i / width, i % width) |
| CgolRules.RemEuclid | cgol/src/lib.rs:153-154 | rem_euclid gives a remainder in [0, size) for either sign, with v = q*size + r |
| CgolRules.RemEuclidOf | cgol/src/lib.rs:153-154 | adding any multiple of size, negative included, leaves the remainder unchanged |
| CgolRules.Prev | cgol/src/lib.rs:100-102 | north of a row / west of a column is in range and is (x - 1) rem_euclid size, so north of row 0 is height - 1 |
| CgolRules.Next | cgol/src/lib.rs:101-103 | south of a row / east of a column is in range and is (x + 1) rem_euclid size, so south of the last row is 0 |
| CgolRules.PrevNextInverse | cgol/src/lib.rs:100-103 | one step back and one step forward on the ring return to the start, both ways round |
| CgolRules.NeighborCoords | cgol/src/lib.rs:105-114 | exactly eight coordinates, every one inside the grid |
| CgolRules.NeighborCoordsAreOffsets | cgol/src/lib.rs:100-114 | the k-th surveyed coordinate is (row + dr, col + dc) wrapped, for the offsets of NW, N, NE, W, E, SW, S, SE in that order |
| CgolRules.Neighbors | cgol/src/lib.rs:105-118 | the eight cells the survey reads, in the order NW, N, NE, W, E, SW, S, SE, taken from the buffer at the wrapped coordinates; always eight of them |
| CgolRules.CornerWrapsDiagonally | cgol/src/lib.rs:100-106 | the north-west neighbour of (0, 0) is (height - 1, width - 1) |
| CgolRules.LiveHues | cgol/src/lib.rs:116-121 | the collected hue list is never longer than the list of surveyed cells |
| CgolRules.LiveHuesCountsLiveCells | cgol/src/lib.rs:116-123 | one hue is collected per live cell: the list's length is the number of live cells |
| CgolRules.LiveHuesAppend | cgol/src/lib.rs:116-121 | hues are collected in survey order: the hues of earlier cells come first |
| CgolRules.LiveHuesMembers | cgol/src/lib.rs:118-119 | hue h is collected if and only if some surveyed cell is Alive with hue h |
| CgolRules.NeighborCountBounds | cgol/src/lib.rs:97-124 | the survey's count equals the number of live neighbours and is at most 8 |
| CgolRules.LiveHuesOfEight | cgol/src/lib.rs:116-123 | the count over eight surveyed cells is the sum of their one-or-zero liveness, slot by slot |
| CgolRules.Survey | cgol/src/lib.rs:97-124 | a cell's live-neighbour count is the liveness of its named neighbours NW, N, NE, W, E, SW, S, SE added up |
| Cgol.Universe.CountNeighborsAndGetHues | cgol/src/lib.rs:97-124 | the scratch list ends as the live neighbours' hues in survey order, and the result is its length, the live-neighbour count, at most 8 |
| CgolRules.MixColors | cgol/src/lib.rs:21-24 | an empty hue list mixes to 0; any other list gives the circular mean |
| CgolRules.NextState | cgol/src/lib.rs:133-141 | the B3/S23 table with colour: a live cell with 2 or 3 live neighbours keeps its own hue, any other live cell dies; a dead cell with exactly 3 is born with the mix of their hues, any other stays dead |
| CgolRules.Transition | cgol/src/lib.rs:133-141 | the source's match on (cell, neighbour count), its five arms tried in order: under 2 dies, 2 or 3 keeps the hue, over 3 dies, dead with 3 is born with the mix, anything else unchanged |
| CgolRules.NextCell | cgol/src/lib.rs:129-142 | the next state of cell (row, col), read from that cell and its eight neighbours in the pre-tick buffer only |
| CgolRules.TransitionFollowsTable | cgol/src/lib.rs:133-141 | the match of the source, tried arm by arm, fed the survey's count, is the B3/S23 table with hue inheritance and mixing |
| CgolRules.NextGeneration | cgol/src/lib.rs:126-145 | the next generation has as many cells as the current one |
| CgolRules.NextGenerationAt | cgol/src/lib.rs:129-142 | cell (row, col) of the next generation is that cell's next state, computed from the current buffer |
| CgolRules.TransitionIsNextGeneration | cgol/src/lib.rs:129-142 | what a tick writes for (row, col) from its survey is that cell of the next generation |
| CgolRules.NextCellIsLocal | cgol/src/lib.rs:126-145 | generation isolation: two pre-tick buffers that agree on a cell and its eight neighbours give it the same next state |
| CgolRules.LiveCellRule | cgol/src/lib.rs:134-136 | a live cell survives with its identical hue when 2 or 3 neighbours live, and dies otherwise |
| CgolRules.DeadCellRule | cgol/src/lib.rs:137-141 | a dead cell is born with the mix of its neighbours' hues when exactly 3 live, and stays dead otherwise |
| CgolRules.IsolatedCellDies | cgol/src/lib.rs:134 | a live cell with no live neighbour dies, whatever its hue |
| Cgol.Universe.constructor | cgol/src/lib.rs:69-80 | both buffers are fresh, distinct and width * height long; the scratch buffer is all dead, the current one holds the draws |
| Cgol.Universe.Tick | cgol/src/lib.rs:126-145 | the new current buffer is the next generation of the old one, the buffers are exchanged without copying, and both keep length width * height |
| Cgol.Universe.TickRow | cgol/src/lib.rs:128-143 | one row of the inner loop extends the written prefix of the scratch buffer by that row's next states, and every position after the row keeps its old contents |
| CgolRules.InWrappedRun | cgol/src/lib.rs:151-154 | membership of a coordinate in the run lo, lo+1, ..., lo+n-1 taken with rem_euclid |
| CgolRules.WrappedRunStep | cgol/src/lib.rs:151-154 | growing a run by one adds exactly the next wrapped coordinate |
| CgolRules.BlockSpanIsWrappedRange | cgol/src/lib.rs:151-154 | a coordinate is painted exactly when some v in [center - half, center + half] has v rem_euclid size equal to it, negative centres included |
| CgolRules.RunMember | cgol/src/lib.rs:151-154 | a coordinate in the run is reached by the value lo + (x - lo) rem_euclid size |
| CgolRules.RunCovers | cgol/src/lib.rs:151-154 | any value at or after lo that lands on x is no closer to lo than the run's own member |
| CgolRules.PaintRect | cgol/src/lib.rs:148-159 | painting keeps the buffer's length |
| CgolRules.PaintRectAt | cgol/src/lib.rs:148-159 | after painting, cell (row, col) is Alive(hue) when its row and column are in the wrapped runs, and unchanged otherwise |
| CgolRules.UnitRun | cgol/src/lib.rs:153-154 | a run of length one from an in-range coordinate is that coordinate alone |
| CgolRules.PaintRectColumnStep | cgol/src/lib.rs:152-156 | painting one more column of a single row is one cell update |
| CgolRules.PaintRectRowStep | cgol/src/lib.rs:151-158 | finishing the next row grows the painted row run by one |
| CgolRules.PaintRectEmpty | cgol/src/lib.rs:151-152 | a negative half-width paints nothing |
| Cgol.Universe.SetAliveBlock | cgol/src/lib.rs:148-159 | the new current buffer is the old one with the wrapped (2*half+1)-square around the centre set to Alive(hue), and no other cell changed |
| CgolRules.InjectionWrapsAtOrigin | cgol/src/lib.rs:444-448 | on any grid the clamp allows, the cursor's half-width-2 square at (0, 0) covers exactly rows (and columns) n-2, n-1, 0, 1, 2, which is every row when n < 5 |
| CgolBlock.TopRowStaysDead | cgol/src/lib.rs:133-141 | on the 4 x 4 block pattern every cell of row 0 stays dead |
| CgolBlock.SecondRowIsStill | cgol/src/lib.rs:133-141 | on the block pattern row 1 keeps its two live cells with hues 10 and 20 and its dead cells dead |
| CgolBlock.ThirdRowIsStill | cgol/src/lib.rs:133-141 | on the block pattern row 2 keeps its two live cells with hues 30 and 40 and its dead cells dead |
| CgolBlock.BottomRowStaysDead | cgol/src/lib.rs:133-141 | on the block pattern every cell of row 3 stays dead |
| CgolBlock.BlockIsStillLife | cgol/src/lib.rs:126-145 | one generation maps the 4 x 4 block pattern to itself, hues included |
| Ansi.RemovePairs | src/app/_components/ansi.tsx:57 | one global replace never lengthens the string and removes an even number of characters |
| Ansi.FixedPoint | src/app/_components/ansi.tsx:53-60 | the result of the do-while: passes repeat while the last one shortened the string, and the first string a pass leaves as long as it was is returned |
| Ansi.RemovePairsKeepsLengthIffSettled | src/app/_components/ansi.tsx:57-58 | a pass keeps the length exactly when no deletable pair is left, and then changes nothing |
| Ansi.RemovePairsKeepsNewlines | src/app/_components/ansi.tsx:57 | a pass never deletes a newline |
| Ansi.NewlinesAppend | src/app/_components/ansi.tsx:57 | the newline count of a concatenation is the sum of the counts |
| Ansi.FixBackspace | src/app/_components/ansi.tsx:53-60 | the loop ends with the fixed point of the passes; no deletable pair is left; the result is no longer, shorter by an even count, and has every newline |
| Ansi.FixedPointSettled | src/app/_components/ansi.tsx:55-59 | the result has no non-newline character followed by a backspace |
| Ansi.FixedPointIdempotent | src/app/_components/ansi.tsx:53-60 | applying the fix to its own result changes nothing |
| Ansi.NoBackspaceUnchanged | src/app/_components/ansi.tsx:53-60 | a string without any backspace is returned unchanged |
| Ansi.FixedPointDeletesPairs | src/app/_components/ansi.tsx:57-58 | the result is never longer than the input, the difference is even, and every newline survives |
| Ansi.ErasesPreviousCharacter | src/app/_components/ansi.tsx:57 | "ab\bc" becomes "ac" |
| Ansi.KeepsBackspaceAfterNewline | src/app/_components/ansi.tsx:57 | a lone backspace after a newline is kept: "\n\b" is unchanged |
| Ansi.BackspaceErasesBackspace | src/app/_components/ansi.tsx:57-58 | a backspace deletes an earlier backspace: "\n\b\b" becomes "\n" and "ab\b\b\b" becomes "a" |
| Ansi.ColorMap | src/app/_components/ansi.tsx:5-22 | the sixteen foreground entries of colorMap, keys and class names exactly as written |
| Ansi.BgColorMap | src/app/_components/ansi.tsx:24-41 | the sixteen background entries of bgColorMap, keys and class names exactly as written |
| Ansi.DecorationMap | src/app/_components/ansi.tsx:43-51 | the seven entries of decorationMap, keys and class names exactly as written |
| Ansi.Lookup | src/app/_components/ansi.tsx:65-73 | a key that is present and in its table gives that table's class, at most one class, and any other key gives none |
| Ansi.Classes | src/app/_components/ansi.tsx:63-73 | the span's known classes, background then foreground then decoration, at most three |
| Ansi.Join | src/app/_components/ansi.tsx:74 | `classes.join(" ")`: no parts give the empty string, one part is itself, and more parts are separated by single spaces |
| Ansi.CreateClass | src/app/_components/ansi.tsx:62-75 | null exactly when no key is known; otherwise the known classes, background then foreground then decoration, joined by single spaces |
| Ansi.NoClassIffNoKnownKey | src/app/_components/ansi.tsx:65-74 | there is no class exactly when none of bg, fg, decoration is a key of its table |
| Ansi.UnknownKeySkipped | src/app/_components/ansi.tsx:65-74 | an unknown foreground is skipped between a known background and decoration |
| Ansi.SplitAfterWord | src/app/_components/ansi.tsx:74 | splitting a space-free word followed by more text puts the word at the head of the first piece |
| Ansi.SplitJoin | src/app/_components/ansi.tsx:74 | joining space-free names with single spaces and splitting again gives back the names |
| Ansi.BgColorClassNames | src/app/_components/ansi.tsx:24-41 | every background class is a non-empty name without spaces |
| Ansi.ColorClassNames | src/app/_components/ansi.tsx:5-22 | every foreground class is a non-empty name without spaces |
| Ansi.DecorationClassNames | src/app/_components/ansi.tsx:43-51 | every decoration class is a non-empty name without spaces |
| Ansi.ClassStringSplitsIntoClasses | src/app/_components/ansi.tsx:62-74 | the class string splits back into exactly the span's classes, each a single class name |
| Ansi.BlackAndYellowEntries | src/app/_components/ansi.tsx:6-28 | black is a transparent background but a black foreground; yellow uses the brown variable in both tables |

## Left out

- `mix_colors` internals (the sine, cosine and atan2 arithmetic on f64) are floating point; the mean is a parameter and only the empty case is fixed.
- `hue_to_rgb` is floating-point colour conversion used only for drawing.
- `randomize` and `random_hue` call the JavaScript random number generator; their outcome is the constructor's `draws` parameter.
- `AppState`, drawing, canvas resizing (apart from the `.max(1)` clamp), `start` and the event and animation closures are browser I/O; the time-based hue of the cursor's paint is floating point.
- Cgol.Universe.constructor: does not model `(width * height) as usize` in `u32`, which could wrap for grids of more than 2^32 cells; a canvas never has that many.
- Cgol.Universe.SetAliveBlock: does not model `i32` overflow of `center_row + dr` or the `height as i32` cast; cursor coordinates and grid sizes stay far below 2^31.
- CgolRules.Index: does not model `u32` overflow of `row * width + col`, for the same reason.
- Cgol.Universe.Tick: the two nested loops of the source are split into `Tick` (rows) and `TickRow` (columns of one row); the work done and its order are the same.
- The `Ansi` React component calls the external `anser` and `escape-carriage` libraries and only renders.
- Ansi.CreateClass: a bundle key is an ANSI colour or decoration name or absent; JavaScript's inherited object keys such as `"constructor"` are not modelled.
- Ansi.RemovePairs: strings are sequences of Dafny `char`, which are Unicode scalar values, while JavaScript strings are UTF-16 code units and the pattern has no `u` flag; a character outside the Basic Multilingual Plane followed by a backspace loses only its low surrogate in the source, but is deleted whole here, and lone surrogates cannot be represented at all.
- Ansi.FixBackspace: for the same reason, surrogate code units are not modelled; for text made only of Basic Multilingual Plane characters the two agree. The `m` flag of the pattern has no effect, since the pattern has no anchors.
- The other UI files and the build configuration are markup and settings, not logic.
