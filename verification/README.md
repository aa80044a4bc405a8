# Falling-sand automaton and letter-table features, in Dafny

This project models two parts of a course repository.

**The falling-sand cellular automaton** (`IS-N1/Automaton_2D.py`). A grid
of cells stores sand, wood, fire, two kinds of smoke, balloons, walls and
water, each as a float code. Water holds its amount as the code itself,
any value of at least 8. Each generation works like this:

- the current buffer is copied into a scratch buffer;
- every cell is dispatched once, in a shuffled order, to its element's rule;
- each rule reads the current buffer or the scratch buffer and writes into
  the scratch buffer;
- a sweep counts down the smoke lifetimes and clears smoke whose lifetime
  has run out.

A cave generator seeds walls at random and smooths them with the
B678/S2345678 rule. Elements can also be placed by hand.

**The letter-table feature extractor** (`IS-N3/main.py`). This covers its
integer and string core:

- clustering of detected line positions;
- splitting a table image into a grid of cells;
- cutting the cells out between detected lines;
- dividing a cell into quadrants;
- the CSV header and the row labels of the feature files, including the
  label recovered from a saved cell's file name.

Modules:

- `Lattice` (lattice.dfy): the `Cell` datatype and its float code, the
  grids, writes into the scratch buffer, the random draws and element counts.
- `Rules` (rules.dfy): the sand, wood, fire, smoke and balloon rules.
- `Water` (water.dfy): the water rule, branch by branch.
- `Tick` (tick.dfy): dispatch, a whole generation, and the lifetime sweep.
- `Placement` (placement.dfy): placing an element by hand.
- `Cave` (cave.dfy): the neighbour count and cave generation.
- `Geometry` (geometry.dfy): table splitting, quadrants, and cells
  between lines.
- `Clustering` (clustering.dfy): clustering of line positions.
- `Labels` (labels.dfy): Python `split`/`join`, the letter list, row
  labels, file names, the header and CSV lines.

Randomness is passed in as parameters:

- a `Draw` holds what one dispatch consumes: two shuffle choices, a coin
  and two lifetime draws;
- the generation order is any list that visits each cell once;
- the cave seed is a grid of noise values.

A rule returns the sequence of writes it makes to the scratch buffer, and
`Commit` performs them. Every rule is proved to write only within the 3x3
block around its cell. It writes only storable cells, and it never
overwrites a wall. So a generation keeps the walls exactly where they
were, and it keeps every cell storable as a float.

Quirks of the code that the model keeps:

- A lifetime of `L` survives `L` sweeps, and the smoke is removed on sweep
  `L + 1` (see `Tick.CountdownExpiry`).
- The water rule accepts amounts up to 16, and it resets an amount outside
  [8, 16] to 8.
- Fire re-checks for wood below at line 272, but that test can never hold
  there. The model keeps the fall-through result: fire with nowhere to move
  turns into light smoke.
- When smoke rises, the code draws a lifetime at line 296, and the second
  relocation at line 329 always overwrites it. `Rules.SmokeIgnoresFirstDraw`
  proves the first draw has no effect.
- A balloon samples one upward direction and is destroyed when that cell
  is blocked, even if another upward cell is free
  (`Rules.BalloonVanishesBesideFreeCell`).
- The row label is recovered from a saved cell's file name whenever the
  font name and the letter contain no `.`. Underscores in the font name do
  no harm, because only the last `_` part is dropped.

## Model

| member | source | states |
|---|---|---|
| Lattice.DecodeCode | IS-N1/Automaton_2D.py:10-18 | Reading a cell's float code back by its integer part gives the same cell. A code is at least 8 exactly for water, and it is 0 exactly for an empty cell. |
| Lattice.EmptyTest | IS-N1/Automaton_2D.py:157-160 | On a grid of storable cells, the occupancy test (in range and the scratch cell is `EMPTY`) holds exactly when the tag test does. |
| Lattice.Shuffle3 | IS-N1/Automaton_2D.py:248-249 | Shuffling three directions returns the same three directions in some order. |
| Lattice.Shuffle3Permutes | IS-N1/Automaton_2D.py:248-249 | Every order the shuffle can pick is a permutation of the triple: the multiset of directions is unchanged. |
| Lattice.Shuffle2Permutes | IS-N1/Automaton_2D.py:307-308 | Both orders of the sideways pair are permutations of it. |
| Lattice.FirstEmpty | IS-N1/Automaton_2D.py:252-258 | Returns the first offset, in the order given, that leads to an empty scratch cell: that offset is empty and every offset before it is blocked (`IsFirstEmpty`). It returns none exactly when every offset is blocked. |
| Lattice.Fresh | IS-N1/Automaton_2D.py:296-300 | A new lifetime is in 10..20 for dark smoke and in 7..10 for light smoke. |
| Lattice.SafeWritesKeepWalls | IS-N1/Automaton_2D.py:119-138 | Writes that stay in range and avoid walls leave every wall of the scratch buffer in place. |
| Lattice.MoveKeepsCounts | IS-N1/Automaton_2D.py:169-171 | Emptying a cell and putting its element into an empty cell leaves the count of every kind of cell unchanged. |
| Rules.SearchInAnyOrder | IS-N1/Automaton_2D.py:285-290 | Whatever order the shuffle produces, the search finds an empty cell exactly when the set of offsets is not blocked. Whatever it finds is one of the offsets. |
| Rules.SandRule | IS-N1/Automaton_2D.py:166-184 | Sand moves into the row below. It falls straight down whenever that cell is empty, and otherwise goes to an empty lower diagonal. It stays exactly when all three lower cells are blocked. The move conserves cells. |
| Rules.WoodRule | IS-N1/Automaton_2D.py:186-192 | Wood falls by exactly one cell. It stays exactly when the cell below is not empty. |
| Rules.FireRule | IS-N1/Automaton_2D.py:212-276 | If the current buffer has wood directly below, the fire spreads into it and leaves dark smoke behind. Otherwise, if a lower cell is empty, it moves into the first empty cell of the lower triple in the shuffled order; if not, it becomes light smoke. |
| Rules.FireFall | IS-N1/Automaton_2D.py:246-276 | With wood not below, fire falls into the first empty cell of its shuffled lower triple, in that order. When all three are blocked, the second wood test decides between spreading and light smoke. |
| Rules.Relocate | IS-N1/Automaton_2D.py:291-300 | After a move, the destination holds the source's lifetime, or a new draw if the source had none. The source entry is removed, and all other entries are unchanged. |
| Rules.SmokeRise | IS-N1/Automaton_2D.py:291-329 | After rising, the smoke's lifetime has moved to the destination and holds the second new draw. |
| Rules.SmokeRule | IS-N1/Automaton_2D.py:278-329 | Smoke stays exactly when its upper triple and both sides are blocked. Otherwise it moves one cell: to the first empty cell of the shuffled upper triple, or, when all three are blocked, to the first empty cell of the sideways pair in the drawn order. Its lifetime entry moves with it. An upward move gets a new draw; a sideways move keeps the old value, or gets a new draw if there was none. |
| Rules.SmokeUp | IS-N1/Automaton_2D.py:285-329 | Smoke rising into an empty cell above is a safe move into that cell. Its lifetime entry leaves (x, y) and lands on the new cell with a new draw, and every other entry is unchanged. |
| Rules.SmokeSide | IS-N1/Automaton_2D.py:306-329 | Smoke drifting into an empty cell beside it is a safe move into that cell. It carries its lifetime entry along, or draws one if it had none, and every other entry is unchanged. |
| Rules.SmokeIgnoresFirstDraw | IS-N1/Automaton_2D.py:291-329 | The result does not depend on the lifetime drawn by the first relocation. |
| Rules.BalloonRule | IS-N1/Automaton_2D.py:451-459 | A balloon either disappears or moves by the first direction of its shuffle. It moves exactly when that sampled cell is empty. |
| Rules.BalloonVanishesBesideFreeCell | IS-N1/Automaton_2D.py:451-459 | A concrete grid where a balloon is destroyed although one of its other upward cells is empty. |
| Water.PressureStep | IS-N1/Automaton_2D.py:372-380 | Pressure moves water only into water below, read from the current buffer. Without the cap, the amount above 8 in the two cells is conserved. |
| Water.SplitStep | IS-N1/Automaton_2D.py:383-404 | A split fills only empty side cells, and every written amount stays in [8, 16]. The amount above 8 is conserved. |
| Water.SideStep | IS-N1/Automaton_2D.py:408-420 | Equalising moves water only between this cell and water beside it in the current buffer. The total amount above 8 is conserved. |
| Water.UpwardStep | IS-N1/Automaton_2D.py:423-427 | Upward flow fills only an empty cell above, and the amount above 8 is conserved. |
| Water.SideFlow | IS-N1/Automaton_2D.py:408-427 | Side equalisation writes (x, y) and one water neighbour on its row. Otherwise upward flow or staying puts the water only into empty cells, with the amount above 8 conserved. |
| Water.LowStep | IS-N1/Automaton_2D.py:346-363 | Water below 8.3 always leaves its cell. It falls into an empty cell below, or merges into water below (conserving unless capped), or is deleted. |
| Water.LowPlan | IS-N1/Automaton_2D.py:346-363 | The low-water step never writes over a wall. A fall fills only an empty cell, and a merge lands on water below. |
| Water.FlowStep | IS-N1/Automaton_2D.py:366-427 | The branches are tried in source order. Each writes amounts in [8, 16] within the cross around the cell, never touches a wall, and conserves the amount above 8 among the cells it involves. |
| Water.WaterPlan | IS-N1/Automaton_2D.py:335-430 | The safeguard fires exactly for an amount outside [8, 16] and resets it to 8. Every other branch writes storable water near the cell, never touches a wall, and conserves the amount above 8 (except where the 16 cap cuts it). |
| Water.WaterRule | IS-N1/Automaton_2D.py:335-430 | The water rule's writes are safe, and every amount it writes is in [8, 16]. |
| Tick.RuleFor | IS-N1/Automaton_2D.py:119-138 | The rule chosen by a cell's tag writes safely. Empty cells and walls write nothing. Only smoke touches the lifetimes, and lifetimes never become negative. |
| Tick.RuleShape | IS-N1/Automaton_2D.py:119-138 | Every rule writes storable cells within the 3x3 block around its cell. |
| Tick.Dispatch | IS-N1/Automaton_2D.py:119-138 | Dispatching one cell keeps every wall of the scratch buffer and keeps it storable. Empty cells and walls change nothing. Non-smoke leaves the lifetimes alone. Cells outside the 3x3 block are unchanged. |
| Tick.MovingKindsConserve | IS-N1/Automaton_2D.py:127-134 | While the scratch buffer still holds the element at its cell, sand, wood and smoke conserve every kind's count. |
| Tick.Coordinates | IS-N1/Automaton_2D.py:116 | The coordinate list has `w*h` entries and lists every in-range position exactly once. |
| Tick.InertRunIsIdle | IS-N1/Automaton_2D.py:119-124 | A grid of only empty cells and walls makes no rule fire, in any order. |
| Tick.SweepLifetimes | IS-N1/Automaton_2D.py:143-155 | An entry survives the sweep exactly when its lifetime is positive, and then it drops by one. |
| Tick.SweepGrid | IS-N1/Automaton_2D.py:145-149 | The sweep clears exactly the in-range smoke cells whose lifetime has run out. Everything else is unchanged. |
| Tick.SweepKeepsWalls | IS-N1/Automaton_2D.py:147-149 | The sweep never creates or removes a wall. |
| Tick.SweepLoop | IS-N1/Automaton_2D.py:142-155 | The source's two-pass sweep (count down or collect, then delete) gives the declarative sweep for any iteration order of the keys. |
| Tick.SweepPass | IS-N1/Automaton_2D.py:142-152 | The first pass clears exactly the smoke whose countdown has run out. It counts every live countdown down by one and collects exactly the run-out keys, whatever the iteration order. |
| Tick.DropAll | IS-N1/Automaton_2D.py:154-155 | Deleting the collected keys removes exactly those keys and leaves every other value as it was. |
| Tick.CountdownExpiry | IS-N1/Automaton_2D.py:144-155 | A lifetime of `L` is still present, at 0, after `L` sweeps, and it is gone after `L + 1`. |
| Tick.Update | IS-N1/Automaton_2D.py:111-155 | A generation keeps the grid's size and keeps every cell storable. A cell is a wall afterwards exactly when it was before. Lifetimes stay non-negative. |
| Tick.InertWorldIsFixed | IS-N1/Automaton_2D.py:111-155 | A world of empty cells and walls with no lifetimes is a fixed point of a generation. |
| Placement.AddElement | IS-N1/Automaton_2D.py:461-479 | Placement outside the grid or onto a wall does nothing. Otherwise it stores the element, with water as amount 15. Placed smoke gets a lifetime in its range. No other cell and no other lifetime changes. |
| Placement.AddElementIdempotent | IS-N1/Automaton_2D.py:461-479 | Placing the same element twice, with the same draw, is the same as placing it once. |
| Placement.PlacedSmokeExpires | IS-N1/Automaton_2D.py:472-479 | Placed smoke's lifetime runs out after the drawn number of sweeps, and the next sweep removes it. |
| Cave.CountNeighbors | IS-N1/Automaton_2D.py:98-109 | The nested loops count the neighbours of the given element code among the eight cells around (x, y), skipping the centre and out-of-range cells. |
| Cave.NeighbourCountAtMostEight | IS-N1/Automaton_2D.py:100-109 | The count is at most 8. |
| Cave.NeighbourCountIgnoresCentre | IS-N1/Automaton_2D.py:103-104 | The count does not depend on the centre cell. |
| Cave.CaveStep | IS-N1/Automaton_2D.py:78-96 | A smoothing pass keeps a cave grid a cave grid: only walls and empty cells, and walls all along the border. |
| Cave.CaveStepRule | IS-N1/Automaton_2D.py:81-94 | On a cave grid the border is kept. An interior cell is a wall afterwards exactly when it was a wall with at least 2 wall neighbours, or empty with at least 6 (B678/S2345678). |
| Cave.CaveStepMonotone | IS-N1/Automaton_2D.py:81-94 | A grid with more walls smooths to a grid with more walls. |
| Cave.SmoothKeepsLayout | IS-N1/Automaton_2D.py:77-96 | Any number of passes keeps a cave grid a cave grid. |
| Cave.SmoothMonotone | IS-N1/Automaton_2D.py:77-96 | Any number of passes preserves the "more walls" order between grids. |
| Cave.Seed | IS-N1/Automaton_2D.py:65-75 | The seed has walls along the border. An interior cell is a wall exactly when its noise value is below the fill ratio. |
| Cave.GenerateCave | IS-N1/Automaton_2D.py:63-96 | The generated grid has the same size, is storable and is a cave grid. The lifetimes are untouched. |
| Cave.MoreFillMoreRock | IS-N1/Automaton_2D.py:72-73 | With the same noise, a higher fill ratio never produces fewer walls, after any number of passes. |
| Cave.SolidRockIsStable | IS-N1/Automaton_2D.py:91-94 | A grid of all walls is a fixed point of a pass. |
| Clustering.Groups | IS-N3/main.py:57-64 | The grouping is empty exactly when the input is. It has no more groups than positions, no group is empty, and the last group ends with the last position. |
| Clustering.GroupsCluster | IS-N3/main.py:57-64 | The groups concatenate back to the input. Neighbours within a group are at most `tol` apart, and the jump between consecutive groups is more than `tol`. |
| Clustering.ClusteringUnique | IS-N3/main.py:57-64 | Any grouping with the properties of `GroupsCluster` is the one the loop builds. |
| Clustering.TruncDiv | IS-N3/main.py:65 | `int()` of a quotient truncates toward zero, for both signs. |
| Clustering.TruncMean | IS-N3/main.py:65 | The truncated mean of a group lies between its least and its greatest element. |
| Clustering.ClusterPositions | IS-N3/main.py:55-65 | One position per group, at most as many as the input, and none exactly when the input is empty. Each one lies within its group's range. |
| Clustering.GroupsSorted | IS-N3/main.py:59-64 | For increasing input, every group is increasing and each group starts after the previous one ends. |
| Clustering.ClustersIncreasing | IS-N3/main.py:55-65 | For increasing input, the clustered positions are strictly increasing. |
| Clustering.SpreadPositionsKept | IS-N3/main.py:55-65 | When consecutive positions are more than `tol` apart, clustering returns them unchanged. |
| Geometry.FloorDiv | IS-N3/main.py:42-43 | `//` rounds toward negative infinity, for both signs of the divisor. |
| Geometry.SplitTable | IS-N3/main.py:40-52 | Splitting fails with division by zero exactly when `rows` or `cols` is 0. Otherwise it yields `rows*cols` cells, or none when a count is negative. |
| Geometry.SplitTableAt | IS-N3/main.py:46-51 | Cell `k` is the tile at (k / cols, k % cols) of size `h//rows` by `w//cols`, and it lies within the image. |
| Geometry.SplitTableDisjoint | IS-N3/main.py:46-51 | Two different cells of a split do not overlap. |
| Geometry.Quadrants | IS-N3/main.py:159-176 | Dividing fails with division by zero exactly when a divisor is 0. Otherwise it yields `height_div*width_div` quadrants. |
| Geometry.QuadrantUnclipped | IS-N3/main.py:168-171 | The `min` clipping of a quadrant against the image never takes effect. |
| Geometry.QuadrantsAreTableCells | IS-N3/main.py:159-176 | Dividing into quadrants is the same as splitting into a table with `height_div` rows and `width_div` columns. |
| Geometry.CellsFromLines | IS-N3/main.py:97-108 | There is one cell per pair of consecutive x lines and consecutive y lines, `(len(xs)-1)*(len(ys)-1)` in all. |
| Geometry.CellsFromLinesAt | IS-N3/main.py:100-107 | Cell `k` lies between lines k / (len(ys)-1) and k % (len(ys)-1), shrunk by the padding. |
| Geometry.LastCellTag | IS-N3/main.py:100-107 | The last cell is tagged (len(xs)-2, len(ys)-2). |
| Geometry.ChecksPassExactly | IS-N3/main.py:286-292 | Both sanity checks pass exactly when there are 26 x lines and 51 y lines. Then every cell's letter index is below 25. |
| Labels.JoinSplit | IS-N3/main.py:363 | Joining the parts of a split with the separator gives the string back. |
| Labels.SplitJoin | IS-N3/main.py:363 | Splitting the join of separator-free parts gives the parts back. |
| Labels.AbecedaLettersPlain | IS-N3/main.py:301-302 | There are 25 letters, and none contains `.` or `_`. |
| Labels.LetterAt | IS-N3/main.py:306 | List indexing succeeds exactly for -25 <= i < 25, and a non-negative index gives that letter. |
| Labels.LabelRoundTrip | IS-N3/main.py:363 | For a font and a letter without `.`, the label recovered from the saved cell's file name is the row label the direct extraction writes. |
| Labels.CellLabels | IS-N3/main.py:305-312 | Labelling succeeds exactly when every cell's letter index is valid, and it gives one label per cell. |
| Labels.CellLabelsAt | IS-N3/main.py:312 | Label `k` is the font name joined by `_` to cell `k`'s letter. |
| Labels.CheckedCellsLabelled | IS-N3/main.py:286-312 | Once the sanity checks pass, every cell gets the label `font_letter` of its column's letter. |
| Labels.Header | IS-N3/main.py:329 | The header has `1 + height_div*width_div` entries, and the first is `letter_type`. |
| Labels.HeaderAt | IS-N3/main.py:329 | Header entry k+1 names quadrant (k / width_div, k % width_div). |
| Labels.QuadrantNameDecodes | IS-N3/main.py:245 | A quadrant column name splits on `_` into three parts, and its two numbers read back as the row and the column. |
| Labels.HeaderDistinct | IS-N3/main.py:329 | No two header entries are equal. |
| Labels.BuildHeader | IS-N3/main.py:240-247 | The header built with nested appends equals the one built by the comprehension. |
| Labels.BuildRow | IS-N3/main.py:244-246 | The inner loop appends, for row i, the names of the quadrants (i, 0) to (i, width_div - 1) in order. |
| Labels.FeatureRow | IS-N3/main.py:312-316 | A feature row starts with its label and has one field per quadrant. |
| Labels.RowMatchesHeader | IS-N3/main.py:329-367 | A feature row has as many fields as the header, and field k+1 belongs to the quadrant that header entry k+1 names. |
| Labels.ImageRowsAsWritten | IS-N3/main.py:271-297 | As written, one cell yields seven rows, cut 10 by 7 and then 2, 3, 5, 10, 25 and 50 each way, whatever divisors the header used; each row has one field per quadrant of its own pass. |
| Labels.NoImageRowFitsDefaultHeader | IS-N3/main.py:217-261 | Under the default 4 by 4 header of 17 fields, the first row has 71 fields, and none of the seven rows has 17. |
| Labels.ImageRow | IS-N3/main.py:261-297 | With the file's divisors passed through, a cell's row has exactly as many fields as the header; zero divisors raise, as `divide_into_quadrants` does. |
| Labels.ImageRowMatchesHeader | IS-N3/main.py:240-247 | The corrected row lines up with the header built in `process_all_fonts`: field k+1 holds the feature of the quadrant that header field k+1 names. |
| Labels.CsvRoundTrip | IS-N3/main.py:318 | Splitting a CSV line on commas gives back the fields, when no field contains a comma. |

## Left out

- `run_simulation` and the `CellularAutomaton_2D` class (the matplotlib
  window, buttons and mouse handlers) are interface code. `get_water_color`
  only chooses display colours.
- The pseudo-random generators are not modelled. `random.shuffle`,
  `random.choice`, `random.randint` and `random.random` become parameters:
  the `Draw` record, the order passed to `Tick.Update`, and the noise grid
  passed to `Cave.Seed`. `Fresh` maps a raw draw onto the `randint` range.
- Water amounts are exact reals, so float rounding drift over many
  generations is not modelled.
- Tick.Update: this assumes a grid whose every cell is storable, meaning no
  water amount below 8 (`ValidGrid`). The simulation only ever writes such
  cells, and the model proves generations keep them. A grid filled with
  arbitrary floats from outside is not modelled.
- Tick.Update: this does not claim that a generation conserves water or
  particles as a whole. Rules read the current buffer while writing the
  scratch buffer, so two rules can move into the same cell and one write
  can overwrite another. The code does not conserve mass in that case.
  What is proved is conservation per move (`Lattice.MoveKeepsCounts`,
  `Tick.MovingKindsConserve`) and per water branch.
- Tick.Update: this does not claim that lifetime keys sit exactly on
  smoke cells. The code does not keep that: fire turning into smoke gets no
  lifetime, and a lifetime moved onto a cell that another rule later
  overwrites stays behind.
- `IS-N1/main.py` (the program entry point) is not part of this model, and
  neither are the `IS-N2` and `IS-N4` directories.
- In `IS-N3/main.py`, the image work is not modelled: OpenCV line
  detection, reading and writing images, `tesseract`, and directory
  listing. `calculate_quadrant_features` is passed in as a function from
  tile to feature string, so `round(feature, 4)` is not modelled.
- Clustering.ClusterPositions: `np.mean` is computed in floats and then
  truncated by `int()`. The model takes the exact integer mean and
  truncates it toward zero, which agrees except where float rounding moves
  the mean across an integer.
- The copying of `features.csv` lines between files in
  `process_all_fonts` and the directory walk of
  `extract_features_from_saved_cells` are file-system work. Only the
  header and the row strings they write are modelled.

## Findings

| source | as written | input that shows it | evidently intended | confidence | as-written member | corrected member |
|---|---|---|---|---|---|---|
| IS-N3/main.py:261, 271, 294-297 | `process_all_fonts` writes a header for `width_div` x `height_div` quadrants (lines 240-247) and passes those divisors to `process_single_image`. That function ignores them: it writes one row cut 10 by 7 and six rows cut 2, 3, 5, 10, 25 and 50 each way, all into the same file. | The default divisors 4 and 4: the header has 17 fields, the first row for every cell has 71, and no row has 17. | Each row of `features.csv` holds one feature per quadrant of the header, so the cells are cut `width_div` by `height_div`. | medium; not executed | Labels.ImageRowsAsWritten, with Labels.NoImageRowFitsDefaultHeader | Labels.ImageRow, with Labels.ImageRowMatchesHeader |
