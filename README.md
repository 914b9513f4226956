# Falling-sand simulator: the engine in Dafny

This project models the simulation engine of a small browser falling-sand
toy (`src/main.ts`). The screen is a grid of cells. Each cell holds an atom
of one of three materials: empty space (`VOID`), `SAND` or `WATER`. On every
tick the grid is replaced by its next state, and the mouse paints material
into the grid with a square brush.

The model has four modules.

- `Atoms` (`atoms.dfy`): the material enum and the `Atom` value, `isEmpty` and `createVoid`.
- `Grids` (`grids.dfy`): the generic `Matrix<T>` container.
  - It is a class whose `matrix` field holds the rows as `seq<seq<T>>`. `set` and `setPoints` reassign the field.
  - Every method is proved against a pure function on rows: `Cell` for `get`, `Write` for `set`, `Points` for `getPoints`, `WritePoints` for `setPoints`.
  - The properties of the container are lemmas about those functions: the order of `getPoints`, `copy` reproducing the grid, and `map` transforming each cell.
- `Universe` (`universe.dfy`): `Universe.nextState`.
  - `Decide` is the choice of rule for one cell. It reads only the old grid.
  - `Apply` is the rule's writes into the staging grid.
  - `NextStateSpec` folds these over the cells in row-major order.
  - The method `NextState` is the source's loop over `Matrix` objects: copy, walk the points, apply the rules in place. It is proved to compute `NextStateSpec`. Its per-cell body `ApplyRules` is a line-by-line transcription of the callback.
- `Sandboxes` (`sandboxes.dfy`): the `Sandbox` class.
  - It holds the grid and the velocity.
  - `setAtom` is the two nested loops of the source, proved against the function `Brush`.
  - `Advance` is the tick loop of `displayNextState`, without the repaint, proved against `Iterate`.

`Options.Option<T>` stands for the source's `T | null` results. `GetOr` is the `??` operator.

Three behaviours of the code are worth knowing before reading the model.

- **Material.** The tick does not conserve material in general.
  - In a one-wide column of sand over water over empty space, the sand first swaps with the water, so the middle cell is staged with sand. The water, still read from the old grid, then falls from the middle cell into the empty bottom cell. That move copies what is staged at the bottom, an empty atom, into the middle cell, and the empty atom overwrites the staged sand.
  - `SinkColumnLosesSand` proves this, with the exact resulting grid.
  - Conservation is proved for every grid in which the sink rule fires nowhere (`ConservationWhenSinkNeverFires`). Simpler sufficient conditions are no sand directly above water (`ConservationWithoutSink`) and no water at all (`SandOnlyConserves`).
  - Sand above water can still keep its material when it settles diagonally instead of sinking (`DiagonalOverWaterConserves`).
- **Stacks.** A grain resting on another grain still slides to an empty lower diagonal, so a pile of sand is not at rest until its slopes are filled (`DiagonalScenario`).
- **Dead fallbacks.** Every in-range cell of an `Atom` grid holds an atom, so `get` on an in-range cell never returns `null`. Two kinds of code therefore never take effect.
  - The "stay if unset" writes (lines 278 and 335) find the cell already set.
  - The `?? Atom.createVoid()` fallbacks (lines 283, 291, 298, 322, 328) and the `?? bottomAtom` fallback (line 305) are never reached, because every move's target exists in the staging grid.
  - Both are modelled literally, as `Rule.Stay` and `Swap.fallback`. `StayWritesNothing` and `FallbackNeverUsed` prove they have no effect.

## Model

| member | source | states |
|---|---|---|
| Atoms.Atom.IsEmpty | src/main.ts:351-353 | (predicate) an atom is empty exactly when its type is `VOID`; pinned down by `CreateVoid`, whose second ensures makes the void atom the only empty one |
| Atoms.CreateVoid | src/main.ts:351-357 | the created atom is empty, and it is the only atom that is empty (`isEmpty` holds exactly for `VOID`) |
| Options.Option.GetOr | src/main.ts:283 | (helper) the `??` operator: the value if present, else the default; its use is pinned down by `FallbackNeverUsed` |
| Grids.Cell | src/main.ts:48-50 | (helper) the optional-chaining read `matrix?.[y]?.[x] ?? null`; pinned down by `Matrix.Get`'s ensures and by `Write`'s cell-wise ensures |
| Grids.Write | src/main.ts:52-58 | the pure meaning of `set`: same shape; cell (x, y) becomes the value if it exists; every other cell, and every cell after an out-of-range write, is unchanged |
| Grids.FlattenWrite | src/main.ts:52-58 | an in-range write removes exactly the old value from the grid's multiset of cells and adds the new one |
| Grids.Points | src/main.ts:60-63 | (helper) the nested `map` and `flat` of `getPoints`; pinned down by `PointsShape` |
| Grids.PointsShape | src/main.ts:60-63 | the flattened points are exactly height times width many; each is in range and carries its own cell's value; cell (x, y) is at index y*width+x; the list is strictly row-major (y ascending, then x) |
| Grids.WritePoints | src/main.ts:66-68 | writing a list of points in order keeps the grid's shape |
| Grids.WritePointsFrom | src/main.ts:66-68 | writing in-range points taken from `src` gives each named cell `src`'s value and keeps every other cell |
| Grids.WritePointsCovering | src/main.ts:66-68 | writing a list that covers every cell of a rectangle, each with that cell's value in `src`, produces exactly `src`, whatever the starting grid held |
| Grids.PointsCoverAll | src/main.ts:60-63 | every cell of a rectangular grid appears among its points |
| Grids.MapPoints | src/main.ts:72 | (helper) the point `map` inside `map`; pinned down by `MapPointsWrite` |
| Grids.MapPointsCover | src/main.ts:72 | the mapped points still name every cell of the grid |
| Grids.MapPointsValues | src/main.ts:72 | each mapped point lies in the grid and carries `f(value, x, y)` of its own cell |
| Grids.MapPointsWrite | src/main.ts:70-74 | writing the mapped points into any grid of the same dimensions gives the grid whose cell (x, y) is `f(value, x, y)` |
| Grids.Matrix.CreateMatrix | src/main.ts:36-39 | `height` rows of `width` cells, each the fill value |
| Grids.Matrix.constructor | src/main.ts:41-46 | the new matrix has the given dimensions and fill value, and every cell holds the fill value |
| Grids.Matrix.Get | src/main.ts:48-50 | on a well-formed matrix, a value is found exactly for in-range coordinates (otherwise `null`, here `None`), and the value found is the stored one |
| Grids.Matrix.Set | src/main.ts:52-58 | the new rows are `Write` of the old rows: only an in-range cell changes; the matrix stays well formed |
| Grids.Matrix.GetPoints | src/main.ts:60-63 | height times width points in row-major order; point (x, y) is at index y*width+x and carries the value stored at (x, y) |
| Grids.Matrix.SetPoints | src/main.ts:66-68 | given in-range points, the new rows are the old rows with the points written in list order; the matrix stays well formed |
| Grids.Matrix.Map | src/main.ts:70-74 | a fresh, well-formed matrix of the same dimensions whose cell (x, y) is `mapFn(value at (x, y), x, y)` |
| Grids.Matrix.Copy | src/main.ts:80-84 | a fresh, well-formed matrix with the same dimensions, fill value and cells |
| Grids.CopyThenSet | src/main.ts:80-84 | a write to the copy changes the copy as `Write` says and leaves the original's cells as they were |
| Grids.SetAfterCopy | src/main.ts:80-84 | a write to the original after copying changes the original as `Write` says and leaves the copy equal to the original's old cells: the two share no storage in either direction |
| Universe.EmptyAt | src/main.ts:290 | (predicate) `get(x, y)?.isEmpty()`, also at lines 297, 316, 321 and 327: the cell exists and is empty; pinned down by `DiagonalPriority` and `WaterSpreads` |
| Universe.Decide | src/main.ts:273-335 | the rule chosen for one cell: an empty cell does nothing; a move targets a cell of the old grid that is at most one column aside and zero or one rows down, never the cell itself; the target is empty in the old grid, unless the move is sand sinking into the water directly below |
| Universe.Apply | src/main.ts:278-335 | staging a rule's writes keeps the staging grid's shape |
| Universe.StepCell | src/main.ts:272-336 | (helper) the `forEach` callback on one point: `Apply` of the cell's `Decide` rule; pinned down by `ApplyRules`, whose in-place body is proved equal to it, and by `SwapExchanges` |
| Universe.StepAll | src/main.ts:272-338 | processing a list of points in order keeps the staging grid's shape |
| Universe.NextStateSpec | src/main.ts:270-340 | the next grid has the shape of the input |
| Universe.ApplyRules | src/main.ts:273-336 | processing one cell changes the staging matrix exactly as `Apply` of that cell's `Decide` rule, given the cell's decision read from the old matrix |
| Universe.NextState | src/main.ts:270-340 | a fresh, well-formed matrix of the input's dimensions whose cells are `NextStateSpec` of the input's; the input is not modified |
| Universe.FallFirst | src/main.ts:276-286 | a non-empty atom above an empty cell falls, whatever surrounds it |
| Universe.DiagonalPriority | src/main.ts:282-301 | both directions: down-left happens exactly when the cell below exists and is occupied and down-left is an empty cell of the grid; down-right happens exactly when, in addition, down-left is not |
| Universe.SandSinksIntoWater | src/main.ts:303-308 | sand above water, with neither diagonal an empty cell, swaps with the water |
| Universe.SandNeverMovesSideways | src/main.ts:273-308 | a move of sand always goes to the row below |
| Universe.WaterSpreads | src/main.ts:312-335 | water that cannot fall, settle or sink stays when both sides are empty, moves left when only the left is, right when only the right is, and otherwise stays |
| Universe.FloorAtomsStay | src/main.ts:276-280 | an atom in the bottom row never moves on its own, so water resting on the floor never spreads |
| Universe.StayWritesNothing | src/main.ts:278 | the "stay if unset" write leaves the staging grid unchanged on an in-range cell |
| Universe.FallbackNeverUsed | src/main.ts:283-328 | the `??` fallback of every move is irrelevant: replacing it by any other atom gives the same staging grid |
| Universe.SwapExchanges | src/main.ts:283-306 | a move whose source still holds the atom exchanges two staged cells, changes nothing else, and keeps the multiset of atoms |
| Universe.StepAllAppend | src/main.ts:272 | processing `a + b` is processing `a`, then `b` on the result |
| Universe.StepAllQuiet | src/main.ts:272-338 | cells whose rule is not a move leave the staging grid unchanged |
| Universe.QuiescentIsFixedPoint | src/main.ts:270-340 | a grid in which no cell's rule is a move is its own next state |
| Universe.AllVoidIsFixedPoint | src/main.ts:270-275 | an all-empty grid is its own next state |
| Universe.LoneMover | src/main.ts:270-340 | when only one cell has a move, the tick is that cell's writes on the grid itself |
| Universe.QuietBefore | src/main.ts:272 | when only (x, y) has a move, the points visited before it leave the staging grid as it was |
| Universe.QuietAfter | src/main.ts:272 | when only (x, y) has a move, the points visited after it leave any staging grid of the same shape as it was |
| Universe.LoneAirborneAtom | src/main.ts:270-340 | when every other non-empty cell lies in the bottom row, the tick is the writes of the one remaining atom |
| Universe.SingleParticleFalls | src/main.ts:276-286 | a lone atom with an empty cell below moves down exactly one cell: its old cell becomes empty, the cell below holds it, all else is unchanged (no cascade) |
| Universe.StepAllConserves | src/main.ts:283-331 | in a grid where the sink rule fires nowhere, each processed move is an exchange of two staged cells, so the multiset of atoms is kept, and every later non-empty cell is still staged with its own atom |
| Universe.SinkNeverFires | src/main.ts:303-308 | (predicate) every move chosen in the grid targets a cell that is empty in the grid, that is, the sink rule fires nowhere |
| Universe.NoSinkNeverFires | src/main.ts:282-308 | with no sand directly above water, the sink rule fires nowhere |
| Universe.ConservationWhenSinkNeverFires | src/main.ts:270-340 | in every grid where the sink rule fires nowhere, a tick preserves the multiset of atoms (the count of each material) |
| Universe.ConservationWithoutSink | src/main.ts:270-340 | with no sand directly above water, a tick preserves the multiset of atoms |
| Universe.DiagonalOverWaterConserves | src/main.ts:289-294 | sand above water with an empty lower-left neighbour settles diagonally: the grid has sand above water, the sink rule fires nowhere, and the multiset of atoms is kept |
| Universe.SandOnlyConserves | src/main.ts:270-340 | a grid without water keeps its multiset of atoms |
| Universe.FallScenario | src/main.ts:276-286 | 3 by 3 grid with only sand at (1, 0): afterwards (1, 0) is empty, (1, 1) is sand, (1, 2) is still empty |
| Universe.DiagonalScenario | src/main.ts:289-294 | a grain on a grain with both lower diagonals empty settles down-left, not down-right |
| Universe.SinkScenario | src/main.ts:303-308 | sand over water: afterwards the water is on top and the sand below |
| Universe.SpreadNoOpScenario | src/main.ts:316-319 | water on a sand floor with both sides empty does not move |
| Universe.SlideLeftScenario | src/main.ts:321-325 | water on a sand floor with only the left side empty moves left |
| Universe.SinkColumnTick | src/main.ts:283-306 | the tick of the one-wide column sand, water, empty, visited cell by cell, is water, empty, water |
| Universe.SinkColumnLosesSand | src/main.ts:283-306 | one-wide column sand, water, empty becomes water, empty, water: the sand is lost and the multiset changes |
| Universe.TwoColumnDrift | src/main.ts:289-329 | in the 3 by 3 grid empty, empty, sand / water, empty, sand / sand, sand, sand: the sand at (2, 0) settles into (1, 1), then the water at (0, 1) moves right into (1, 1) and carries the staged sand back to (0, 1). The exact result is empty, empty, empty / sand, water, sand / sand, sand, sand; the multiset of atoms is kept; the only cell that loses sand is (2, 0) and the only one that gains it is (0, 1), two columns apart |
| Universe.DriftTick | src/main.ts:270-340 | the tick of that grid, visited cell by cell: two moves, then seven cells with no effect |
| Universe.DriftKeepsMaterial | src/main.ts:270-340 | that tick's result holds the same multiset of atoms as the grid |
| Universe.DriftSandCells | src/main.ts:289-329 | comparing that grid with its tick, sand leaves only (2, 0), which becomes empty, and arrives only at (0, 1), which held water |
| Sandboxes.Brush | src/main.ts:226-233 | the painted grid has the shape of the input |
| Sandboxes.BrushAt | src/main.ts:226-233 | each in-range cell with its distance to (x, y) at most the brush size on both axes holds the atom; every other cell is unchanged |
| Sandboxes.BrushIdempotent | src/main.ts:226-233 | painting the same square twice is painting it once |
| Sandboxes.BrushPoint | src/main.ts:226-233 | with the default brush size 0, painting is the single write of `set` |
| Sandboxes.Repeat | src/main.ts:240-242 | (helper) `n` applications of a step function, none for `n <= 0`: the shape of the `for (let i = 0; i < this.velocity; i++)` loop |
| Sandboxes.RepeatAdd | src/main.ts:240-242 | m applications followed by n more are m + n applications |
| Sandboxes.RepeatFixed | src/main.ts:240-242 | a fixed point of the step is a fixed point of any number of applications |
| Sandboxes.Iterate | src/main.ts:239-242 | (helper) `n` ticks of the universe, none for `n <= 0`; pinned down by `Advance`, `IterateAdd` and `IterateAllVoid` |
| Sandboxes.IterateShape | src/main.ts:239-242 | any number of ticks keeps the grid's shape |
| Sandboxes.IterateAllVoid | src/main.ts:239-242 | an all-empty sandbox stays all-empty for any number of ticks |
| Sandboxes.IterateAdd | src/main.ts:239-242 | m ticks followed by n ticks are m + n ticks |
| Sandboxes.Sandbox.constructor | src/main.ts:206-210 | a fresh grid of the given dimensions with every cell empty, and velocity 1 |
| Sandboxes.Sandbox.SetAtom | src/main.ts:226-233 | the nested cursor loops leave the grid equal to `Brush` of the old grid; it stays well formed |
| Sandboxes.Sandbox.Advance | src/main.ts:239-242 | the grid is replaced by `velocity` ticks of the old grid, with the same dimensions; no ticks when velocity is not positive |

## Left out

- `Display`, `Pixel`, `Sandbox.atomToPixel` and `Sandbox.displayMatrix` are left out. They are canvas drawing, DOM events, frame timing and colour formatting, which are browser I/O and floating point.
- `Sandbox.start`, `pause`, `isPlaying`, `fps` and `main` are left out. They are timer and DOM wiring.
- The mouse handler in the `Sandbox` constructor is left out. It is a DOM callback. Its three calls are `SetAtom` with sand and brush size 1, empty space and brush size 0, and water and brush size 2.
- `console.log('hola')` in the sink rule is left out. It is output with no effect on state.
- `Matrix.forEach` is not a member of its own. Its callback in `nextState` mutates another matrix, which a Dafny function value cannot do. Instead, `NextState` loops over `GetPoints()` and calls `ApplyRules` on each point, which is exactly what `forEach` expands to there. `GetPoints` states the visiting order.
- `Atom.copy` is left out. It is never called, and atoms are values here, so a copy is the atom itself.
- Grids.Matrix.SetPoints: it requires every point to be inside the grid. Out of range, JavaScript would throw or grow the arrays.
- Grids.Matrix.Map: the source fills the new matrix with `null` before overwriting every cell. An arbitrary value of the result type stands in for `null`.
- Grids.Matrix.Get: values stored in a grid cannot be `null`, so `get` returns `None` only out of range. A `null` stored in a cell is not modelled.
- Universe.ConservationWhenSinkNeverFires: conservation is stated only for grids where the sink rule fires nowhere, because where it fires the code can lose material (see `SinkColumnLosesSand`).
- A whole-grid bound saying no particle moves more than one cell per tick does not hold for the code, so it is not stated. Each single move is bounded in `Decide`'s contract. But a later move can carry an atom that an earlier move staged, so a grain can end up two columns away from where it started, even in a tick that keeps every atom (`TwoColumnDrift`).
- Coordinates, the brush size and the velocity are integers. JavaScript numbers are floating point, and fractional coordinates are not modelled.
