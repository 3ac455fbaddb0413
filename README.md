# Bubble-shooter grid model in Dafny

This project models the grid logic of a hexagonal bubble shooter. The game
keeps a fixed `columns × rows` matrix of optional cells, with row 0 as the
ceiling. Odd and even rows are staggered, and a flag `IsAnchoredLeft` says
which parity leans left. The grid also holds a current bullet and a next
bullet, plus the list of colours still present among the cells attached to
the ceiling.

- `cell.dfy`, module `CellModel`: `Cell.cs`.
  - The `Cell.Type` enum has six colours and the `Length` sentinel.
  - `Vector2Int` becomes `Pos`.
  - `Cell` is a class with an immutable `cellType`, the mutable fields
    `currentPosition` and `previousPosition`, and its three constructors.
- `grid.dfy`, module `GridModel`: `CellGrid.cs` as the class `CellGrid`.
  - The matrix is an `array2?<Cell?>`, null until `Initialize`.
  - The bullets, the parity flag and `_activeTypes` are fields that the
    methods reassign.
  - The invariant `Valid()` holds for a grid built by the constructor and
    set up by `Initialize`, and every operation preserves it. It says three
    things:
    - the matrix has the configured shape;
    - every cell in the matrix sits at its own `currentPosition` and has a
      real colour;
    - the bullets are real colours, distinct from each other and held
      nowhere in the matrix.

The private recursive flood-fill is written as a worklist loop
(`FloodFill`) over a set of pending slots. It is proved equal to `Component(seed, criterion)`, which is
defined independently: the set of slots that a chain of adjacent,
qualifying slots joins to the seed. The same-colour match, the attached
cells and the floating cells are all stated through `Component`.

Three substitutions shape the model:
- **Randomness.** `UnityEngine.Random.Range(a, b)` becomes an arbitrary
  choice in `[a, b)`, written with `:|`.
- **Cell sets.** A `HashSet<Cell>` compares cells by reference. The model
  returns the set of slots those cells occupy instead. Because each cell
  sits at its own `currentPosition`, the two sets are in one-to-one
  correspondence and have the same size.
- **Column count.** The source keeps a private `_columnCount`. It equals
  `columns` once `Initialize` has run, so the model uses `columns`.

**Preconditions the model adds.**
- The constructor requires `0 <= columns`, `0 < rows` and
  `initialRowCount <= rows`. Each condition rules out a grid on which the
  source throws, except in the corner cases named below:
  - a negative `columns` or `rows` makes the allocation
    `new Cell[columns, rows]` in `Initialize` throw;
  - `initialRowCount > rows` makes `Initialize` index one row past the
    bottom as soon as there is a column;
  - `rows == 0` makes the row-0 reads of `FindAttachedCells` and the
    row-0 writes of `AddNewRow` throw as soon as there is a column.
  With no columns at all, the last two configurations run without an
  exception in the source; the model excludes them anyway.
  A negative `initialRowCount` is allowed: the filling loop then runs zero
  times, exactly as in the source.
- `AttachNewCell` requires in-bounds coordinates and a current bullet.
  Without them the C# code throws.
- `RemoveCells` requires an entry to have non-negative coordinates only
  when it passes both upper-bound tests. The source tests the upper
  bounds alone, with a short-circuit `&&`. An entry that fails either
  test is skipped whatever its other coordinate is. A negative coordinate
  throws only when both tests pass.

**Behaviour the model keeps as written.**
- `Initialize` does not reset `IsAnchoredLeft` or `_activeTypes`.
- `TearDown` does not reset them either.
- `RemoveCells` counts duplicate entries and entries that name an empty
  slot.
- `MoveCellsDown` on a single-row grid moves nothing and only flips the
  parity flag.

## Model

| member | source | states |
|---|---|---|
| CellModel.Ordinal | Assets/Scripts/Model/Cell.cs:10-19 | The enum's integer values go up to 6, and 6 is taken exactly by the `Length` sentinel. |
| CellModel.FromOrdinal | Assets/Scripts/Model/Cell.cs:10-19 | The cast from an integer in [0, 6] gives back the enum member with that value. |
| CellModel.OrdinalRoundTrip | Assets/Scripts/Model/Cell.cs:10-19 | Casting in both directions is the identity. A cast value is a real colour exactly when it is below `Length`. |
| CellModel.RandomType | Assets/Scripts/Model/Cell.cs:33 | A draw from `Random.Range(0, Length)` is below `Length`, so it is never the sentinel. |
| CellModel.Cell.OfType | Assets/Scripts/Model/Cell.cs:26-29 | `Cell(Type)` stores the given type unchanged. Both positions keep their default value. |
| CellModel.Cell.AtPosition | Assets/Scripts/Model/Cell.cs:31-35 | `Cell(Vector2Int)` sets `currentPosition` to the argument and picks a real colour. |
| CellModel.Cell.constructor | Assets/Scripts/Model/Cell.cs:37-41 | `Cell(Type, Vector2Int)` stores both arguments. |
| GridModel.CellGrid.constructor | Assets/Scripts/Model/CellGrid.cs:15-25 | A new grid has its configuration set, no matrix, no bullets, an empty active-colour list and a false parity flag. |
| GridModel.FilledMatrix | Assets/Scripts/Model/CellGrid.cs:29-39 | The matrix `Initialize` builds is fresh and has the configured shape. Exactly rows [0, initialRowCount) hold fresh real-colour cells at their own slots. |
| GridModel.FillColumn | Assets/Scripts/Model/CellGrid.cs:35-38 | The inner loop fills rows [0, count) of one column with fresh cells at their own slots, and changes nothing else. |
| GridModel.CellGrid.Initialize | Assets/Scripts/Model/CellGrid.cs:27-44 | Allocates a fresh matrix and fills exactly rows [0, initialRowCount) of every column with fresh cells, each at its own slot. All other slots are empty, and both bullets are fresh, non-null and at the default position. |
| GridModel.CellGrid.TearDown | Assets/Scripts/Model/CellGrid.cs:46-51 | Every slot and both bullets are null afterwards. The new state does not depend on the old slots or bullets, so a second call changes nothing. |
| GridModel.CellGrid.AttachNewCell | Assets/Scripts/Model/CellGrid.cs:53-58 | The former current bullet is at (x, y) with that `currentPosition` and its `previousPosition` unchanged. The current bullet is null, and no other slot changes. |
| GridModel.CellGrid.GetValidCellType | Assets/Scripts/Model/CellGrid.cs:121-124 | The result is one of the active colours, or Blue when there are none. |
| GridModel.CellGrid.CreateNewBullet | Assets/Scripts/Model/CellGrid.cs:60-64 | The old next bullet becomes current. The new next bullet is fresh and at the default position, and its colour is active, or Blue when no colour is active. The active-colour list is unchanged, so repeated calls stay within the same colours. |
| GridModel.CellGrid.RemoveCells | Assets/Scripts/Model/CellGrid.cs:66-79 | Returns the number of list entries that pass the upper-bound test. Every listed slot is null afterwards, and every other slot is unchanged. |
| GridModel.RemovableCount | Assets/Scripts/Model/CellGrid.cs:68-76 | The counter of `RemoveCells` is at most the number of list entries. |
| GridModel.RemovableCountBounds | Assets/Scripts/Model/CellGrid.cs:69-76 | The count never exceeds the list length. It equals the list length exactly when every entry is on the board. |
| GridModel.RemovableCountDuplicate | Assets/Scripts/Model/CellGrid.cs:69-76 | Listing an on-board position twice counts it twice. |
| GridModel.DiagonalsAlternate | Assets/Scripts/Model/CellGrid.cs:191 | The diagonal direction flips between adjacent rows, and it flips for every row when the parity flag flips. |
| GridModel.AdjacencySymmetric | Assets/Scripts/Model/CellGrid.cs:186-200 | The six-neighbour adjacency is symmetric for either parity, and no slot is its own neighbour. |
| GridModel.NeighboursShape | Assets/Scripts/Model/CellGrid.cs:186-200 | The six slots `Neighbours` lists in the order of the recursive calls are distinct and different from the slot itself. All of them lie in the 3 × 3 box around it. |
| GridModel.AdjacentByRow | Assets/Scripts/Model/CellGrid.cs:186-200 | `Adjacent` in the same row means directly left or right. In the rows above and below it means the same column or the one on the diagonal side. No slot two or more rows away is adjacent. |
| GridModel.CellGrid.QualifiesOccupied | Assets/Scripts/Model/CellGrid.cs:167-182 | A slot that passes the three early-return guards (`Qualifies`) is occupied. Under the accept-anything criterion every occupied slot passes them. |
| GridModel.CellGrid.ComponentMembers | Assets/Scripts/Model/CellGrid.cs:165-201 | A slot is in the component exactly when a path reaches it. Every member and the seed are on the board, occupied and accepted by the criterion. |
| GridModel.CellGrid.SeedInComponent | Assets/Scripts/Model/CellGrid.cs:167-184 | The seed is in its own component exactly when it qualifies. |
| GridModel.CellGrid.ComponentClosed | Assets/Scripts/Model/CellGrid.cs:186-200 | A qualifying neighbour of a member is a member. |
| GridModel.CellGrid.ClosedContainsComponent | Assets/Scripts/Model/CellGrid.cs:165-201 | Any neighbour-closed set that holds the seed contains the whole component, so the component is the least such set. |
| GridModel.CellGrid.PathInside | Assets/Scripts/Model/CellGrid.cs:186-200 | A path that starts inside a neighbour-closed set stays inside it. |
| GridModel.CellGrid.Visit | Assets/Scripts/Model/CellGrid.cs:179-184 | One call on a neighbour adds it to the visited set exactly when it passes the guards, and keeps a path to it from the seed. |
| GridModel.CellGrid.VisitNeighbours | Assets/Scripts/Model/CellGrid.cs:186-200 | After the six calls, every qualifying neighbour of the slot is visited. Nothing visited is lost, and every visited slot still has a path from the seed. |
| GridModel.CellGrid.Expand | Assets/Scripts/Model/CellGrid.cs:184-200 | One step of the fill keeps its invariants. Every slot that is visited but not pending has all its qualifying neighbours visited. The visited set grows, or else the pending set shrinks. |
| GridModel.CellGrid.FillComplete | Assets/Scripts/Model/CellGrid.cs:165-201 | Once nothing is pending, the visited set is exactly the component. |
| GridModel.CellGrid.FloodFill | Assets/Scripts/Model/CellGrid.cs:165-201 | The flood-fill from `seed` under `criterion` returns exactly the component. |
| GridModel.CellGrid.GetConnectedCells | Assets/Scripts/Model/CellGrid.cs:149-155 | Returns the same-colour component of the cell's position when it has at least `minimumCount` slots (default 3), otherwise no match. Every member holds a cell of the seed's colour. |
| GridModel.CellGrid.GetConnectedCellsNonMatching | Assets/Scripts/Model/CellGrid.cs:157-163 | Returns the accept-anything component of the cell's position. |
| GridModel.CellGrid.OccupiedSlots | Assets/Scripts/Model/CellGrid.cs:83 | The non-null cells of the matrix, as slots, all lie on the board. |
| GridModel.CellGrid.OccupiedMembers | Assets/Scripts/Model/CellGrid.cs:83 | A slot is in `OccupiedSlots()` exactly when it is on the board and holds a cell. |
| GridModel.CellGrid.AttachedMembers | Assets/Scripts/Model/CellGrid.cs:93-110 | A slot is attached exactly when a path of occupied slots joins it to some ceiling slot. |
| GridModel.CellGrid.AttachedOccupied | Assets/Scripts/Model/CellGrid.cs:81-85 | Attached slots are occupied. |
| GridModel.CellGrid.AttachedClosed | Assets/Scripts/Model/CellGrid.cs:98-105 | Every occupied ceiling slot is attached, and so is every occupied neighbour of an attached slot. |
| GridModel.CellGrid.CollectAttached | Assets/Scripts/Model/CellGrid.cs:96-105 | The loop over the ceiling returns exactly the attached slots. |
| GridModel.CellGrid.FindAttachedCells | Assets/Scripts/Model/CellGrid.cs:93-110 | Returns the union of the accept-anything components of the occupied ceiling slots. `_activeTypes` then lists exactly the colours of those cells, each once. |
| GridModel.ListOf | Assets/Scripts/Model/CellGrid.cs:107 | A set turned into a list holds the same elements with no repeats. |
| GridModel.CellGrid.GetActiveCellsCount | Assets/Scripts/Model/CellGrid.cs:87-91 | Returns the number of attached cells, and refreshes `_activeTypes` to their colours. |
| GridModel.CellGrid.FindFloatingCells | Assets/Scripts/Model/CellGrid.cs:81-85 | Returns the occupied slots that are not attached. The floating and attached slots are disjoint, and together they are exactly the occupied slots. |
| GridModel.CellGrid.MoveCell | Assets/Scripts/Model/CellGrid.cs:135-142 | One inner step: the cell at (column, row), if any, moves into the slot below and records its old slot. (column, row) becomes empty, and no other slot changes. |
| GridModel.CellGrid.ShiftRow | Assets/Scripts/Model/CellGrid.cs:133-143 | One inner pass: every cell of `row` moves into the slot below, with `previousPosition` set to its old slot. `row` becomes empty, and nothing else moves. |
| GridModel.CellGrid.MoveCellsDown | Assets/Scripts/Model/CellGrid.cs:126-147 | Every slot below the ceiling holds what was one row above it, and the ceiling is empty, unless there is only one row. Moved cells record their old slot, and the parity flag is negated once. |
| GridModel.CellGrid.FillCeiling | Assets/Scripts/Model/CellGrid.cs:115-118 | Every ceiling slot receives a fresh cell at its own slot, and no other slot changes. |
| GridModel.CellGrid.AddNewRow | Assets/Scripts/Model/CellGrid.cs:112-119 | Every cell moves one row down, with current and previous positions updated, and keeps its colour. The ceiling holds a fresh cell at each (c, 0). The cells of the old last row are gone from the matrix, and the parity flag is negated once. |

## Left out

- The Unity view layer is not part of this model. This covers the grid manager's pooling, sprites, coroutines and fades, its world-to-grid rounding, and its `OnHit` sequence. That sequence orders calls to the operations above rather than adding logic of its own.
- The cell view's physics, the menu canvas and the game manager's timer, audio and score display are not part of this model. They are frame-driven or user-interface code.
- `UnityEngine.Random` is abstracted to an arbitrary choice in its range. The model does not state that the draw is uniform.
- Sets of slots stand in for `HashSet<Cell>`. Reference identity inside the sets is not modelled; the `Valid()` invariant makes slots and cells correspond one to one.
- The order of the `_activeTypes` list built by `ToList()` is left arbitrary. Only its elements and their distinctness are stated.
- The visiting order and recursion depth of the recursive flood-fill are not modelled. Only the set it builds is.
- The public `Matrix` getter lets callers write slots directly. The model assumes no caller outside `CellGrid` does, which is what `Valid()` relies on.
- GridModel.CellGrid.Initialize: requires `_activeTypes` to hold only real colours. This holds for every grid built by the constructor and changed only by these operations.
- GridModel.CellGrid.TearDown: idempotence is stated through the postcondition, which fixes the whole resulting state, rather than as a separate lemma; lemmas cannot call methods.
