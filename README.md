# grid — a verified model of a two-dimensional grid crate

This project models the core of `grid`, a Rust crate. The crate stores a
rectangle of items in one row-major vector and addresses them by
`Coordinate` (a column `x` and a row `y`). It has five parts:

- `Grid<T>` (`src/grid.rs`) has a non-zero `width` and a non-empty item
  vector whose length is a multiple of the width. The height is derived
  from the two.
- `GridBuilder<T>` (`src/builder.rs`) collects items and optional width
  and height hints. It then builds a grid, or returns a `BuildError` that
  hands the items back.
- `BuildError<T>` (`src/errors/build_error.rs`) has six variants. Each one
  carries the rejected items.
- The older `Grid<T>` (`src/lib.rs`) stores a plain `width` and `height`,
  either of which may be zero.
- `Coordinate` (`src/coordinate.rs`) is a pair of `usize` values. It has a
  row-major index, tuple conversions and a text parser.

The Dafny modules are laid out like the crate:

| module | file | models |
|---|---|---|
| `Options` | options.dfy | `Option` and `Result` |
| `Numbers` | numbers.dfy | `usize` bounds, `checked_mul`, division facts |
| `Seqs` | seqs.dfy | distinctness and flattening of sequences |
| `Coordinates` | coordinate.dfy | `Coordinate` and the neighbour generator |
| `Grids` | grid.dfy | the modern `Grid<T>` and `TryFrom` |
| `BuildErrors` | build_error.dfy | `BuildError<T>` |
| `Builders` | builder.dfy | `GridBuilder<T>` and its decision procedure |
| `LegacyGrids` | legacy_grid.dfy | the older `Grid<T>` |

Modelling choices:

- Both grids are classes over an `array<T>`. In the source they keep their
  shape for their whole life, so the width and the array are `const`
  fields. `get_mut`, `iter_mut`, `enumerate_mut` and `neighbors_mut` update
  cells in place. Each of them is modelled as a method that takes the
  update as a function argument and states the whole new array.
- The builder's hints and items change, so `GridBuilder<T>` is a class with
  `var` fields. Its decision is the function `BuildPlan`, and `Build` is
  proved against it.
- The functions that return iterators (`enumerate`, `rows`, `neighbors`,
  `neighbor_coordinates`) return the sequence the iterator would yield, in
  the same order.

## Model

| member | source | states |
|---|---|---|
| `Coordinates.New` | src/coordinate.rs:15-17 | Builds the coordinate with exactly the given column and row. |
| `Coordinates.Coordinate.X` | src/coordinate.rs:29-31 | The column, which together with the row rebuilds the coordinate through `new`. |
| `Coordinates.Coordinate.Y` | src/coordinate.rs:33-35 | The row, which together with the column rebuilds the coordinate through `new`. |
| `Coordinates.FromTuple` | src/coordinate.rs:59-69 | Converting the coordinate built from a pair back to a pair gives that pair. |
| `Coordinates.Coordinate.ToTuple` | src/coordinate.rs:71-81 | Converting a coordinate to a pair and rebuilding it with `new` gives back the coordinate. |
| `Coordinates.TupleRoundTrip` | src/coordinate.rs:59-81 | For every pair and every coordinate: pair to coordinate to pair gives back the pair, and coordinate to pair to coordinate gives back the coordinate. |
| `Coordinates.Coordinate.ToIndex` | src/coordinate.rs:37-39 | When the column is inside the width, the row-major index decodes back to this coordinate. |
| `Coordinates.FromWidthAndIndex` | src/lib.rs:84-88 | The decoded column is below the width, and row times width plus column is the index again. |
| `Coordinates.Coordinate.AsIndex` | src/grid.rs:166-171 | Gives an index exactly when the column is inside the width. That index is the row-major index, and it decodes back to the coordinate. |
| `Coordinates.Coordinate.Shift` | src/lib.rs:72-77 | The shifted position exists exactly when neither axis goes negative, and then it is the sum of the position and the offset. |
| `Coordinates.NeighborOffsets` | src/lib.rs:91-96 | The generator yields exactly the list `(-1,-1), (-1,0), (-1,1), (0,-1), (0,1), (1,-1), (1,0), (1,1)`: the eight offsets of the 3×3 block other than `(0, 0)`, with no repeats and with `3·dx + dy` strictly increasing, so `dx` varies slowest. |
| `Coordinates.OffsetsInOrder` | src/lib.rs:91-96 | Pairing every value of `[-1, 0, 1]` with every value and dropping `(0, 0)` gives the eight-element list of the source's order. |
| `Coordinates.MooreOffsets` | src/lib.rs:8 | That list contains every offset in `{-1, 0, 1}²` except `(0, 0)`, with no repeats, the first component never decreasing and `3·dx + dy` strictly increasing. |
| `Coordinates.RankedOffsets` | src/lib.rs:91-96 | Eight offsets in `{-1, 0, 1}²` whose ranks `3·dx + dy + 4` are 0 to 8 without 4, in order, are the eight neighbour offsets, each once, in generator order. |
| `Coordinates.DropOrigin` | src/lib.rs:95 | Filtering out `(0, 0)` from a list with one origin between two origin-free runs joins the runs. |
| `Coordinates.Coordinate.Neighbors` | src/lib.rs:70-78 | At most eight positions. A position is listed exactly when it touches this one (both axes differ by at most one, and it is not the same position). No repeats, the position itself is never listed, and the list comes in generator order: `3·(n.x − x) + (n.y − y)` strictly increases along it. |
| `Coordinates.Coordinate.NeighborsAreTouching` | src/lib.rs:70-78 | A position is produced from the generator's offsets exactly when it touches the centre. |
| `Coordinates.Coordinate.OnlyTouchingNeighbors` | src/lib.rs:70-78 | Shifting by offsets in `{-1, 0, 1}²` other than `(0, 0)` only produces positions touching the centre. |
| `Coordinates.Coordinate.AllTouchingNeighbors` | src/lib.rs:70-78 | When the offsets include every non-zero offset in `{-1, 0, 1}²`, every touching position is produced. |
| `Coordinates.Coordinate.ShiftAll` | src/lib.rs:71-77 | Every position comes from some offset, every offset that stays non-negative contributes its position, there is at most one position per offset, distinct offsets give distinct positions, and offsets in generator order give positions in generator order around this one. |
| `Coordinates.Coordinate.ShiftedTailAbove` | src/lib.rs:71-77 | When the offsets are in generator order, the positions shifted from the later offsets all rank above the first offset, so shifting keeps the order. |
| `Coordinates.Coordinate.ShiftedStep` | src/lib.rs:71-77 | Putting the first offset's position, when it exists, before the positions of the later offsets keeps every property of `ShiftAll`: only shifted positions, every existing one, no repeats for distinct offsets, and generator order. |
| `Coordinates.Coordinate.ShiftedDistinct` | src/lib.rs:71-77 | Distinct offsets shift to distinct positions, so the first position is not repeated among the later ones. |
| `Coordinates.KeepWithin` | src/lib.rs:73-76 | Keeps exactly the listed positions that lie inside `width × height`, adds none, keeps a repeat-free list repeat-free, and keeps a list in generator order around any centre in that order. |
| `Coordinates.KeptTailAbove` | src/lib.rs:73-76 | Dropping positions from a list in generator order keeps it in that order. |
| `Coordinates.NeighborsWithin` | src/lib.rs:70-78 | At most eight positions, exactly the touching ones inside `width × height`, with no repeats, never the centre, and in generator order around the centre. |
| `Coordinates.NeighborsWithinCount` | src/grid.rs:268-279 | For a position inside the grid, the neighbour count is the size of the clipped 3×3 block around it, minus one. |
| `Coordinates.BlockCount` | src/grid.rs:268-279 | Any repeat-free list of exactly the on-grid neighbours of an on-grid position has `Span(x) · Span(y) − 1` elements. |
| `Coordinates.NeighborCountsThreeByFour` | src/grid.rs:268-279 | On a 3-by-4 grid there are 3 neighbours at a corner, 8 at the two inner positions and 5 elsewhere on the border. These are the twelve counts the documentation asserts. |
| `Coordinates.ParseUsize` | src/coordinate.rs:20-21 | A parsed value fits in a `usize`. Parsing succeeds only on a non-empty string of decimal digits with an optional leading `+`. |
| `Coordinates.DecimalString` | src/coordinate.rs:20-21 | The decimal rendering of a number is non-empty, has only digits, and denotes that number. |
| `Coordinates.ParseDecimal` | src/coordinate.rs:20-21 | Every `usize` value reads back from its decimal rendering. |
| `Coordinates.SplitOnce` | src/coordinate.rs:46 | Finds no split exactly when the separator is absent. Otherwise the string is the text before the first separator, the separator and the rest. |
| `Coordinates.SplitOnceAtFirst` | src/coordinate.rs:46 | When the text before a separator holds no separator, the split lands right after it, whatever follows. |
| `Coordinates.FromStrPair` | src/coordinate.rs:19-27 | Succeeds exactly when both halves parse, with those values. A bad `x` gives `InvalidXValue` whatever `y` is. `InvalidYValue` comes exactly when `x` parses and `y` does not. `NotTwoNumbers` never comes from here. |
| `Coordinates.FromStr` | src/coordinate.rs:45-50 | `NotTwoNumbers` comes exactly when the text has no space. Otherwise the result is the pair parse of the text split at its first space. |
| `Coordinates.FromStrThreeNumbers` | src/coordinate.rs:45-50 | `"1 2 3"` gives `InvalidYValue`, because only the first space splits. |
| `Coordinates.FromStrAtFirstSpace` | src/coordinate.rs:45-50 | Text whose first space separates `a` from `b` parses exactly as the pair `(a, b)`. |
| `Coordinates.FromStrOneNumber` | src/coordinate.rs:45-50 | `"42"` gives `NotTwoNumbers`. |
| `Coordinates.FromStrTwoNumbers` | src/coordinate.rs:45-50 | `"32 1337"` parses to `Coordinate(32, 1337)`. |
| `Coordinates.ParseThirtyTwo` | src/coordinate.rs:20-21 | `"32"` parses to 32. |
| `Coordinates.ParseThirteenThirtySeven` | src/coordinate.rs:20-21 | `"1337"` parses to 1337. |
| `Numbers.CheckedMul` | src/grid.rs:80 | The product is missing exactly when it exceeds `usize::MAX`. Otherwise it is the product. |
| `Grids.Grid.NewUnchecked` | src/grid.rs:89-101 | Given a non-zero width and a non-empty item list whose length is a multiple of it, the new grid is valid and holds exactly those items in order. |
| `Grids.Grid.Height` | src/grid.rs:111-117 | The height is non-zero, and height times width is the number of items. |
| `Grids.Grid.Size` | src/grid.rs:119-131 | The size is non-zero and equals height times width. |
| `Grids.Grid.IsEmpty` | src/grid.rs:133-137 | True exactly when there are no items, so it never holds for a valid grid. |
| `Grids.Grid.Encompasses` | src/grid.rs:351-358 | A coordinate is on the grid exactly when its column is inside the width and its row-major index is inside the item vector. |
| `Grids.Grid.Get` | src/grid.rs:166-171 | Gives an item exactly when the coordinate is on the grid, and then it is the item at row times width plus column. |
| `Grids.GetHelloWorld` | src/grid.rs:147-163 | For `"Hello world!"` four wide, the height is 3, and `get` returns the character at `4·y + x` inside `4 × 3` and nothing outside. |
| `Grids.Grid.GetMut` | src/grid.rs:175-180 | Reports a cell exactly when the coordinate is on the grid. That one cell is updated, and every other cell and everything off the grid is unchanged. |
| `Grids.Grid.IterMut` | src/grid.rs:189-223 | Every cell is updated once, in index order, from its index and old value. |
| `Grids.Grid.Enumerate` | src/grid.rs:225-231 | One pair per item, in index order. The coordinate of the i-th pair lies inside the width and has index i, and its item is the i-th item. |
| `Grids.Grid.EnumerateAgreesWithGet` | src/grid.rs:225-231 | A coordinate and item pair is enumerated exactly when `get` at that coordinate yields that item. |
| `Grids.Grid.EnumerateDistinct` | src/grid.rs:225-231 | No coordinate is enumerated twice. |
| `Grids.Grid.EnumerateMut` | src/grid.rs:233-239 | Every cell is updated once from its decoded coordinate and its old value. |
| `Grids.Grid.Row` | src/grid.rs:332-337 | Row `y` is the slice of the items from `y·width` to `(y+1)·width`. |
| `Grids.Grid.Rows` | src/grid.rs:331-339 | There are `height` rows, and each is the matching slice of the items. |
| `Grids.Grid.RowsFlatten` | src/grid.rs:315-339 | Concatenating the rows in order gives back the whole item vector. |
| `Grids.Grid.NeighborCoordinates` | src/grid.rs:341-348 | At most eight coordinates. A coordinate is listed exactly when it is on the grid and touches the given one. No repeats, the given coordinate is never listed, and the list comes in generator order around it (`3·dx + dy` strictly increasing). |
| `Grids.Grid.NeighborCoordinatesCount` | src/grid.rs:268-279 | For a coordinate on the grid, the number of neighbouring coordinates is the clipped 3×3 block minus one. |
| `Grids.Grid.Neighbors` | src/grid.rs:281-287 | Every yielded pair agrees with `get`. The coordinates yielded are exactly the neighbouring coordinates, in ascending index order. |
| `Grids.Grid.NeighborsInternal` | src/grid.rs:289-295 | Yields, in ascending index order, the listed coordinates that are on the grid, each with its item. |
| `Grids.Grid.NeighborsCount` | src/grid.rs:268-295 | `neighbors` yields as many pairs as there are neighbouring coordinates. |
| `Grids.Grid.NeighborsMut` | src/grid.rs:298-304 | Exactly the neighbouring cells are updated, each once, and every other cell is unchanged. |
| `Grids.Grid.NeighborsMutInternal` | src/grid.rs:306-312 | Exactly the cells at listed coordinates on the grid are updated, and the rest are unchanged. |
| `Grids.Contains` | src/grid.rs:376-378 | The grid contains an element exactly when some coordinate's `get` yields it. |
| `Grids.TryNew` | src/grid.rs:75-87 | Fails exactly when `width × height` overflows `usize`. On success the grid has that width, height and size, and every cell is the initial value. |
| `Grids.New` | src/grid.rs:43-45 | When the product fits, the grid has the given width and height and every cell is the initial value. |
| `Grids.TryFromAsWrittenAcceptsEmpty` | src/grid.rs:512 | The guard as written accepts an empty item list for any width, although such a list breaks the invariant `new_unchecked` demands. |
| `Grids.TryFromAcceptsAsWritten` | src/grid.rs:512 | The test as written: only divisibility by the width, so every accepted length is a whole number of rows. |
| `Grids.TryFromAcceptsIsInvariant` | src/grid.rs:509-519 | The corrected guard is exactly the grid invariant, that is, the guard as written plus a non-empty list. |
| `Grids.TryFrom` | src/grid.rs:509-519 | Succeeds exactly when the item count is a non-zero multiple of the width (corrected guard, see Findings; the guard as written is `Grids.TryFromAcceptsAsWritten`). The grid then has that width and holds the items in order. |
| `Grids.TryFromEightItems` | src/grid.rs:490-501 | Eight items are accepted at width 4 and rejected at width 3. |
| `BuildErrors.BuildError.IntoItems` | src/errors/build_error.rs:25-34 | Every variant hands back the items it carries. |
| `Builders.BuildPlan` | src/builder.rs:179-225 | The four hint cases in the source's order and with its error variants, except that the height-only branch uses the corrected rule `Builders.WidthForHeight` (the branch as written is `Builders.WidthForHeightAsWritten`, see Findings). A successful plan satisfies the grid invariant for the item count. It keeps a given width hint, and, under the corrected rule, a given height hint times the planned width is the count. Every error carries the items unchanged. |
| `Builders.BothHints` | src/builder.rs:181-191 | With both hints, the plan is `Ok(width)` exactly when the count is `width × height`, and `SizeDoesNotMatch` otherwise. |
| `Builders.WidthOnly` | src/builder.rs:193-203 | With only a width, the plan succeeds exactly when the count is a non-zero multiple of it. `TooWide` comes exactly when the width exceeds the count, and `SizeNotMultipleOfWidth` exactly when it does not exceed it but does not divide it. |
| `Builders.HeightOnly` | src/builder.rs:204-221 | With only a height, the corrected plan succeeds exactly when the count is a non-zero multiple of the height, with width `count / height`. `TooTall` comes exactly when the height exceeds the count, and `SizeNotMultipleOfHeight` exactly when it does not exceed it but does not divide it. |
| `Builders.WidthForHeightAsWritten` | src/builder.rs:207-214 | The width the code derives from a height alone satisfies the grid invariant, but its product with the height may be smaller than the count. |
| `Builders.HeightOnlyEightByThreeAsWritten` | src/builder.rs:207-214 | As written, eight items with height 3 are accepted with width 2, which gives a grid of height 4 (see Findings). |
| `Builders.WidthForHeight` | src/builder.rs:204-221 | The corrected rule accepts exactly when the count is a non-zero multiple of the height, and the width times the height is then the count. |
| `Builders.WidthForHeightRefinesAsWritten` | src/builder.rs:207-214 | Whatever the corrected rule accepts, the code as written accepts with the same width. |
| `Builders.HeightOnlyEightByThree` | src/builder.rs:204-221 | With the corrected rule, eight items with height 3 are refused as `SizeNotMultipleOfHeight`. |
| `Builders.ErrorProvenance` | src/builder.rs:179-225 | Each error variant comes only from its own hint combination: `NeitherWidthNotHeightSet` from no hints, `SizeDoesNotMatch` from both, and so on. |
| `Builders.GridBuilder.New` | src/builder.rs:31-37 | A new builder holds the given items and no hints. |
| `Builders.GridBuilder.Width` | src/builder.rs:54-57 | Sets the width hint, replacing any earlier one, and leaves the rest unchanged. |
| `Builders.GridBuilder.Height` | src/builder.rs:75-78 | Sets the height hint, replacing any earlier one, and leaves the rest unchanged. |
| `Builders.GridBuilder.WithItem` | src/builder.rs:96-99 | Appends one item at the end and leaves the hints unchanged. |
| `Builders.GridBuilder.Extend` | src/builder.rs:117-123 | Appends the given items at the end, in order, and leaves the hints unchanged. |
| `Builders.GridBuilder.Build` | src/builder.rs:179-225 | Succeeds exactly when the plan does, with a fresh valid grid of the planned width over the builder's items. Otherwise returns the plan's error, which gives back the items. The height-only case follows the corrected `Builders.WidthForHeight`, not the code as written (see Findings). |
| `Builders.BuildDocExamples` | src/builder.rs:137-177 | The seven documented outcomes of `build` on literal inputs. |
| `LegacyGrids.Grid.New` | src/lib.rs:11-19 | `height` rows of `width` cells, all equal to the initial value, with either dimension allowed to be zero. |
| `LegacyGrids.UniformRows` | src/lib.rs:15-17 | Flattening `height` copies of a `width`-long row of one value gives `width × height` copies of it. |
| `LegacyGrids.Grid.Size` | src/lib.rs:29-31 | The size equals the number of stored cells. |
| `LegacyGrids.Grid.CoordinateToIndex` | src/lib.rs:80-82 | For a position with `x < width` and `y < height`, the index lies inside the `width × height` vector. |
| `LegacyGrids.Grid.IndexToCoordinate` | src/lib.rs:84-88 | The decoded column is below the width. |
| `LegacyGrids.Grid.CoordinateRoundTrip` | src/lib.rs:80-88 | A coordinate whose column is inside the width decodes back from its index. |
| `LegacyGrids.Grid.IndexRoundTrip` | src/lib.rs:80-88 | Every index is encoded again by its decoded coordinate. |
| `LegacyGrids.Grid.Get` | src/lib.rs:33-39 | Gives an item exactly when `x < width` and `y < height`, and then it is the cell at `y·width + x`. |
| `LegacyGrids.Grid.GetMut` | src/lib.rs:41-48 | Reports a cell exactly when it is in bounds. Only that cell is updated. |
| `LegacyGrids.Grid.NeighborIndices` | src/lib.rs:70-78 | At most eight pairs. A pair is listed exactly when it is in bounds and touches `(x, y)`. No repeats, `(x, y)` itself is never listed, and the pairs come in generator order: `3·(px − x) + (py − y)` strictly increases along the list. |
| `LegacyGrids.PairsAround` | src/lib.rs:70-78 | The pairs of the on-grid neighbours of a centre are exactly the touching in-bounds pairs, once each, never the centre, in generator order. |
| `LegacyGrids.TuplesInOrder` | src/lib.rs:77 | Turning coordinates into pairs keeps their generator order. |
| `LegacyGrids.Grid.Neighbors` | src/lib.rs:65-68 | One triple per neighbour index, in the same order, whose item is what `get` yields there. |
| `LegacyGrids.Grid.CellsAt` | src/lib.rs:67 | Pairs every in-bounds index with its item, keeping the order. |
| `LegacyGrids.Tuples` | src/lib.rs:77 | Turning coordinates into pairs keeps each position and the order. |
| `LegacyGrids.NeighborTuples` | src/lib.rs:70-78 | The pairs of the clipped neighbour list are exactly the touching in-bounds pairs, with no repeats. |
| `LegacyGrids.NeighborCountsThreeByFour` | tests/test.rs:73-84 | On a 3-by-4 grid the neighbour counts are 3, 5 and 8 at exactly the positions the test asserts. |
| `LegacyGrids.ZeroDimension` | tests/test.rs:5-14 | A grid with a zero dimension stores no cells, has size 0, and `get` yields nothing anywhere. |

## Left out

- The `Display` implementations of `Grid`, `Coordinate` and `BuildError`, and the `Debug` derives, are not modelled. They only format text.
- The `Deref`, `DerefMut`, `AsRef`, `AsMut`, `Borrow` and `From<Vec<T>>` implementations only expose the item vector. The model exposes it as the `items` array and the `items` field instead.
- `Grid::iter` (modern and older) is not modelled separately: it is the item array itself.
- The older `iter_mut` and `enumerate` are not modelled: they are the same traversal already modelled for the modern grid.
- `Grid::new_default` is not modelled. It is `new` with the type's default value, which is a foreign trait call.
- The initializer closures of `new`, `try_new` and the older `new` become one constant value, because the closure's side effects are not visible. Every cell therefore receives an equal value.
- Iterators are modelled as the finite sequence they yield. Their laziness is not modelled.
- References returned by `get_mut`, `iter_mut`, `enumerate_mut` and `neighbors_mut` are not modelled as aliases. Each method takes the caller's update as a function and applies it at once.
- The builder's by-value `self` methods are modelled as in-place updates of one builder object.
- `Index<I>` (src/grid.rs:471-479) panics outside the grid. It is not modelled separately: `Grids.Grid.Get` covers the in-grid case, and a panic is outside the model.
- `Grids.New`: the source panics when `width × height` overflows. The model requires that it does not overflow, and the failure path is modelled by `Grids.TryNew`.
- `Builders.GridBuilder.New`, `Builders.GridBuilder.WithItem` and `Builders.GridBuilder.Extend` require the item count to stay within `usize::MAX`, because a `Vec` cannot grow past it (the source would abort on allocation).
- `Grids.Grid.NewUnchecked` and `Grids.TryFrom` require at most `usize::MAX` items, and `Grids.Grid.Valid` bounds the buffer length by it, because a `Vec` or boxed slice cannot hold more.
- `Numbers.USIZE_MAX` fixes `usize` at 64 bits: the model assumes a 64-bit platform for `usize::MAX` in `Grids.TryNew`, `Numbers.CheckedMul` and `Coordinates.ParseUsize`, and wherever else the bound appears.
- `Coordinates.Coordinate.ToIndex`, `Coordinates.Coordinate.AsIndex` and `LegacyGrids.Grid.CoordinateToIndex`: `y·width + x` is computed on unbounded integers, so a `usize` overflow for a far-off coordinate is not modelled. `get` and `get_mut` check the computed index against `items.len()` (src/grid.rs:170, 179), so in the model such a coordinate is simply off the grid. How `as_index` treats overflow is not modelled, and the older `coordinate_to_index` is only reached after its bounds check (src/lib.rs:34, 42).
- `LegacyGrids.Grid.Size`: `width × height` is computed on unbounded integers. An overflowing product cannot describe a stored vector.
- `Coordinates.Coordinate.Shift` works on unbounded integers. The older grid casts each axis to `isize` (src/lib.rs:72-75), so positions beyond `isize::MAX` would wrap there, and that wrap is not modelled.
- `Coordinates.ParseUsize` models `usize::from_str` as an optional `+` followed by ASCII digits whose value fits. That is the standard library's rule, but `str::parse` itself is not part of this model.
- `as_index`, `from_width_and_index` and `neighbors` of the newer `Coordinate` follow the index arithmetic and the neighbour generator of src/lib.rs, including its neighbour order (column offset −1, 0, 1 slowest, then the row offset), which the neighbour functions state in their contracts.
- `CoordinateParseError`'s error module (src/coordinate/errors.rs) is modelled only as the three variants.

## Findings

| source | as written | input that shows it | evidently intended | confidence | as-written member | corrected member |
|---|---|---|---|---|---|---|
| src/grid.rs:512 | `TryFrom` accepts any item count that is a multiple of `width`, including zero, and hands it to `new_unchecked` | an empty item list with width 1 | `new_unchecked` (src/grid.rs:89-101) demands a non-empty multiple of the width, so zero items should be rejected | not executed | `Grids.TryFromAsWrittenAcceptsEmpty` | `Grids.TryFrom` |
| src/builder.rs:207-214 | With only a height, `build` derives `width = len / height` and checks `len % width == 0`, so the height itself is never checked | 8 items, height 3: width 2 passes, and the grid gets height 4 | accept only when `len % height == 0`, as `SizeNotMultipleOfHeight` (src/errors/build_error.rs:18-19) describes, so the grid has the requested height | not executed | `Builders.HeightOnlyEightByThreeAsWritten` | `Builders.WidthForHeight` |
