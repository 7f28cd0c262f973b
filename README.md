# poly_ui layout core in Dafny

A model of the layout core of the poly_ui widget toolkit (Rust), with proofs about it:

- **the per-axis size solver** (`LayoutItemsSizeGen`, one class `Layout`). It shares an axis `size` among an ordered list of `Item`s. Each item has a stretch, a minimum, a maximum and a resolved current size. `validate` is modelled step by step, with the same in-place updates, removal and reinsertion around its recursive call;
- **the grid layout** (`GridLayouts`, class `GridLayout`). It holds a column axis and a row axis, each a `Layout`, plus a column-major cell table, two dirty flags, and the hierarchy of children. It offers count changes, auto-growing setters, insertion, and the refresh that writes a transform into every occupied cell;
- **the hierarchy of children** (`Components`, class `Hierarchy`). This is an ordered list of (widget id, `Transform`) with append, remove by id, first-match lookup and in-place transform setters;
- **the older linear solver** (`LinearLayout`). It contains its helpers and the recursive `get_items_sizes_impl` with its round-robin remainder;
- **the linear layout widget's item selection** (`LinearLayoutWidget`);
- **key and button edge detection** over the current and previous state tables (`InputStates`).

`Common` holds the shared vocabulary: `Option`, `Max`/`Min`, the `u32` limit, and sums over sequences of sizes with their lemmas.

## How the model treats the source

- **Integers.** Unsigned quantities are `nat` and positions are `int`.
- **Panics.** Most places where the source panics are explicit failure outcomes: an `unwrap` of a missing id, an unsigned subtraction that underflows, indexing an empty list, a division by a zero total stretch, and the overflow of `validate`'s `lowest_max_minus_current * items_stretch`. Methods return `ok: bool` or an `Option`; functions return `None`. There are two exceptions, listed under "Left out":
  - the other `u32` overflows, which are unbounded here;
  - the underflow in `LinearLayoutWidget.MinMaxDiff`, which is a precondition.
- **Widgets** are reduced to their identifiers (`WidgetId = nat`).
- **Spec functions and loops.** Loops of the source are `while` loops proved against a specification function of their inputs. For example, `GetRemainder` is proved against the closed form `Remainder`, and `PlaceChildren` against `Apply(TableWrites(...))`. The properties the source promises are proved about those functions as lemmas.
- **Split source functions.** Some single source functions are split into several methods, to keep each proof small:
  - `validate` becomes `Validate`, `DistributeFreeSpace`, `GrowAndSolveRest` and `DistributeRemainder`;
  - `refresh_children_transforms` becomes `RefreshChildrenTransforms`, `PlaceChildren` and `PlaceColumn`;
  - `get_items_sizes_impl` becomes `GetItemsSizesImpl`, `SolveWithoutLowest`, `SpreadRemainder`, `LiftToMinimum`, `HandOutRoundRobin` and `CollectSizes`.

  The statements and their order are those of the source.
- **Where code and documentation disagree, the model follows the code.**
  - `validate` returns at once when no free space is left, without lifting current sizes to their minimums.
  - Its recursive branch grows every item by the narrowest headroom times the item's stretch. This can push an item with a stretch above 1 past its maximum. So no `current <= max` bound and no conservation of the total are stated for that branch.
  - The grid never clears its dirty flags, so `RefreshChildrenTransforms` leaves them as they were.
  - `insert_child_at` is documented to panic on a widget that was already added. The code appends the child with no check, and so does `InsertChildAt`.
  - `insert_child_at` documents an absent column or row as `count + 1`. The code uses the count itself, and so does `InsertChildAt`.
  - `set_column_count` and `set_row_count` document that widgets in dropped columns or rows are removed. The code only truncates the table and the hierarchy keeps them. `SetColumnCount` and `SetRowCount` state that the hierarchy's children are unchanged.
  - The grid calls `Layout::refresh` on its axes, but layout_items_size_gen.rs does not define it. The grid model therefore takes the per-axis re-solve as a parameter `solve`, and every grid property holds for any such function.

## Model

| member | source | states |
|---|---|---|
| LayoutItemsSizeGen.NewItem | src/poly_ui/layouts/layout_items_size_gen.rs:13-20 | a missing minimum becomes 0, a missing maximum `u32::MAX`; stretch kept, current size 0 |
| LayoutItemsSizeGen.LowestSpanIndex | src/poly_ui/layouts/layout_items_size_gen.rs:135-147 | the narrowest-span scan ends on an index of the list |
| LayoutItemsSizeGen.LowestSpanIsEarliestMinimum | src/poly_ui/layouts/layout_items_size_gen.rs:135-147 | the scan's index is the earliest whose `max - min` span is smallest: no span is smaller, every earlier span is strictly larger |
| LayoutItemsSizeGen.ArgMax | src/poly_ui/layouts/layout_items_size_gen.rs:173-189 | the arg-max scan from (0, 0): the best score is non-negative; a positive best is the score at the chosen index; with no positive score the index stays 0 |
| LayoutItemsSizeGen.ArgMaxIsFirstMaximum | src/poly_ui/layouts/layout_items_size_gen.rs:173-189 | no score exceeds the scan's best, and every score before the chosen index is strictly smaller: ties keep the earliest |
| LayoutItemsSizeGen.ArgMaxStep | src/poly_ui/layouts/layout_items_size_gen.rs:178-186 | one pass of the scan: the next score replaces the best only when strictly larger |
| LayoutItemsSizeGen.LiftedThenGrown | src/poly_ui/layouts/layout_items_size_gen.rs:83-85 | the in-place lifting and growing give exactly `LiftedAndGrown`, with the stretch total unchanged |
| LayoutItemsSizeGen.LiftedAndGrown | src/poly_ui/layouts/layout_items_size_gen.rs:83-85 | lifting to the minimum and then growing by `q` times the stretch keeps every constraint and gives `max(current, min) + q*stretch` |
| LayoutItemsSizeGen.Normalised | src/poly_ui/layouts/layout_items_size_gen.rs:127-133 | the list after `validate_all_items`: same length, every maximum lifted to `max(max, min)`, nothing else changed, so every maximum is at least its minimum |
| LayoutItemsSizeGen.Layout.New | src/poly_ui/layouts/layout_items_size_gen.rs:54-63 | size becomes `max(size, Σ min)`; items are the normalised list with the same constraints; construction succeeds exactly when `Solvable` holds for the new size and the normalised list, and then the validate outcome holds for that list; an empty list never fails and stays empty |
| LayoutItemsSizeGen.Layout.Validate | src/poly_ui/layouts/layout_items_size_gen.rs:73-103 | size, item count, order and every stretch/min/max are unchanged. It succeeds exactly when `Solvable(size, items)` holds. That is false where free space is left and the narrowest headroom times the total stretch exceeds `u32::MAX`, the product a debug build panics on. If it succeeds: nothing changes on an empty list, with no stretch, or with no free space. The distributing branch gives exactly the arg-max distribution of the leftover units over the lifted and grown items, fills the layout exactly and keeps every item at its minimum. The recursive branch grows the narrowest item by headroom times its stretch. An empty list never fails |
| LayoutItemsSizeGen.Layout.DistributeFreeSpace | src/poly_ui/layouts/layout_items_size_gen.rs:83-90 | the distributing branch succeeds exactly when the arg-max distribution of `free % total` units over the lifted items grown by `free / total` is defined (no score underflows), and then establishes the validate outcome |
| LayoutItemsSizeGen.Score | src/poly_ui/layouts/layout_items_size_gen.rs:191-197 | the score is non-negative exactly when the item holds at most its stretch's share of the size (`current * Σstretch <= stretch * size`), and zero exactly when it holds its share; a negative score is the source's underflow |
| LayoutItemsSizeGen.ScoreAfterUnit | src/poly_ui/layouts/layout_items_size_gen.rs:86-89 | one more unit for an item lowers its score by the total stretch |
| LayoutItemsSizeGen.Layout.GrowAndSolveRest | src/poly_ui/layouts/layout_items_size_gen.rs:91-101 | the recursive branch succeeds exactly when the narrowest grown item fits in the size and the rest of the grown list is solvable in what remains (`SaturationSolvable`); it restores size and puts the removed item back at its index, establishing the validate outcome |
| LayoutItemsSizeGen.GrownBy | src/poly_ui/layouts/layout_items_size_gen.rs:159-163 | every item grown by `diff` times its stretch, constraints unchanged |
| LayoutItemsSizeGen.SolvableCases | src/poly_ui/layouts/layout_items_size_gen.rs:73-90 | `validate` succeeds on an empty list and on an exact fit; it fails when the narrowest item is past its maximum or the items require more than the size; with free space left it fails when the narrowest headroom times the total stretch exceeds `u32::MAX`; in the distributing branch it succeeds exactly when that product fits and the remainder can be handed out |
| LayoutItemsSizeGen.SolvableBySaturation | src/poly_ui/layouts/layout_items_size_gen.rs:91-101 | in the recursive branch, `validate` succeeds exactly when the headroom-times-stretch product fits in a `u32`, the narrowest grown item fits and the rest is solvable in what remains |
| LayoutItemsSizeGen.TwoDefaultItemsOverflow | src/poly_ui/layouts/layout_items_size_gen.rs:75-83 | two items with default bounds and stretch 1 in a layout of 10: the branch test computes `u32::MAX * 2`, which overflows, so `validate` does not succeed |
| LayoutItemsSizeGen.SaturationStep | src/poly_ui/layouts/layout_items_size_gen.rs:94-98 | the result of solving the rest, with the narrowest item removed and its size subtracted, decides the recursive branch |
| LayoutItemsSizeGen.Layout.EnsureLayoutHasAtLeastMinimalWidth | src/poly_ui/layouts/layout_items_size_gen.rs:105-115 | items unchanged; size becomes `max(old size, Σ min)` |
| LayoutItemsSizeGen.Layout.GatherItemsStretch | src/poly_ui/layouts/layout_items_size_gen.rs:117-125 | the result is the sum of the stretches |
| LayoutItemsSizeGen.Layout.ValidateAllItems | src/poly_ui/layouts/layout_items_size_gen.rs:127-133 | items become the normalised list; size unchanged |
| LayoutItemsSizeGen.Layout.GetItemWithLowestMaxMinusCurrent | src/poly_ui/layouts/layout_items_size_gen.rs:135-147 | the result is the earliest narrowest-span index |
| LayoutItemsSizeGen.Layout.RemainingFreeLayoutSpace | src/poly_ui/layouts/layout_items_size_gen.rs:149-157 | defined exactly when `Σ max(current, min) <= size`, and then equal to `size - Σ max(current, min)` |
| LayoutItemsSizeGen.Layout.IncreaseEveryItemSize | src/poly_ui/layouts/layout_items_size_gen.rs:159-163 | every current size grows by `diff * stretch`; nothing else changes |
| LayoutItemsSizeGen.Layout.SetEveryItemSizeToAtLeastMin | src/poly_ui/layouts/layout_items_size_gen.rs:165-171 | every current size becomes `max(current, min)`; nothing else changes |
| LayoutItemsSizeGen.Layout.GetItemWithHighestExpectedMinusCurrentStretch | src/poly_ui/layouts/layout_items_size_gen.rs:173-197 | fails exactly when some score `stretch*size - current*Σstretch` is negative; otherwise the arg-max index of the scores |
| LayoutItemsSizeGen.Layout.DistributeRemainder | src/poly_ui/layouts/layout_items_size_gen.rs:86-89 | succeeds exactly when the unit-by-unit arg-max distribution does, and then leaves its result; constraints always kept; on success no item shrinks and the total grows by `count` |
| LayoutItemsSizeGen.Layout.GiveUnitToHighest | src/poly_ui/layouts/layout_items_size_gen.rs:87-88 | one pass of the loop: constraints and stretch total kept; on success the rest of the distribution continues from the new items; a failure means the distribution fails |
| LayoutItemsSizeGen.DistributedFails | src/poly_ui/layouts/layout_items_size_gen.rs:86-89 | when some score underflows, handing out any positive number of units fails |
| LayoutItemsSizeGen.DistributedAdds | src/poly_ui/layouts/layout_items_size_gen.rs:86-89 | handing out `count` units keeps every constraint, never shrinks an item and adds exactly `count` to the total |
| LayoutItemsSizeGen.DistributedStep | src/poly_ui/layouts/layout_items_size_gen.rs:87-88 | one unit given to the arg-max item is one step of the distribution; the stretch total is unchanged |
| LayoutItemsSizeGen.SumCurrentsAfterIncrease | src/poly_ui/layouts/layout_items_size_gen.rs:159-163 | growing every item by `diff * stretch` grows the total by `diff * Σstretch` |
| LayoutItemsSizeGen.SumCurrentsIncrement | src/poly_ui/layouts/layout_items_size_gen.rs:88 | one unit added to one item adds one to the total |
| LayoutItemsSizeGen.LowestSpanIgnoresCurrent | src/poly_ui/layouts/layout_items_size_gen.rs:135-147 | the narrowest-span choice depends only on minimums and maximums, never on current sizes |
| LayoutItemsSizeGen.ZeroStretch | src/poly_ui/layouts/layout_items_size_gen.rs:117-125 | the total stretch is 0 exactly when every stretch is 0 |
| LayoutItemsSizeGen.RemovalKeepsMaxAtLeastMin | src/poly_ui/layouts/layout_items_size_gen.rs:94 | removing an item keeps every maximum at least its minimum |
| LayoutItemsSizeGen.ReadyOutcome | src/poly_ui/layouts/layout_items_size_gen.rs:81-82 | with no free space, the unchanged list meets the validate outcome |
| LayoutItemsSizeGen.DistributionFills | src/poly_ui/layouts/layout_items_size_gen.rs:83-90 | lifting, growing by `q` rounds and adding `r` units fills `Σ max(current, min) + q*Σstretch + r` |
| LayoutItemsSizeGen.DistributionBounds | src/poly_ui/layouts/layout_items_size_gen.rs:83-90 | after growing from the lifted and grown list, every item is at least its minimum and at least its lifted size plus `q*stretch` |
| LayoutItemsSizeGen.DistributionOutcome | src/poly_ui/layouts/layout_items_size_gen.rs:83-90 | the distributing branch's result meets the validate outcome |
| LayoutItemsSizeGen.ReinsertKeepsConstraints | src/poly_ui/layouts/layout_items_size_gen.rs:94-100 | removing an item, solving the rest and reinserting at the same index keeps every constraint and the item in place |
| LayoutItemsSizeGen.ReinsertWithoutStretch | src/poly_ui/layouts/layout_items_size_gen.rs:92-100 | with no stretch anywhere, the recursive branch gives back the original list |
| LayoutItemsSizeGen.SaturationOutcome | src/poly_ui/layouts/layout_items_size_gen.rs:91-101 | the recursive branch's result meets the validate outcome |
| Components.DefaultTransform | src/poly_ui/components/transform.rs:30-37 | the default transform is position (0, 0), size (0, 0) |
| Components.Position | src/poly_ui/components/hierarchy.rs:72-76 | `None` exactly when no child has the id; otherwise the first position holding it |
| Components.TransformOf | src/poly_ui/components/hierarchy.rs:82-84 | `None` exactly when the id is absent; otherwise the transform at its first position |
| Components.WithTransform | src/poly_ui/components/hierarchy.rs:66-69 | ids and length kept; the first child with the id gets the new transform, all others unchanged; nothing changes when the id is absent |
| Components.Hierarchy.constructor | src/poly_ui/components/hierarchy.rs:25-28 | a new hierarchy has no children |
| Components.Hierarchy.Add | src/poly_ui/components/hierarchy.rs:34-39 | exactly one child appended, with the default transform |
| Components.Hierarchy.AddWithTransform | src/poly_ui/components/hierarchy.rs:41-46 | exactly one child appended, with the given transform |
| Components.Hierarchy.Remove | src/poly_ui/components/hierarchy.rs:48-53 | fails on an absent id without change; otherwise deletes the first child with the id, keeps the others in order, and hands back the id |
| Components.Hierarchy.SetPos | src/poly_ui/components/hierarchy.rs:56-59 | fails on an absent id without change; otherwise only the position of that child changes |
| Components.Hierarchy.SetSize | src/poly_ui/components/hierarchy.rs:61-64 | fails on an absent id without change; otherwise only the size of that child changes |
| Components.Hierarchy.SetTransform | src/poly_ui/components/hierarchy.rs:66-69 | fails exactly on an absent id; the children become the list with that child's transform replaced |
| Components.Hierarchy.Index | src/poly_ui/components/hierarchy.rs:72-76 | the first position holding the id, `None` exactly when there is none |
| Components.Hierarchy.GetTransform | src/poly_ui/components/hierarchy.rs:82-84 | the transform of the first child with the id; `None` exactly when the lookup fails |
| Components.PositionAfterAppend | src/poly_ui/components/hierarchy.rs:34-46 | appending keeps every earlier lookup; a lookup that found nothing now finds the new child when the id matches |
| Components.TransformAfterAdd | src/poly_ui/components/hierarchy.rs:41-46 | after `add_with_transform(c, t)` on a hierarchy without `c`, `get_transform(c)` is `t` |
| Components.PositionAfterRemoval | src/poly_ui/components/hierarchy.rs:48-53 | after removing position `j`, a child before `j` keeps its position and one after it moves one place forward |
| Components.PositionAfterSetTransform | src/poly_ui/components/hierarchy.rs:66-69 | setting a transform never changes any lookup |
| Components.TransformAfterSetTransform | src/poly_ui/components/hierarchy.rs:66-69 | after `set_transform`, the target reads back the new transform and every other id its old one |
| Components.SameIdsSamePosition | src/poly_ui/components/hierarchy.rs:72-76 | lookups depend only on the ids, position by position |
| Components.RemoveFirstOfTwo | src/poly_ui/layouts/canvas_layout.rs:132-149 | after adding `a` and `b` and removing `a`, `a` is not found and `b` is at position 0 |
| GridLayouts.Resized | src/poly_ui/layouts/grid_layout.rs:82-89 | `Vec::resize`: length `n`, old entries kept below `n`, new entries equal the fill |
| GridLayouts.WithSizes | src/poly_ui/layouts/grid_layout.rs:196-203 | an axis after its re-solve: constraints kept, item `i` takes the `i`-th resolved size |
| GridLayouts.LastWrite | src/poly_ui/layouts/grid_layout.rs:205-227 | `None` exactly when no write names the id; otherwise one of the writes naming it |
| GridLayouts.GridLayout.constructor | src/poly_ui/layouts/grid_layout.rs:38-48 | no children, an empty table, two distinct empty axes of span 0, both dirty |
| GridLayouts.PlaceKeepsPlaced | src/poly_ui/layouts/grid_layout.rs:63-76 | putting a child in a cell and appending it to the hierarchy keeps every child named in the table inside the hierarchy |
| GridLayouts.PlaceInExtended | src/poly_ui/layouts/grid_layout.rs:63-76 | after the insert's write into a grown table, the cell holds the child and every other cell holds the original content or nothing |
| GridLayouts.ExtendsTransitive | src/poly_ui/layouts/grid_layout.rs:63-76 | growing the table by columns and then by rows is one growth from the original table |
| GridLayouts.GridLayout.InsertChildAt | src/poly_ui/layouts/grid_layout.rs:63-76 | an absent column or row means the current count; each axis's items become the old ones resized to cover the cell, new items with stretch 1 and no bounds; an axis is dirty afterwards exactly when it was dirty or had at most `index + 1` items; both spans are kept; the cell holds the child, old cells are kept, new cells are empty; the child is appended with the default transform |
| GridLayouts.GridLayout.SetColumnCount | src/poly_ui/layouts/grid_layout.rs:82-89 | exactly `n` column items, new ones with stretch 1 and no bounds; columns from `n` on dropped, new columns empty; the table stays shaped; column axis dirty |
| GridLayouts.GridLayout.SetRowCount | src/poly_ui/layouts/grid_layout.rs:138-146 | exactly `n` row items, new ones with stretch 1 and no bounds; every column truncated or padded to `n`; the table stays shaped; row axis dirty |
| GridLayouts.GridLayout.EnsureColumnExists | src/poly_ui/layouts/grid_layout.rs:95-99 | the column items and the table are resized to `max(old, col + 1)` columns (never shrinking), new columns empty; the column axis is dirty exactly when it was or when the count was at most `col + 1`; span and row flag kept |
| GridLayouts.GridLayout.EnsureRowExists | src/poly_ui/layouts/grid_layout.rs:152-156 | the row items and every column are resized to `max(old, row + 1)` rows (never shrinking), new cells empty; the row axis is dirty exactly when it was or when the count was at most `row + 1`; span and column flag kept |
| GridLayouts.GridLayout.SetColumnStretch | src/poly_ui/layouts/grid_layout.rs:106-110 | the column items and table grow as in `EnsureColumnExists`, then only that column's stretch changes; the column span and the row flag are kept; column axis dirty |
| GridLayouts.GridLayout.SetColumnMaxSize | src/poly_ui/layouts/grid_layout.rs:117-121 | the column items and table grow as in `EnsureColumnExists`, then only that column's maximum changes; the column span and the row flag are kept; column axis dirty |
| GridLayouts.GridLayout.SetColumnMinSize | src/poly_ui/layouts/grid_layout.rs:128-132 | the column items and table grow as in `EnsureColumnExists`, then only that column's minimum changes; the column span and the row flag are kept; column axis dirty |
| GridLayouts.GridLayout.SetRowStretch | src/poly_ui/layouts/grid_layout.rs:163-167 | the row items and every column grow as in `EnsureRowExists`, then only that row's stretch changes; the row span and the column flag are kept; row axis dirty |
| GridLayouts.GridLayout.SetRowMaxSize | src/poly_ui/layouts/grid_layout.rs:174-178 | the row items and every column grow as in `EnsureRowExists`, then only that row's maximum changes; the row span and the column flag are kept; row axis dirty |
| GridLayouts.GridLayout.SetRowMinSize | src/poly_ui/layouts/grid_layout.rs:185-189 | the row items and every column grow as in `EnsureRowExists`, then only that row's minimum changes; the row span and the column flag are kept; row axis dirty |
| GridLayouts.GridLayout.RefreshChildrenTransforms | src/poly_ui/layouts/grid_layout.rs:195-228 | an axis whose span differs or that is dirty gets the painted span and is re-solved, otherwise it is untouched; the refresh never fails on a valid grid; the children become the writes of every occupied cell applied in order |
| GridLayouts.GridLayout.PlaceChildren | src/poly_ui/layouts/grid_layout.rs:205-227 | the nested loops with running offsets apply exactly the table's writes |
| GridLayouts.GridLayout.PlaceColumn | src/poly_ui/layouts/grid_layout.rs:208-225 | the inner loop applies exactly the column's writes |
| GridLayouts.GridLayout.Paint | src/poly_ui/layouts/grid_layout.rs:249-257 | refreshes only when a flag is dirty or a painted dimension differs from its axis span, and then each axis is re-solved exactly as in `RefreshChildrenTransforms` and the children become the table's writes applied in order; otherwise nothing changes |
| GridLayouts.GridLayout.RemoveChild | src/poly_ui/layouts/grid_layout.rs:237-239 | the hierarchy drops the first child carrying the id (or nothing, on the source's panic); the table is left as it was |
| GridLayouts.ApplyFailsOnAbsent | src/poly_ui/layouts/grid_layout.rs:214-222 | one write naming a child the hierarchy does not hold makes the whole run fail |
| GridLayouts.RefreshFailsOnAbsentChild | src/poly_ui/layouts/grid_layout.rs:205-227 | a refresh of a table with a cell naming a child the hierarchy does not hold fails |
| GridLayouts.RemovalStrandsCell | src/poly_ui/components/hierarchy.rs:48-53 | removing the only child carrying an id leaves no child carrying it |
| GridLayouts.ApplyConcat | src/poly_ui/layouts/grid_layout.rs:205-227 | two runs of writes in sequence are their concatenation |
| GridLayouts.SetTransformKeepsCells | src/poly_ui/layouts/grid_layout.rs:214-222 | a transform write keeps every cell's child in the hierarchy |
| GridLayouts.ColumnWritesStep | src/poly_ui/layouts/grid_layout.rs:208-225 | one pass of the inner loop applies the next write of the column: occupied rows get the cell transform, empty rows change nothing |
| GridLayouts.ColumnWritesMember | src/poly_ui/layouts/grid_layout.rs:208-225 | a column's writes are exactly its occupied rows, each with the row's prefix-sum offset and size |
| GridLayouts.TableWritesMember | src/poly_ui/layouts/grid_layout.rs:205-227 | a refresh's writes are exactly the occupied cells, each with position (Σ earlier columns, Σ earlier rows) and size (column size, row size) |
| GridLayouts.ApplyKeepsPositions | src/poly_ui/layouts/grid_layout.rs:214-222 | writes never change where a child is found |
| GridLayouts.ApplySucceeds | src/poly_ui/layouts/grid_layout.rs:214-222 | writes that all name children of the hierarchy all succeed |
| GridLayouts.ApplyLastWrite | src/poly_ui/layouts/grid_layout.rs:205-227 | afterwards a child holds its last write's transform, or its old one when unwritten |
| GridLayouts.RefreshSucceeds | src/poly_ui/layouts/grid_layout.rs:205-227 | on a table whose children are all in the hierarchy, no write of a refresh fails |
| GridLayouts.RefreshPlacesCell | src/poly_ui/layouts/grid_layout.rs:205-227 | a child in exactly one cell gets that cell's transform |
| GridLayouts.RefreshKeepsUnplaced | src/poly_ui/layouts/grid_layout.rs:205-227 | a child in no cell keeps its transform |
| GridLayouts.PaintTwoByTwo | src/poly_ui/layouts/grid_layout.rs:322-378 | on the 2-by-2 table of the insertion test with 400/300 halves: 1 at (0,0), 2 at (400,300), 3 at (0,300), each 400 by 300 |
| GridLayouts.InsertTwiceIntoEmpty | src/poly_ui/layouts/grid_layout.rs:273-321 | two untargeted inserts into an empty grid land in (0,0) and (1,1) of a 2-by-2 table |
| GridLayouts.InsertThriceIntoEmpty | src/poly_ui/layouts/grid_layout.rs:273-345 | a third insert at column 0, row 1 gives the table `[[a, c], [None, b]]` and children `a, b, c`, the input of `PaintTwoByTwo` |
| GridLayouts.RemoveAfterInsert | src/poly_ui/layouts/grid_layout.rs:237-239 | removing the only child of a one-cell grid leaves the cell naming it, so the grid is no longer valid |
| GridLayouts.InsertAfterColumnCount | src/poly_ui/layouts/grid_layout.rs:383-397 | after `set_column_count(1)`, an insert in row 0 without a column lands in a new second column |
| LinearLayout.GetTotalStretch | src/poly_ui/layouts/linear_layout.rs:125-131 | the result is the sum of the stretches |
| LinearLayout.ItemMinMaxDiff | src/poly_ui/layouts/linear_layout.rs:138-140 | `None` (underflow) exactly when the capped maximum is below the minimum; otherwise minimum plus result is the capped maximum |
| LinearLayout.LowestIsEarliestMinimum | src/poly_ui/layouts/linear_layout.rs:149-177 | the scan of `LowestMinMaxDiff::get` ends on the earliest item whose (difference, stretch) pair is lexicographically smallest: no item comes strictly before it, every earlier item comes strictly after it |
| LinearLayout.GetLowestMinMaxDiff | src/poly_ui/layouts/linear_layout.rs:149-177 | the loop equals the specification: `None` for an empty list, zero stretch or an underflowing difference, otherwise the earliest lexicographic minimum |
| LinearLayout.GetRemainder | src/poly_ui/layouts/linear_layout.rs:180-192 | the running loop equals the closed form: the whole goal for no items; `goal - Σ max(current, min)` when that sum is strictly below the goal; `None` otherwise |
| LinearLayout.Increased | src/poly_ui/layouts/linear_layout.rs:194-198 | every current size grows by `diff * stretch`, items kept |
| LinearLayout.IncreaseEveryItemSize | src/poly_ui/layouts/linear_layout.rs:194-198 | the loop's result is the increased list |
| LinearLayout.Lifted | src/poly_ui/layouts/linear_layout.rs:274-277 | every current size becomes `max(min, current)`, items kept |
| LinearLayout.RoundRobin | src/poly_ui/layouts/linear_layout.rs:279-290 | one unit per step from `idx`, wrapping at the end: the length is kept |
| LinearLayout.ItemsSizes | src/poly_ui/layouts/linear_layout.rs:200-299 | one size per item |
| LinearLayout.GetItemsSizesImpl | src/poly_ui/layouts/linear_layout.rs:200-299 | the method equals the recursive specification, `None` where the source panics |
| LinearLayout.ItemsSizesWithout | src/poly_ui/layouts/linear_layout.rs:242-255 | taking out the lowest item, solving the rest and putting its size back gives one size per item |
| LinearLayout.SolveWithoutLowest | src/poly_ui/layouts/linear_layout.rs:242-255 | the recursive branch: grow, remove the lowest item, solve the rest, reinsert its size at its index |
| LinearLayout.SpreadRemainder | src/poly_ui/layouts/linear_layout.rs:258-298 | the spreading branch equals the specification |
| LinearLayout.LiftToMinimum | src/poly_ui/layouts/linear_layout.rs:274-277 | the loop's result is the lifted list |
| LinearLayout.HandOutRoundRobin | src/poly_ui/layouts/linear_layout.rs:279-290 | the loop's sizes are the round-robin hand-out from the first item |
| LinearLayout.CollectSizes | src/poly_ui/layouts/linear_layout.rs:293-297 | the current sizes, in order |
| LinearLayout.Unsized | src/poly_ui/layouts/linear_layout.rs:301-309 | every item paired with size 0 |
| LinearLayout.GetItemsSizes | src/poly_ui/layouts/linear_layout.rs:301-309 | solving the items paired with size 0; one size per item |
| LinearLayout.ItemMaxSize | src/poly_ui/layouts/linear_layout.rs:133-136 | the cap is at most the item's maximum and at most `goal / Σstretch` times its stretch, and equals one of the two |
| LinearLayout.ItemMaxSizeWithinShare | src/poly_ui/layouts/linear_layout.rs:133-136 | the cap never exceeds the item's share: `max * Σstretch <= goal * stretch` |
| LinearLayout.RoundRobinFrom | src/poly_ui/layouts/linear_layout.rs:279-290 | continuing the hand-out from `m` units gives the spread of `m + count` units |
| LinearLayout.RoundRobinSpread | src/poly_ui/layouts/linear_layout.rs:279-290 | from the first item, `count` units give each of `n` items `count / n` more, and the first `count % n` items one more still |
| LinearLayout.RemainderExamples | src/poly_ui/layouts/linear_layout.rs:515-527 | remainder 8 from 50; `None` from 40, from the exact fit 42, and from 0 |
| LinearLayout.ItemMaxSizeExamples | src/poly_ui/layouts/linear_layout.rs:362-406 | the commented test values of the cap and the difference, e.g. 33 for (100, 3) |
| LinearLayout.LowestOfThreeDefaults | src/poly_ui/layouts/linear_layout.rs:411-421 | three default items: difference `goal / 3` at index 0 |
| LinearLayout.ItemsSizesEvenSplit | src/poly_ui/layouts/linear_layout.rs:575-588 | goal 6 over three default items gives [2, 2, 2] |
| LinearLayout.ItemsSizesWeightedSplit | src/poly_ui/layouts/linear_layout.rs:608-620 | goal 8 over stretches 2, 1, 1 gives [4, 2, 2] |
| LinearLayout.ItemsSizesZeroStretches | src/poly_ui/layouts/linear_layout.rs:589-607 | goal 6 over stretches 2, 0, 0 gives [6, 0, 0] |
| LinearLayout.LowestOfZeroStretches | src/poly_ui/layouts/linear_layout.rs:589-607 | on stretches 2, 0, 0 and goal 6 the total stretch is 2, the remainder 6, and the first item without stretch has the lowest difference, 0 |
| LinearLayout.RestOfZeroStretches | src/poly_ui/layouts/linear_layout.rs:589-607 | the recursive step: stretches 2, 0 and goal 6 give [6, 0] |
| LinearLayout.LastOfZeroStretches | src/poly_ui/layouts/linear_layout.rs:589-607 | the last step: one item with stretch 2 and goal 6 gets 6 |
| LinearLayout.ItemsSizesExactShares | src/poly_ui/layouts/linear_layout.rs:621-633 | goal 8 over stretches 2, 5, 1 gives [2, 5, 1] |
| LinearLayout.IncreasedExample | src/poly_ui/layouts/linear_layout.rs:544-557 | stretches 1, 2, 3 grown by 5 from 25, 15, 2 give 30, 25, 17 |
| LinearLayout.ItemsSizesSingleItemPanics | src/poly_ui/layouts/linear_layout.rs:200-299 | a single default item with a positive goal always panics: the recursion reaches the empty list |
| LinearLayoutWidget.MinMaxDiff | src/poly_ui/widgets/linear_layout_widget.rs:39-44 | `None` exactly when there is no maximum; otherwise minimum plus result is the maximum |
| LinearLayoutWidget.GetLowestMinMaxDiffIdx | src/poly_ui/widgets/linear_layout_widget.rs:94-129 | `None` exactly for no items; otherwise an index in range. When that item is unbounded, it is 0 and no item is bounded. Otherwise it has the smallest difference among bounded items and every earlier bounded item is strictly larger, so a bounded item always beats unbounded ones and ties keep the earliest |
| InputStates.InputState.IsKeyPressed | src/poly_ui/events/input_state.rs:28-30 | pressed exactly when the current state is not released |
| InputStates.InputState.IsKeyReleased | src/poly_ui/events/input_state.rs:32-34 | exactly one of pressed and released holds |
| InputStates.InputState.WasKeyJustPressed | src/poly_ui/events/input_state.rs:36-38 | pressed now and the state changed since the previous frame |
| InputStates.InputState.WasKeyJustReleased | src/poly_ui/events/input_state.rs:40-42 | released now and the state changed; never together with just-pressed |
| InputStates.InputState.IsButtonPressed | src/poly_ui/events/input_state.rs:46-48 | pressed exactly when the current state is not released |
| InputStates.InputState.IsButtonReleased | src/poly_ui/events/input_state.rs:50-52 | exactly one of pressed and released holds |
| InputStates.InputState.WasButtonJustPressed | src/poly_ui/events/input_state.rs:54-57 | pressed now and the state changed since the previous frame |
| InputStates.InputState.WasButtonJustReleased | src/poly_ui/events/input_state.rs:59-62 | released now and the state changed; never together with just-pressed |
| InputStates.KeyChangeIsAnEdge | src/poly_ui/events/input_state.rs:36-42 | a key changed state exactly when it was just pressed or just released |
| InputStates.ButtonChangeIsAnEdge | src/poly_ui/events/input_state.rs:54-62 | a button changed state exactly when it was just pressed or just released |
| InputStates.KeyQueriesAreLocal | src/poly_ui/events/input_state.rs:28-42 | the four key queries read only that key's current and previous entries |
| InputStates.ButtonQueriesAreLocal | src/poly_ui/events/input_state.rs:46-62 | the four button queries read only that button's entries |
| InputStates.HeldKeyIsNoEdge | src/poly_ui/events/input_state.rs:36-42 | a key held over both frames is pressed but neither just pressed nor just released |

## Left out

- Machine-width overflow, except at `validate`'s branch test. `lowest_max_minus_current * items_stretch` is modelled as a failure when it exceeds `u32::MAX` (`ProductOverflows`, `TwoDefaultItemsOverflow`), as a debug build panics there. A release build wraps instead and may then take the wrong branch; that is not modelled. The other `u32` arithmetic is unbounded here, and its overflow is not modelled:
  - the sums in `gather_items_stretch` and `ensure_layout_has_at_least_minimal_width`;
  - the products `stretch * total_size` and `current_size * total_stretch` of the deficit score;
  - `size += item.current_size` after the recursive call;
  - the linear solver's arithmetic.

  The reason: these need inputs near `u32::MAX` (sums past it, or a size times a stretch past it), while the branch-test overflow happens with ordinary inputs, whenever an item keeps the default maximum and the stretches add up to 2 or more. Underflows and divisions by zero are modelled as failure outcomes, except in LinearLayoutWidget.MinMaxDiff, which is covered below.
- The `as i32` casts of the grid offsets. Offsets are unbounded integers.
- The per-axis `Layout::refresh` that the grid calls is not part of this model. The grid takes the re-solve as a parameter, and the grid's min-size tests depend on that solver.
- `GridLayout::update` and the child painting in `paint`. These only delegate to the children.
- GridLayouts.GridLayout.RemoveChild: `remove_child` leaves the removed child's id in the table, so the grid invariant `Valid` no longer holds afterwards and the next refresh panics (`RefreshFailsOnAbsentChild`, `RemoveAfterInsert`). The refresh methods require `Valid`, so the model states that failure through `Apply` rather than through a failing run of `RefreshChildrenTransforms`. `Hierarchy::update_children`/`paint_children`, widget ownership wrappers, SDL painting and the event pump are also left out.
- The widget handle carried by linear-layout items, and the `println!` tracing of `get_items_sizes_impl`.
- The pointer position and motion of `InputState`. They are carried as data but no query reads them. A keyboard key is its index in the key enumeration.
- LinearLayoutWidget.MinMaxDiff: requires the maximum, when present, to be at least the minimum. The source's unsigned subtraction panics otherwise. The same requirement carries over to LinearLayoutWidget.GetLowestMinMaxDiffIdx.
- LayoutItemsSizeGen.Layout.Validate: its outcome for the recursive branch names only the item taken out. The rest of the list is solved by the recursive call under the same contract, but the outcome does not restate that.
- LayoutItemsSizeGen.Layout.Validate: the distributing branch's outcome holds only when no score underflows. When it fails, the contract gives the exact condition (`Solvable` is false) but says nothing about the items the failed run leaves.
- LayoutItemsSizeGen.Layout.DistributeRemainder: growth of every item and the added total are stated only on success. A failure is a panic in the source, after which the state is not used.
- LinearLayout.ItemsSizes: its contract states only the length. The branch results are tied to `Increased`, `Lifted` and `RoundRobin`, whose own properties are proved. The test with minimum 30 and goal 90 relies on `u32` wrap-around in the source, and here gives `None`.
