/** A grid of cells: one axis `Layout` for the columns and one for the rows, a column-major
    table of optional child identifiers, a dirty flag per axis and the hierarchy holding the
    children with their transforms. */
module GridLayouts {
  import opened Common
  import opened Components
  import opened LayoutItemsSizeGen

  /** `children_columns_rows`: `table[c][r]` is the child placed in column `c`, row `r`. */
  type Table = seq<seq<Option<WidgetId>>>

  /** The per-axis re-solve `Layout::refresh` performs: the resolved size of each item for a
      given span. `Layout::refresh` is not part of this model, so the grid is stated for every
      such function. */
  type Solve = (nat, seq<Item>) -> seq<nat>

  /** One transform write of a refresh: the child and the transform it receives. */
  type Write = (WidgetId, Transform)

  /** The table has one column per column item and one entry per row item in every column. */
  ghost predicate Shaped(table: Table, columns: nat, rows: nat) {
    |table| == columns && forall c :: 0 <= c < |table| ==> |table[c]| == rows
  }

  /** `after` grew from `before`, a table with `rows` rows: every cell of `before` keeps its
      content and every other cell of `after` is empty. */
  ghost predicate Extends(before: Table, rows: nat, after: Table) {
    && Shaped(before, |before|, rows)
    && forall c, r :: 0 <= c < |after| && 0 <= r < |after[c]| ==>
      after[c][r] == if c < |before| && r < rows then before[c][r] else None
  }

  /** Every child named in the table is a child of the hierarchy. */
  ghost predicate Placed(table: Table, children: seq<Child>) {
    forall c, r :: 0 <= c < |table| && 0 <= r < |table[c]| && table[c][r].Some? ==>
      Position(children, table[c][r].value).Some?
  }

  /** Putting a child in a cell and appending it to the hierarchy keeps every named child in
      the hierarchy. */
  lemma PlaceKeepsPlaced(table: Table, children: seq<Child>, c: nat, r: nat, id: WidgetId, t: Transform)
    requires Placed(table, children) && c < |table| && r < |table[c]|
    ensures Placed(table[c := table[c][r := Some(id)]], children + [Child(id, t)])
  {
    var after: Table := table[c := table[c][r := Some(id)]];
    forall c': nat, r': nat | c' < |after| && r' < |after[c']| && after[c'][r'].Some?
      ensures Position(children + [Child(id, t)], after[c'][r'].value).Some?
    {
      PositionAfterAppend(children, Child(id, t), after[c'][r'].value);
    }
  }

  /** A child put in cell `(c, r)` of a grown table: that cell holds it, and every other cell
      holds what the table it grew from held there, or nothing. */
  lemma PlaceInExtended(t0: Table, rows0: nat, t: Table, c: nat, r: nat, id: WidgetId)
    requires Extends(t0, rows0, t) && c < |t| && r < |t[c]|
    ensures var after := t[c := t[c][r := Some(id)]];
            && after[c][r] == Some(id)
            && (forall c', r' :: 0 <= c' < |after| && 0 <= r' < |after[c']| && (c', r') != (c, r) ==>
                  after[c'][r'] == if c' < |t0| && r' < rows0 then t0[c'][r'] else None)
  {
  }

  /** Growing a table twice is one growth from the first table. */
  lemma ExtendsTransitive(t0: Table, rows0: nat, t1: Table, rows1: nat, t2: Table)
    requires |t0| <= |t1| && rows0 <= rows1 && Shaped(t1, |t1|, rows1)
    requires Extends(t0, rows0, t1) && Extends(t1, rows1, t2)
    ensures Extends(t0, rows0, t2)
  {
  }

  /** `Vec::resize(n, fill)`: truncate to `n`, or pad with `fill` up to `n`. */
  function Resized<T>(s: seq<T>, n: nat, fill: T): (r: seq<T>)
    ensures |r| == n
    ensures forall i :: 0 <= i < n && i < |s| ==> r[i] == s[i]
    ensures forall i :: |s| <= i < n ==> r[i] == fill
  {
    if n <= |s| then s[..n] else s + seq(n - |s|, _ => fill)
  }

  /** An axis after its re-solve: item `i` takes the `i`-th resolved size, constraints stay. */
  function WithSizes(items: seq<Item>, sizes: seq<nat>): (r: seq<Item>)
    ensures SameConstraints(items, r)
    ensures forall i :: 0 <= i < |r| ==>
              r[i].currentSize == if i < |sizes| then sizes[i] else items[i].currentSize
  {
    seq(|items|, i requires 0 <= i < |items| =>
      if i < |sizes| then items[i].(currentSize := sizes[i]) else items[i])
  }

  /** The transform refresh gives the cell in column `c`, row `r`: the sums of the earlier
      columns' and rows' sizes as position, the column's and the row's size as size. */
  function CellTransform(colSizes: seq<nat>, rowSizes: seq<nat>, c: nat, r: nat): Transform
    requires c < |colSizes| && r < |rowSizes|
  {
    Transform(Sum(colSizes[..c]), Sum(rowSizes[..r]), colSizes[c], rowSizes[r])
  }

  /** The writes of the inner loop over the first `n` rows of one column at offset `x`. */
  function ColumnWrites(column: seq<Option<WidgetId>>, x: int, width: nat, rowSizes: seq<nat>, n: nat): seq<Write>
    requires n <= |column| && n <= |rowSizes|
  {
    if n == 0 then []
    else
      ColumnWrites(column, x, width, rowSizes, n - 1)
        + match column[n - 1]
          case Some(id) => [(id, Transform(x, Sum(rowSizes[..n - 1]), width, rowSizes[n - 1]))]
          case None => []
  }

  /** The writes of the outer loop over the first `n` columns, in the order refresh issues
      them. */
  function TableWrites(table: Table, colSizes: seq<nat>, rowSizes: seq<nat>, n: nat): seq<Write>
    requires Shaped(table, |colSizes|, |rowSizes|) && n <= |table|
  {
    if n == 0 then []
    else
      TableWrites(table, colSizes, rowSizes, n - 1)
        + ColumnWrites(table[n - 1], Sum(colSizes[..n - 1]), colSizes[n - 1], rowSizes, |rowSizes|)
  }

  /** The children after the writes are applied in order through `set_transform`; `None` when
      a write names a child the hierarchy does not hold (a panic in the source). */
  function Apply(children: seq<Child>, writes: seq<Write>): Option<seq<Child>>
  {
    if writes == [] then Some(children)
    else match Apply(children, writes[..|writes| - 1])
      case None => None
      case Some(current) =>
        var w := writes[|writes| - 1];
        if Position(current, w.0).None? then None else Some(WithTransform(current, w.0, w.1))
  }

  /** The transform of the last write that names `id`. */
  function LastWrite(writes: seq<Write>, id: WidgetId): (t: Option<Transform>)
    ensures t.None? <==> forall k :: 0 <= k < |writes| ==> writes[k].0 != id
    ensures t.Some? ==> (id, t.value) in writes
  {
    if writes == [] then None
    else if writes[|writes| - 1].0 == id then Some(writes[|writes| - 1].1)
    else LastWrite(writes[..|writes| - 1], id)
  }

  class GridLayout {
    const hierarchy: Hierarchy
    const columnLayout: Layout
    var isColumnLayoutDirty: bool
    const rowLayout: Layout
    var isRowLayoutDirty: bool
    var table: Table

    /** The table matches both axes, every child named in a cell is in the hierarchy, and the
        two axis layouts are different objects. */
    ghost predicate Valid()
      reads this, hierarchy, columnLayout, rowLayout
    {
      && columnLayout != rowLayout
      && Shaped(table, |columnLayout.items|, |rowLayout.items|)
      && Placed(table, hierarchy.children)
    }

    /** `GridLayout::new_raw`: no children, no columns, no rows, both axes dirty. */
    constructor ()
      ensures Valid()
      ensures fresh(hierarchy) && fresh(columnLayout) && fresh(rowLayout)
      ensures hierarchy.children == [] && table == []
      ensures columnLayout.size == 0 && columnLayout.items == []
      ensures rowLayout.size == 0 && rowLayout.items == []
      ensures isColumnLayoutDirty && isRowLayoutDirty
    {
      hierarchy := new Hierarchy();
      var columns, _ := Layout.New(0, []);
      var rows, _ := Layout.New(0, []);
      columnLayout := columns;
      rowLayout := rows;
      isColumnLayoutDirty := true;
      isRowLayoutDirty := true;
      table := [];
    }

    /** `insert_child_at`: an absent column or row means "the one after the last"; the cell is
        created if needed, takes the child, and the child is appended to the hierarchy with the
        default transform. */
    method InsertChildAt(id: WidgetId, col: Option<nat>, row: Option<nat>)
      requires Valid()
      modifies this, hierarchy, columnLayout, rowLayout
      ensures Valid()
      ensures var c := if col.Some? then col.value else old(|columnLayout.items|);
              var r := if row.Some? then row.value else old(|rowLayout.items|);
              && columnLayout.items
                 == Resized(old(columnLayout.items), Max(old(|columnLayout.items|), c + 1), NewItem(1, None, None))
              && rowLayout.items == Resized(old(rowLayout.items), Max(old(|rowLayout.items|), r + 1), NewItem(1, None, None))
              && isColumnLayoutDirty == (old(isColumnLayoutDirty) || old(|columnLayout.items|) <= c + 1)
              && isRowLayoutDirty == (old(isRowLayoutDirty) || old(|rowLayout.items|) <= r + 1)
              && table[c][r] == Some(id)
              && (forall c', r' :: 0 <= c' < |table| && 0 <= r' < |table[c']| && (c', r') != (c, r) ==>
                    table[c'][r'] == if c' < old(|table|) && r' < old(|rowLayout.items|) then old(table)[c'][r'] else None)
      ensures columnLayout.size == old(columnLayout.size) && rowLayout.size == old(rowLayout.size)
      ensures hierarchy.children == old(hierarchy.children) + [Child(id, DefaultTransform())]
    {
      var fixedCol := if col.Some? then col.value else |columnLayout.items|;
      var fixedRow := if row.Some? then row.value else |rowLayout.items|;
      ghost var t0, rows0 := table, |rowLayout.items|;
      EnsureColumnExists(fixedCol);
      ghost var t1 := table;
      EnsureRowExists(fixedRow);
      ExtendsTransitive(t0, rows0, t1, rows0, table);
      PlaceKeepsPlaced(table, hierarchy.children, fixedCol, fixedRow, id, DefaultTransform());
      PlaceInExtended(t0, rows0, table, fixedCol, fixedRow, id);
      table := table[fixedCol := table[fixedCol][fixedRow := Some(id)]];
      hierarchy.AddWithTransform(id, DefaultTransform());
    }

    /** `remove_child`: the hierarchy drops the first child carrying `id` (`None`, a panic in
        the source, when there is none). The table is left as it is, so a cell can go on
        naming a child the hierarchy no longer holds; the next refresh then fails
        (`RemovalStrandsCell`, `RefreshFailsOnAbsentChild`). */
    method RemoveChild(id: WidgetId) returns (removed: Option<WidgetId>)
      modifies hierarchy
      ensures table == old(table)
      ensures Position(old(hierarchy.children), id).None? ==>
                removed.None? && hierarchy.children == old(hierarchy.children)
      ensures Position(old(hierarchy.children), id).Some? ==>
                var p := Position(old(hierarchy.children), id).value;
                removed == Some(id) && hierarchy.children == old(hierarchy.children[..p] + hierarchy.children[p + 1..])
    {
      removed := hierarchy.Remove(id);
    }

    /** `set_column_count`: the column axis gets exactly `size` items, new ones with stretch 1
        and no bounds; columns from `size` on are dropped from the table and new columns are
        empty. */
    method SetColumnCount(size: nat)
      requires Valid()
      modifies this, columnLayout
      ensures Valid()
      ensures columnLayout.items == Resized(old(columnLayout.items), size, NewItem(1, None, None))
      ensures columnLayout.size == old(columnLayout.size)
      ensures table == Resized(old(table), size, seq(|rowLayout.items|, _ => None))
      ensures isColumnLayoutDirty && isRowLayoutDirty == old(isRowLayoutDirty)
      ensures hierarchy.children == old(hierarchy.children)
    {
      columnLayout.items := Resized(columnLayout.items, size, NewItem(1, None, None));
      table := Resized(table, size, seq(|rowLayout.items|, _ => None));
      isColumnLayoutDirty := true;
    }

    /** `set_row_count`: the row axis gets exactly `size` items, new ones with stretch 1 and no
        bounds; every column is truncated or padded with empty cells to `size`. */
    method SetRowCount(size: nat)
      requires Valid()
      modifies this, rowLayout
      ensures Valid()
      ensures rowLayout.items == Resized(old(rowLayout.items), size, NewItem(1, None, None))
      ensures rowLayout.size == old(rowLayout.size)
      ensures |table| == old(|table|)
      ensures forall c :: 0 <= c < |table| ==> table[c] == Resized(old(table)[c], size, None)
      ensures isRowLayoutDirty && isColumnLayoutDirty == old(isColumnLayoutDirty)
      ensures hierarchy.children == old(hierarchy.children)
    {
      rowLayout.items := Resized(rowLayout.items, size, NewItem(1, None, None));
      var c := 0;
      while c < |table|
        invariant 0 <= c <= |table| == old(|table|)
        invariant rowLayout.items == Resized(old(rowLayout.items), size, NewItem(1, None, None))
        invariant columnLayout.items == old(columnLayout.items) && hierarchy.children == old(hierarchy.children)
        invariant isColumnLayoutDirty == old(isColumnLayoutDirty) && isRowLayoutDirty == old(isRowLayoutDirty)
        invariant rowLayout.size == old(rowLayout.size)
        invariant forall k :: 0 <= k < c ==> table[k] == Resized(old(table)[k], size, None)
        invariant forall k :: c <= k < |table| ==> table[k] == old(table)[k]
      {
        table := table[c := Resized(table[c], size, None)];
        c := c + 1;
      }
      isRowLayoutDirty := true;
    }

    /** `ensure_column_exists`: when there are at most `col + 1` columns, the count becomes
        `col + 1` (and the axis is marked dirty); otherwise nothing changes. */
    method EnsureColumnExists(col: nat)
      requires Valid()
      modifies this, columnLayout
      ensures Valid()
      ensures col < |columnLayout.items|
      ensures columnLayout.items
              == Resized(old(columnLayout.items), Max(old(|columnLayout.items|), col + 1), NewItem(1, None, None))
      ensures table == Resized(old(table), Max(old(|table|), col + 1), seq(|rowLayout.items|, _ => None))
      ensures Extends(old(table), old(|rowLayout.items|), table)
      ensures isColumnLayoutDirty == (old(isColumnLayoutDirty) || old(|columnLayout.items|) <= col + 1)
      ensures columnLayout.size == old(columnLayout.size) && isRowLayoutDirty == old(isRowLayoutDirty)
    {
      if |columnLayout.items| <= col + 1 {
        SetColumnCount(col + 1);
      } else {
        assert columnLayout.items[..|columnLayout.items|] == columnLayout.items;
        assert table[..|table|] == table;
      }
    }

    /** `ensure_row_exists`: when there are at most `row + 1` rows, the count becomes
        `row + 1` (and the axis is marked dirty); otherwise nothing changes. */
    method EnsureRowExists(row: nat)
      requires Valid()
      modifies this, rowLayout
      ensures Valid()
      ensures row < |rowLayout.items|
      ensures rowLayout.items == Resized(old(rowLayout.items), Max(old(|rowLayout.items|), row + 1), NewItem(1, None, None))
      ensures |table| == old(|table|)
      ensures forall c :: 0 <= c < |table| ==> table[c] == Resized(old(table)[c], Max(old(|rowLayout.items|), row + 1), None)
      ensures Extends(old(table), old(|rowLayout.items|), table)
      ensures isRowLayoutDirty == (old(isRowLayoutDirty) || old(|rowLayout.items|) <= row + 1)
      ensures rowLayout.size == old(rowLayout.size) && isColumnLayoutDirty == old(isColumnLayoutDirty)
    {
      if |rowLayout.items| <= row + 1 {
        SetRowCount(row + 1);
      } else {
        assert rowLayout.items[..|rowLayout.items|] == rowLayout.items;
        forall c | 0 <= c < |table| ensures table[c][..|table[c]|] == table[c] { }
      }
    }

    /** `set_column_stretch`. */
    method SetColumnStretch(col: nat, stretch: nat)
      requires Valid()
      modifies this, columnLayout
      ensures Valid() && isColumnLayoutDirty
      ensures table == Resized(old(table), Max(old(|table|), col + 1), seq(|rowLayout.items|, _ => None))
      ensures columnLayout.size == old(columnLayout.size) && isRowLayoutDirty == old(isRowLayoutDirty)
      ensures var grown := Resized(old(columnLayout.items), Max(old(|columnLayout.items|), col + 1), NewItem(1, None, None));
              columnLayout.items == grown[col := grown[col].(stretch := stretch)]
    {
      EnsureColumnExists(col);
      columnLayout.items := columnLayout.items[col := columnLayout.items[col].(stretch := stretch)];
      isColumnLayoutDirty := true;
    }

    /** `set_column_max_size`. */
    method SetColumnMaxSize(col: nat, size: nat)
      requires Valid()
      modifies this, columnLayout
      ensures Valid() && isColumnLayoutDirty
      ensures table == Resized(old(table), Max(old(|table|), col + 1), seq(|rowLayout.items|, _ => None))
      ensures columnLayout.size == old(columnLayout.size) && isRowLayoutDirty == old(isRowLayoutDirty)
      ensures var grown := Resized(old(columnLayout.items), Max(old(|columnLayout.items|), col + 1), NewItem(1, None, None));
              columnLayout.items == grown[col := grown[col].(maxSize := size)]
    {
      EnsureColumnExists(col);
      columnLayout.items := columnLayout.items[col := columnLayout.items[col].(maxSize := size)];
      isColumnLayoutDirty := true;
    }

    /** `set_column_min_size`. */
    method SetColumnMinSize(col: nat, size: nat)
      requires Valid()
      modifies this, columnLayout
      ensures Valid() && isColumnLayoutDirty
      ensures table == Resized(old(table), Max(old(|table|), col + 1), seq(|rowLayout.items|, _ => None))
      ensures columnLayout.size == old(columnLayout.size) && isRowLayoutDirty == old(isRowLayoutDirty)
      ensures var grown := Resized(old(columnLayout.items), Max(old(|columnLayout.items|), col + 1), NewItem(1, None, None));
              columnLayout.items == grown[col := grown[col].(minSize := size)]
    {
      EnsureColumnExists(col);
      columnLayout.items := columnLayout.items[col := columnLayout.items[col].(minSize := size)];
      isColumnLayoutDirty := true;
    }

    /** `set_row_stretch`. */
    method SetRowStretch(row: nat, stretch: nat)
      requires Valid()
      modifies this, rowLayout
      ensures Valid() && isRowLayoutDirty
      ensures |table| == old(|table|)
      ensures forall c :: 0 <= c < |table| ==> table[c] == Resized(old(table)[c], Max(old(|rowLayout.items|), row + 1), None)
      ensures rowLayout.size == old(rowLayout.size) && isColumnLayoutDirty == old(isColumnLayoutDirty)
      ensures var grown := Resized(old(rowLayout.items), Max(old(|rowLayout.items|), row + 1), NewItem(1, None, None));
              rowLayout.items == grown[row := grown[row].(stretch := stretch)]
    {
      EnsureRowExists(row);
      rowLayout.items := rowLayout.items[row := rowLayout.items[row].(stretch := stretch)];
      isRowLayoutDirty := true;
    }

    /** `set_row_max_size`. */
    method SetRowMaxSize(row: nat, size: nat)
      requires Valid()
      modifies this, rowLayout
      ensures Valid() && isRowLayoutDirty
      ensures |table| == old(|table|)
      ensures forall c :: 0 <= c < |table| ==> table[c] == Resized(old(table)[c], Max(old(|rowLayout.items|), row + 1), None)
      ensures rowLayout.size == old(rowLayout.size) && isColumnLayoutDirty == old(isColumnLayoutDirty)
      ensures var grown := Resized(old(rowLayout.items), Max(old(|rowLayout.items|), row + 1), NewItem(1, None, None));
              rowLayout.items == grown[row := grown[row].(maxSize := size)]
    {
      EnsureRowExists(row);
      rowLayout.items := rowLayout.items[row := rowLayout.items[row].(maxSize := size)];
      isRowLayoutDirty := true;
    }

    /** `set_row_min_size`. */
    method SetRowMinSize(row: nat, size: nat)
      requires Valid()
      modifies this, rowLayout
      ensures Valid() && isRowLayoutDirty
      ensures |table| == old(|table|)
      ensures forall c :: 0 <= c < |table| ==> table[c] == Resized(old(table)[c], Max(old(|rowLayout.items|), row + 1), None)
      ensures rowLayout.size == old(rowLayout.size) && isColumnLayoutDirty == old(isColumnLayoutDirty)
      ensures var grown := Resized(old(rowLayout.items), Max(old(|rowLayout.items|), row + 1), NewItem(1, None, None));
              rowLayout.items == grown[row := grown[row].(minSize := size)]
    {
      EnsureRowExists(row);
      rowLayout.items := rowLayout.items[row := rowLayout.items[row].(minSize := size)];
      isRowLayoutDirty := true;
    }

    /** `refresh_children_transforms`: re-solve each axis whose span differs from the painted
        one or that is dirty (after setting its span), then write to every occupied cell's
        child its cell transform, column by column and row by row. `ok` is false when a cell
        names a child the hierarchy does not hold (a panic in the source); on a valid grid that
        never happens. */
    method RefreshChildrenTransforms(width: nat, height: nat, solve: Solve) returns (ok: bool)
      requires Valid()
      modifies hierarchy, columnLayout, rowLayout
      ensures Valid()
      ensures table == old(table)
      ensures old(columnLayout.size != width || isColumnLayoutDirty) ==>
                columnLayout.size == width
                && columnLayout.items == WithSizes(old(columnLayout.items), solve(width, old(columnLayout.items)))
      ensures !old(columnLayout.size != width || isColumnLayoutDirty) ==>
                columnLayout.size == old(columnLayout.size) && columnLayout.items == old(columnLayout.items)
      ensures old(rowLayout.size != height || isRowLayoutDirty) ==>
                rowLayout.size == height
                && rowLayout.items == WithSizes(old(rowLayout.items), solve(height, old(rowLayout.items)))
      ensures !old(rowLayout.size != height || isRowLayoutDirty) ==>
                rowLayout.size == old(rowLayout.size) && rowLayout.items == old(rowLayout.items)
      ensures var writes := TableWrites(table, Currents(columnLayout.items), Currents(rowLayout.items), |table|);
              && ok
              && Apply(old(hierarchy.children), writes).Some?
              && hierarchy.children == Apply(old(hierarchy.children), writes).value
    {
      if columnLayout.size != width || isColumnLayoutDirty {
        columnLayout.size := width;
        columnLayout.items := WithSizes(columnLayout.items, solve(width, columnLayout.items));
      }
      if rowLayout.size != height || isRowLayoutDirty {
        rowLayout.size := height;
        rowLayout.items := WithSizes(rowLayout.items, solve(height, rowLayout.items));
      }
      PlaceChildren();
      ok := true;
    }

    /** The two nested loops of `refresh_children_transforms`, with the running column
        offset. */
    method PlaceChildren()
      requires Valid()
      modifies hierarchy
      ensures Valid()
      ensures var writes := TableWrites(table, Currents(columnLayout.items), Currents(rowLayout.items), |table|);
              Apply(old(hierarchy.children), writes) == Some(hierarchy.children)
    {
      ghost var colSizes := Currents(columnLayout.items);
      ghost var rowSizes := Currents(rowLayout.items);
      var colOffset: int := 0;
      var col := 0;
      while col < |columnLayout.items|
        invariant 0 <= col <= |columnLayout.items|
        invariant Valid()
        invariant colOffset == Sum(colSizes[..col])
        invariant Apply(old(hierarchy.children), TableWrites(table, colSizes, rowSizes, col)) == Some(hierarchy.children)
      {
        var colSize := columnLayout.items[col].currentSize;
        ghost var mid := hierarchy.children;
        PlaceColumn(col, colOffset, colSize);
        ApplyConcat(old(hierarchy.children), TableWrites(table, colSizes, rowSizes, col),
                    ColumnWrites(table[col], colOffset, colSize, rowSizes, |rowSizes|));
        SumPrefixStep(colSizes, col);
        colOffset := colOffset + colSize;
        col := col + 1;
      }
    }

    /** The inner loop of `refresh_children_transforms` over the rows of column `col`, with
        the running row offset. */
    method PlaceColumn(col: nat, colOffset: int, colSize: nat)
      requires Valid() && col < |table|
      modifies hierarchy
      ensures Valid()
      ensures Apply(old(hierarchy.children),
                    ColumnWrites(table[col], colOffset, colSize, Currents(rowLayout.items), |rowLayout.items|))
              == Some(hierarchy.children)
    {
      ghost var rowSizes := Currents(rowLayout.items);
      var rowOffset: int := 0;
      var row := 0;
      while row < |rowLayout.items|
        invariant 0 <= row <= |rowLayout.items|
        invariant Valid()
        invariant rowOffset == Sum(rowSizes[..row])
        invariant Apply(old(hierarchy.children), ColumnWrites(table[col], colOffset, colSize, rowSizes, row))
                  == Some(hierarchy.children)
      {
        var rowSize := rowLayout.items[row].currentSize;
        ghost var before := hierarchy.children;
        var cell := Transform(colOffset, rowOffset, colSize, rowSize);
        match table[col][row] {
          case Some(id) =>
            var _ := hierarchy.SetTransform(id, cell);
            SetTransformKeepsCells(this, before, id, cell);
          case None =>
        }
        ColumnWritesStep(old(hierarchy.children), table[col], colOffset, colSize, rowSizes, row,
                         before, hierarchy.children);
        SumPrefixStep(rowSizes, row);
        rowOffset := rowOffset + rowSize;
        row := row + 1;
      }
    }

    /** `paint`, without the painting of the children: refresh when an axis is dirty or the
        painted size differs from the stored spans; otherwise nothing changes. */
    method Paint(width: nat, height: nat, solve: Solve)
      requires Valid()
      modifies hierarchy, columnLayout, rowLayout
      ensures Valid()
      ensures old(columnLayout.size != width || isColumnLayoutDirty) ==>
                columnLayout.size == width
                && columnLayout.items == WithSizes(old(columnLayout.items), solve(width, old(columnLayout.items)))
      ensures !old(columnLayout.size != width || isColumnLayoutDirty) ==>
                columnLayout.size == old(columnLayout.size) && columnLayout.items == old(columnLayout.items)
      ensures old(rowLayout.size != height || isRowLayoutDirty) ==>
                rowLayout.size == height
                && rowLayout.items == WithSizes(old(rowLayout.items), solve(height, old(rowLayout.items)))
      ensures !old(rowLayout.size != height || isRowLayoutDirty) ==>
                rowLayout.size == old(rowLayout.size) && rowLayout.items == old(rowLayout.items)
      ensures !old(isRowLayoutDirty || isColumnLayoutDirty || rowLayout.size != height || columnLayout.size != width) ==>
                hierarchy.children == old(hierarchy.children)
      ensures old(isRowLayoutDirty || isColumnLayoutDirty || rowLayout.size != height || columnLayout.size != width) ==>
                && Apply(old(hierarchy.children),
                         TableWrites(table, Currents(columnLayout.items), Currents(rowLayout.items), |table|)).Some?
                && hierarchy.children
                   == Apply(old(hierarchy.children),
                            TableWrites(table, Currents(columnLayout.items), Currents(rowLayout.items), |table|)).value
    {
      if isRowLayoutDirty || isColumnLayoutDirty || rowLayout.size != height || columnLayout.size != width {
        var _ := RefreshChildrenTransforms(width, height, solve);
      }
    }
  }

  // ---------------------------------------------------------------------------------------
  // Lemmas

  /** Applying two runs of writes one after the other is applying their concatenation. */
  lemma {:induction false} ApplyConcat(children: seq<Child>, first: seq<Write>, second: seq<Write>)
    ensures Apply(children, first + second)
            == match Apply(children, first)
               case None => None
               case Some(middle) => Apply(middle, second)
    decreases |second|
  {
    if second == [] {
      assert first + second == first;
    } else {
      var n := |second| - 1;
      assert (first + second)[..|first + second| - 1] == first + second[..n];
      ApplyConcat(children, first, second[..n]);
      if Apply(children, first).Some? {
        assert (first + second)[|first + second| - 1] == second[n];
      }
    }
  }

  /** One step of the inner refresh loop: the cell in row `n` adds its write, if any, to the
      writes already applied. */
  lemma ColumnWritesStep(origin: seq<Child>, column: seq<Option<WidgetId>>, x: int, width: nat,
                         rowSizes: seq<nat>, n: nat, before: seq<Child>, after: seq<Child>)
    requires n < |column| && n < |rowSizes|
    requires Apply(origin, ColumnWrites(column, x, width, rowSizes, n)) == Some(before)
    requires column[n].Some? ==>
               && Position(before, column[n].value).Some?
               && after == WithTransform(before, column[n].value, Transform(x, Sum(rowSizes[..n]), width, rowSizes[n]))
    requires column[n].None? ==> after == before
    ensures Apply(origin, ColumnWrites(column, x, width, rowSizes, n + 1)) == Some(after)
  {
    var done := ColumnWrites(column, x, width, rowSizes, n);
    match column[n]
    case Some(id) =>
      var w := (id, Transform(x, Sum(rowSizes[..n]), width, rowSizes[n]));
      assert ColumnWrites(column, x, width, rowSizes, n + 1) == done + [w];
      assert (done + [w])[..|done|] == done;
    case None =>
      assert ColumnWrites(column, x, width, rowSizes, n + 1) == done + [];
      assert done + [] == done;
  }

  /** A `set_transform` that found its child keeps every cell's child in the hierarchy, and the
      children after it are the next step of `Apply`. */
  lemma SetTransformKeepsCells(grid: GridLayout, before: seq<Child>, id: WidgetId, t: Transform)
    requires grid.hierarchy.children == WithTransform(before, id, t)
    requires forall c, r :: 0 <= c < |grid.table| && 0 <= r < |grid.table[c]| && grid.table[c][r].Some? ==>
               Position(before, grid.table[c][r].value).Some?
    ensures forall c, r :: 0 <= c < |grid.table| && 0 <= r < |grid.table[c]| && grid.table[c][r].Some? ==>
              Position(grid.hierarchy.children, grid.table[c][r].value).Some?
  {
    forall other: WidgetId ensures Position(WithTransform(before, id, t), other) == Position(before, other) {
      PositionAfterSetTransform(before, id, t, other);
    }
  }

  /** The writes of one column are exactly its occupied rows, each with the row's offset and
      size. */
  lemma {:induction false} ColumnWritesMember(column: seq<Option<WidgetId>>, x: int, width: nat, rowSizes: seq<nat>,
                                              n: nat, w: Write)
    requires n <= |column| && n <= |rowSizes|
    ensures w in ColumnWrites(column, x, width, rowSizes, n)
            <==> exists r :: 0 <= r < n && column[r] == Some(w.0)
                             && w.1 == Transform(x, Sum(rowSizes[..r]), width, rowSizes[r])
  {
    if n > 0 {
      ColumnWritesMember(column, x, width, rowSizes, n - 1, w);
    }
  }

  /** The writes of a refresh are exactly the occupied cells, each with its cell transform. */
  lemma {:induction false} TableWritesMember(table: Table, colSizes: seq<nat>, rowSizes: seq<nat>, n: nat, w: Write)
    requires Shaped(table, |colSizes|, |rowSizes|) && n <= |table|
    ensures w in TableWrites(table, colSizes, rowSizes, n)
            <==> exists c, r :: 0 <= c < n && 0 <= r < |rowSizes| && table[c][r] == Some(w.0)
                                && w.1 == CellTransform(colSizes, rowSizes, c, r)
  {
    if n > 0 {
      var x := Sum(colSizes[..n - 1]);
      var column := ColumnWrites(table[n - 1], x, colSizes[n - 1], rowSizes, |rowSizes|);
      assert TableWrites(table, colSizes, rowSizes, n) == TableWrites(table, colSizes, rowSizes, n - 1) + column;
      TableWritesMember(table, colSizes, rowSizes, n - 1, w);
      ColumnWritesMember(table[n - 1], x, colSizes[n - 1], rowSizes, |rowSizes|, w);
      if w in column {
        var r :| 0 <= r < |rowSizes| && table[n - 1][r] == Some(w.0)
                 && w.1 == Transform(x, Sum(rowSizes[..r]), colSizes[n - 1], rowSizes[r]);
        assert w.1 == CellTransform(colSizes, rowSizes, n - 1, r);
      } else {
        var last := n - 1;
        forall r | 0 <= r < |rowSizes| && table[last][r] == Some(w.0)
          ensures w.1 != CellTransform(colSizes, rowSizes, last, r)
        {
          assert CellTransform(colSizes, rowSizes, last, r)
                 == Transform(x, Sum(rowSizes[..r]), colSizes[last], rowSizes[r]);
        }
      }
    }
  }

  /** Writes never change where a child is found. */
  lemma {:induction false} ApplyKeepsPositions(children: seq<Child>, writes: seq<Write>, id: WidgetId)
    requires Apply(children, writes).Some?
    ensures Position(Apply(children, writes).value, id) == Position(children, id)
  {
    if writes != [] {
      var n := |writes| - 1;
      ApplyKeepsPositions(children, writes[..n], id);
      var current := Apply(children, writes[..n]).value;
      PositionAfterSetTransform(current, writes[n].0, writes[n].1, id);
    }
  }

  /** One write naming a child the hierarchy does not hold makes the whole run fail. */
  lemma {:induction false} ApplyFailsOnAbsent(children: seq<Child>, writes: seq<Write>, k: nat)
    requires k < |writes| && Position(children, writes[k].0).None?
    ensures Apply(children, writes).None?
  {
    var n := |writes| - 1;
    var prefix := writes[..n];
    if k < n {
      assert prefix[k] == writes[k];
      ApplyFailsOnAbsent(children, prefix, k);
      ApplyPrefixFails(children, writes);
    } else if Apply(children, prefix).Some? {
      assert k == n;
      var id := writes[k].0;
      ApplyKeepsPositions(children, prefix, id);
      assert Position(Apply(children, prefix).value, id).None?;
      ApplyLastFails(children, writes);
    } else {
      ApplyPrefixFails(children, writes);
    }
  }

  /** A run fails when its writes before the last fail. */
  lemma ApplyPrefixFails(children: seq<Child>, writes: seq<Write>)
    requires writes != [] && Apply(children, writes[..|writes| - 1]).None?
    ensures Apply(children, writes).None?
  {
  }

  /** A run fails when its last write names a child the hierarchy then does not hold. */
  lemma ApplyLastFails(children: seq<Child>, writes: seq<Write>)
    requires writes != []
    requires var before := Apply(children, writes[..|writes| - 1]);
             before.Some? && Position(before.value, writes[|writes| - 1].0).None?
    ensures Apply(children, writes).None?
  {
  }

  /** Writes that all name children of the hierarchy all succeed. */
  lemma {:induction false} ApplySucceeds(children: seq<Child>, writes: seq<Write>)
    requires forall k :: 0 <= k < |writes| ==> Position(children, writes[k].0).Some?
    ensures Apply(children, writes).Some?
  {
    if writes != [] {
      var n := |writes| - 1;
      ApplySucceeds(children, writes[..n]);
      ApplyKeepsPositions(children, writes[..n], writes[n].0);
    }
  }

  /** After the writes, a child holds the transform of the last write naming it, or its old
      transform when no write names it. */
  lemma {:induction false} ApplyLastWrite(children: seq<Child>, writes: seq<Write>, id: WidgetId)
    requires Apply(children, writes).Some?
    ensures TransformOf(Apply(children, writes).value, id)
            == if LastWrite(writes, id).Some? then LastWrite(writes, id) else TransformOf(children, id)
  {
    if writes != [] {
      var n := |writes| - 1;
      ApplyLastWrite(children, writes[..n], id);
      var current := Apply(children, writes[..n]).value;
      TransformAfterSetTransform(current, writes[n].0, writes[n].1, id);
    }
  }

  /** A refresh of a valid grid never fails: every write names a child of the hierarchy. */
  lemma RefreshSucceeds(children: seq<Child>, table: Table, colSizes: seq<nat>, rowSizes: seq<nat>)
    requires Shaped(table, |colSizes|, |rowSizes|)
    requires forall c, r :: 0 <= c < |table| && 0 <= r < |table[c]| && table[c][r].Some? ==>
               Position(children, table[c][r].value).Some?
    ensures Apply(children, TableWrites(table, colSizes, rowSizes, |table|)).Some?
  {
    var writes := TableWrites(table, colSizes, rowSizes, |table|);
    forall k | 0 <= k < |writes| ensures Position(children, writes[k].0).Some? {
      TableWritesMember(table, colSizes, rowSizes, |table|, writes[k]);
    }
    ApplySucceeds(children, writes);
  }

  /** A refresh of a table with a cell naming a child the hierarchy does not hold fails: the
      source panics in `set_transform`. */
  lemma RefreshFailsOnAbsentChild(children: seq<Child>, table: Table, colSizes: seq<nat>, rowSizes: seq<nat>,
                                  c: nat, r: nat)
    requires Shaped(table, |colSizes|, |rowSizes|) && c < |colSizes| && r < |rowSizes|
    requires table[c][r].Some? && Position(children, table[c][r].value).None?
    ensures Apply(children, TableWrites(table, colSizes, rowSizes, |table|)).None?
  {
    var writes := TableWrites(table, colSizes, rowSizes, |table|);
    var w := (table[c][r].value, CellTransform(colSizes, rowSizes, c, r));
    TableWritesMember(table, colSizes, rowSizes, |table|, w);
    var k :| 0 <= k < |writes| && writes[k] == w;
    ApplyFailsOnAbsent(children, writes, k);
  }

  /** Removing the only child carrying `id` leaves no child carrying it. */
  lemma RemovalStrandsCell(children: seq<Child>, id: WidgetId)
    requires Position(children, id).Some?
    requires forall k :: 0 <= k < |children| && k != Position(children, id).value ==> children[k].id != id
    ensures var p := Position(children, id).value;
            Position(children[..p] + children[p + 1..], id).None?
  {
    var p := Position(children, id).value;
    var rest := children[..p] + children[p + 1..];
    forall k | 0 <= k < |rest| ensures rest[k].id != id {
      if k < p {
        assert rest[k] == children[k];
      } else {
        assert rest[k] == children[k + 1];
      }
    }
  }

  /** A child that sits in exactly one cell gets that cell's transform from a refresh. */
  lemma RefreshPlacesCell(children: seq<Child>, table: Table, colSizes: seq<nat>, rowSizes: seq<nat>,
                          c: nat, r: nat, id: WidgetId)
    requires Shaped(table, |colSizes|, |rowSizes|) && c < |colSizes| && r < |rowSizes|
    requires table[c][r] == Some(id)
    requires forall c', r' :: 0 <= c' < |table| && 0 <= r' < |rowSizes| && table[c'][r'] == Some(id) ==>
               c' == c && r' == r
    requires Apply(children, TableWrites(table, colSizes, rowSizes, |table|)).Some?
    ensures TransformOf(Apply(children, TableWrites(table, colSizes, rowSizes, |table|)).value, id)
            == Some(CellTransform(colSizes, rowSizes, c, r))
  {
    var writes := TableWrites(table, colSizes, rowSizes, |table|);
    ApplyLastWrite(children, writes, id);
    TableWritesMember(table, colSizes, rowSizes, |table|, (id, CellTransform(colSizes, rowSizes, c, r)));
    var last := LastWrite(writes, id);
    TableWritesMember(table, colSizes, rowSizes, |table|, (id, last.value));
  }

  /** A child that sits in no cell keeps its transform through a refresh. */
  lemma RefreshKeepsUnplaced(children: seq<Child>, table: Table, colSizes: seq<nat>, rowSizes: seq<nat>, id: WidgetId)
    requires Shaped(table, |colSizes|, |rowSizes|)
    requires forall c, r :: 0 <= c < |table| && 0 <= r < |rowSizes| ==> table[c][r] != Some(id)
    requires Apply(children, TableWrites(table, colSizes, rowSizes, |table|)).Some?
    ensures TransformOf(Apply(children, TableWrites(table, colSizes, rowSizes, |table|)).value, id)
            == TransformOf(children, id)
  {
    var writes := TableWrites(table, colSizes, rowSizes, |table|);
    ApplyLastWrite(children, writes, id);
    if LastWrite(writes, id).Some? {
      TableWritesMember(table, colSizes, rowSizes, |table|, (id, LastWrite(writes, id).value));
    }
  }

  /** The painted 800 by 600 grid of the insertion tests: children 1 and 2 inserted without a
      cell land in (0, 0) and (1, 1), child 3 in (0, 1), and with both axes resolved to two
      equal halves each child gets its quarter. */
  lemma PaintTwoByTwo()
    ensures var table: Table := [[Some(1), Some(3)], [None, Some(2)]];
            var children := [Child(1, DefaultTransform()), Child(2, DefaultTransform()), Child(3, DefaultTransform())];
            var after := Apply(children, TableWrites(table, [400, 400], [300, 300], 2));
            && after.Some?
            && TransformOf(after.value, 1) == Some(Transform(0, 0, 400, 300))
            && TransformOf(after.value, 2) == Some(Transform(400, 300, 400, 300))
            && TransformOf(after.value, 3) == Some(Transform(0, 300, 400, 300))
  {
    var table: Table := [[Some(1), Some(3)], [None, Some(2)]];
    var children := [Child(1, DefaultTransform()), Child(2, DefaultTransform()), Child(3, DefaultTransform())];
    var cols: seq<nat> := [400, 400];
    var rows: seq<nat> := [300, 300];
    RefreshSucceeds(children, table, cols, rows);
    TwoByTwoOnce(0, 0, 1);
    RefreshPlacesCell(children, table, cols, rows, 0, 0, 1);
    TwoByTwoOnce(1, 1, 2);
    RefreshPlacesCell(children, table, cols, rows, 1, 1, 2);
    TwoByTwoOnce(0, 1, 3);
    RefreshPlacesCell(children, table, cols, rows, 0, 1, 3);
    HalvesCells();
  }

  /** Each child of the painted 2 by 2 grid sits in one cell only. */
  lemma TwoByTwoOnce(c: nat, r: nat, id: WidgetId)
    requires c < 2 && r < 2
    requires var table: Table := [[Some(1), Some(3)], [None, Some(2)]]; table[c][r] == Some(id)
    ensures var table: Table := [[Some(1), Some(3)], [None, Some(2)]];
            forall c', r' :: 0 <= c' < 2 && 0 <= r' < 2 && table[c'][r'] == Some(id) ==> c' == c && r' == r
  {
  }

  /** The cells of two 400-wide columns and two 300-high rows. */
  lemma HalvesCells()
    ensures CellTransform([400, 400], [300, 300], 0, 0) == Transform(0, 0, 400, 300)
    ensures CellTransform([400, 400], [300, 300], 1, 1) == Transform(400, 300, 400, 300)
    ensures CellTransform([400, 400], [300, 300], 0, 1) == Transform(0, 300, 400, 300)
  {
    var cols: seq<nat> := [400, 400];
    var rows: seq<nat> := [300, 300];
    assert cols[..0] == [] && rows[..0] == [];
    assert cols[..1] == [400] && rows[..1] == [300];
    assert Sum([400]) == 400 && Sum([300]) == 300;
  }

  /** The insertion test: two children inserted without a cell into an empty grid land in
      (0, 0) and (1, 1), and the grid grows to two columns and two rows. */
  method InsertTwiceIntoEmpty(a: WidgetId, b: WidgetId) returns (grid: GridLayout)
    ensures grid.Valid()
    ensures fresh(grid) && fresh(grid.hierarchy) && fresh(grid.columnLayout) && fresh(grid.rowLayout)
    ensures grid.table == [[Some(a), None], [None, Some(b)]]
    ensures grid.hierarchy.children == [Child(a, DefaultTransform()), Child(b, DefaultTransform())]
  {
    grid := new GridLayout();
    grid.InsertChildAt(a, None, None);
    assert |grid.table| == 1 && |grid.table[0]| == 1 && grid.table[0][0] == Some(a);
    assert grid.table[0] == [Some(a)];
    assert grid.table == [[Some(a)]];
    grid.InsertChildAt(b, None, None);
    assert |grid.table| == 2 && |grid.table[0]| == 2 && |grid.table[1]| == 2;
    assert grid.table[0][0] == Some(a) && grid.table[0][1] == None;
    assert grid.table[1][0] == None && grid.table[1][1] == Some(b);
    assert grid.table[0] == [Some(a), None] && grid.table[1] == [None, Some(b)];
  }

  /** The insertion test continued: a third child inserted at column 0, row 1 fills the last
      free cell, which gives the table and children `PaintTwoByTwo` paints. */
  method InsertThriceIntoEmpty(a: WidgetId, b: WidgetId, c: WidgetId) returns (grid: GridLayout)
    ensures grid.Valid()
    ensures grid.table == [[Some(a), Some(c)], [None, Some(b)]]
    ensures grid.hierarchy.children
            == [Child(a, DefaultTransform()), Child(b, DefaultTransform()), Child(c, DefaultTransform())]
    ensures |grid.columnLayout.items| == 2 && |grid.rowLayout.items| == 2
  {
    grid := InsertTwiceIntoEmpty(a, b);
    grid.InsertChildAt(c, Some(0), Some(1));
    assert grid.table[0][0] == Some(a) && grid.table[0][1] == Some(c);
    assert grid.table[1][0] == None && grid.table[1][1] == Some(b);
    assert grid.table[0] == [Some(a), Some(c)] && grid.table[1] == [None, Some(b)];
  }

  /** Removing the only child of a one-cell grid leaves its cell naming it: the grid is no
      longer valid, and a refresh would fail. */
  method RemoveAfterInsert(a: WidgetId) returns (grid: GridLayout)
    ensures grid.table == [[Some(a)]] && grid.hierarchy.children == []
    ensures !grid.Valid()
  {
    grid := new GridLayout();
    grid.InsertChildAt(a, None, None);
    assert grid.table[0] == [Some(a)];
    assert grid.table == [[Some(a)]];
    var _ := grid.RemoveChild(a);
    assert grid.hierarchy.children == [];
    assert Position(grid.hierarchy.children, a).None?;
  }

  /** The column-count test: after `set_column_count(1)`, a child inserted in row 0 without a
      column lands in a new second column. */
  method InsertAfterColumnCount(a: WidgetId) returns (grid: GridLayout)
    ensures grid.Valid()
    ensures |grid.columnLayout.items| == 2 && |grid.rowLayout.items| == 1
    ensures grid.table == [[None], [Some(a)]]
  {
    grid := new GridLayout();
    grid.SetColumnCount(1);
    assert |grid.table| == 1 && |grid.table[0]| == 0;
    grid.InsertChildAt(a, None, Some(0));
    assert |grid.table| == 2 && |grid.table[0]| == 1 && |grid.table[1]| == 1;
    assert grid.table[0][0] == None && grid.table[1][0] == Some(a);
    assert grid.table[0] == [None] && grid.table[1] == [Some(a)];
  }
}
