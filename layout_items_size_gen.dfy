/** The per-axis size solver: a `Layout` distributes its `size` among an ordered list of
    `Item`s, each with a stretch weight, a minimum and a maximum size and a resolved
    current size. All `u32` quantities are unbounded naturals here; every subtraction
    that would underflow (a panic in the source's debug build) is an explicit failure
    outcome (`ok == false`). */
module LayoutItemsSizeGen {
  import opened Common

  /** One constrained quantity of an axis. */
  datatype Item = Item(stretch: nat, minSize: nat, maxSize: nat, currentSize: nat)

  /** `Item::new`: a missing minimum is 0, a missing maximum is `u32::MAX`, and the item
      starts with no size. */
  function NewItem(stretch: nat, minSize: Option<nat>, maxSize: Option<nat>): (item: Item)
    ensures item.stretch == stretch && item.currentSize == 0
    ensures minSize.None? ==> item.minSize == 0
    ensures minSize.Some? ==> item.minSize == minSize.value
    ensures maxSize.None? ==> item.maxSize == U32_MAX
    ensures maxSize.Some? ==> item.maxSize == maxSize.value
  {
    Item(stretch,
         match minSize case Some(m) => m case None => 0,
         match maxSize case Some(m) => m case None => U32_MAX,
         0)
  }

  // ---------------------------------------------------------------------------------------
  // Views of an item list

  function Stretches(items: seq<Item>): seq<nat> {
    seq(|items|, i requires 0 <= i < |items| => items[i].stretch)
  }

  function Mins(items: seq<Item>): seq<nat> {
    seq(|items|, i requires 0 <= i < |items| => items[i].minSize)
  }

  function Currents(items: seq<Item>): seq<nat> {
    seq(|items|, i requires 0 <= i < |items| => items[i].currentSize)
  }

  /** The space an item occupies once it is lifted to its minimum: `max(current, min)`. */
  function Required(items: seq<Item>): seq<nat> {
    seq(|items|, i requires 0 <= i < |items| => Max(items[i].currentSize, items[i].minSize) as nat)
  }

  ghost predicate MaxAtLeastMin(items: seq<Item>) {
    forall i :: 0 <= i < |items| ==> items[i].minSize <= items[i].maxSize
  }

  ghost predicate AllAtLeastMin(items: seq<Item>) {
    forall i :: 0 <= i < |items| ==> items[i].currentSize >= items[i].minSize
  }

  /** Same length, and item by item the same stretch, minimum and maximum: only current
      sizes may differ. */
  ghost predicate SameConstraints(a: seq<Item>, b: seq<Item>) {
    && |a| == |b|
    && forall i :: 0 <= i < |a| ==>
         a[i].stretch == b[i].stretch && a[i].minSize == b[i].minSize && a[i].maxSize == b[i].maxSize
  }

  /** The width of an item's size range, `max_size - min_size`. */
  function Span(item: Item): nat
    requires item.minSize <= item.maxSize
  {
    item.maxSize - item.minSize
  }

  /** The index `get_item_with_lowest_max_minus_current` selects: the earliest item whose
      size range is narrowest. */
  function LowestSpanIndex(items: seq<Item>): (j: nat)
    requires items != [] && MaxAtLeastMin(items)
    ensures j < |items|
  {
    if |items| == 1 then 0
    else
      var j := LowestSpanIndex(items[..|items| - 1]);
      if Span(items[|items| - 1]) < Span(items[j]) then |items| - 1 else j
  }

  /** `get_item_expected_minus_current_stretch`: `stretch * size - current * total_stretch`,
      as an integer; a negative value is an underflow in the source. */
  function Score(item: Item, totalStretch: nat, totalSize: nat): (s: int)
    ensures s >= 0 <==> item.currentSize * totalStretch <= item.stretch * totalSize
    ensures s == 0 <==> item.currentSize * totalStretch == item.stretch * totalSize
  {
    item.stretch * totalSize - item.currentSize * totalStretch
  }

  /** Each unit an item receives lowers its score by the total stretch, so the unit handed out
      next goes to the item furthest below its share. */
  lemma ScoreAfterUnit(item: Item, totalStretch: nat, totalSize: nat)
    ensures Score(item.(currentSize := item.currentSize + 1), totalStretch, totalSize)
            == Score(item, totalStretch, totalSize) - totalStretch
  {
  }

  /** The scores of all items against the given totals. */
  function Scores(items: seq<Item>, totalStretch: nat, totalSize: nat): seq<int> {
    seq(|items|, i requires 0 <= i < |items| => Score(items[i], totalStretch, totalSize))
  }

  /** No item's score against the given totals underflows. */
  predicate ScoresNonNegative(items: seq<Item>, totalStretch: nat, size: nat) {
    forall k :: 0 <= k < |items| ==> Score(items[k], totalStretch, size) >= 0
  }

  /** The state `(highest_idx, highest_diff)` of the arg-max scan over `scores`: the best
      score starts at 0 at index 0 and only a strictly larger score replaces it. */
  function ArgMax(scores: seq<int>): (best: (nat, int))
    ensures best.1 >= 0
    ensures best.1 == 0 ==> best.0 == 0
    ensures best.1 > 0 ==> best.0 < |scores| && scores[best.0] == best.1
  {
    if scores == [] then (0, 0)
    else
      var prev := ArgMax(scores[..|scores| - 1]);
      if scores[|scores| - 1] > prev.1 then (|scores| - 1, scores[|scores| - 1]) else prev
  }

  /** The narrowest-span index is the earliest minimum of the spans: no span is smaller, and
      every earlier span is strictly larger. */
  lemma {:induction false} LowestSpanIsEarliestMinimum(items: seq<Item>)
    requires items != [] && MaxAtLeastMin(items)
    ensures var j := LowestSpanIndex(items);
            forall k :: 0 <= k < |items| ==> Span(items[j]) <= Span(items[k])
    ensures var j := LowestSpanIndex(items);
            forall k :: 0 <= k < j ==> Span(items[k]) > Span(items[j])
  {
    if |items| > 1 {
      LowestSpanIsEarliestMinimum(items[..|items| - 1]);
    }
  }

  /** The arg-max scan ends on the first strictly largest score: no score exceeds the best,
      and every score ahead of the chosen index is strictly smaller. */
  lemma {:induction false} ArgMaxIsFirstMaximum(scores: seq<int>)
    ensures var best := ArgMax(scores);
            forall k :: 0 <= k < |scores| ==> scores[k] <= best.1
    ensures var best := ArgMax(scores);
            forall k :: 0 <= k < best.0 ==> scores[k] < best.1
  {
    if scores != [] {
      ArgMaxIsFirstMaximum(scores[..|scores| - 1]);
    }
  }

  /** One step of the arg-max scan: the next score replaces the best only when it is strictly
      larger. */
  lemma ArgMaxStep(scores: seq<int>, i: nat)
    requires i < |scores|
    ensures ArgMax(scores[..i + 1])
            == if scores[i] > ArgMax(scores[..i]).1 then (i, scores[i]) else ArgMax(scores[..i])
  {
    assert scores[..i + 1][..i] == scores[..i];
  }

  /** The leftover units of the distributing branch handed out one at a time, each to the
      item the arg-max scan selects over the current sizes; `None` when some score
      underflows. */
  function Distributed(items: seq<Item>, totalStretch: nat, size: nat, count: nat): (r: Option<seq<Item>>)
    requires items != []
    decreases count
  {
    if count == 0 then Some(items)
    else
      if !ScoresNonNegative(items, totalStretch, size) then None
      else
        var j := ArgMax(Scores(items, totalStretch, size)).0;
        Distributed(items[j := items[j].(currentSize := items[j].currentSize + 1)], totalStretch, size, count - 1)
  }

  /** Every item lifted to its minimum and then grown by `q` times its stretch. */
  function LiftedAndGrown(items: seq<Item>, q: nat): (r: seq<Item>)
    ensures SameConstraints(items, r)
    ensures forall i :: 0 <= i < |r| ==> r[i].currentSize == Required(items)[i] + q * items[i].stretch
  {
    seq(|items|, i requires 0 <= i < |items| =>
      items[i].(currentSize := Max(items[i].currentSize, items[i].minSize) as nat + q * items[i].stretch))
  }

  // ---------------------------------------------------------------------------------------
  // The branch `validate` takes on a given state

  /** The headroom `max_size - current_size` of the item with the narrowest range, as an
      integer (negative is an underflow in the source). */
  ghost function LowestHeadroom(items: seq<Item>): int
    requires items != [] && MaxAtLeastMin(items)
  {
    var j := LowestSpanIndex(items);
    items[j].maxSize - items[j].currentSize
  }

  /** With free space left, `validate` compares it with the narrowest item's headroom times
      the total stretch; that `u32` product overflows, which panics in a debug build. */
  ghost predicate ProductOverflows(size: nat, items: seq<Item>)
    requires MaxAtLeastMin(items)
  {
    && items != []
    && LowestHeadroom(items) >= 0
    && Sum(Required(items)) < size
    && U32_MAX < LowestHeadroom(items) * Sum(Stretches(items))
  }

  /** `validate` chooses its distributing branch: free space is left, but less than the
      narrowest item's headroom times the total stretch. */
  ghost predicate TakesDistribution(size: nat, items: seq<Item>)
    requires MaxAtLeastMin(items)
  {
    && items != []
    && LowestHeadroom(items) >= 0
    && 0 < size - Sum(Required(items)) < LowestHeadroom(items) * Sum(Stretches(items))
  }

  /** `validate` chooses its recursive branch: every item can grow by the headroom times its
      stretch. */
  ghost predicate TakesSaturation(size: nat, items: seq<Item>)
    requires MaxAtLeastMin(items)
  {
    && items != []
    && LowestHeadroom(items) >= 0
    && Sum(Required(items)) < size
    && size - Sum(Required(items)) >= LowestHeadroom(items) * Sum(Stretches(items))
  }

  /** What a `validate` call that does not panic promises about the items it leaves. */
  ghost predicate ValidateOutcome(size: nat, before: seq<Item>, after: seq<Item>)
    requires MaxAtLeastMin(before)
  {
    && SameConstraints(before, after)
    // nothing to do on an empty list, with no stretch at all, or with no free space
    && (before == [] ==> after == before)
    && (Sum(Stretches(before)) == 0 ==> after == before)
    && (before != [] && Sum(Required(before)) == size ==> after == before)
    // the distributing branch fills the layout exactly, keeping every item at its minimum
    && (TakesDistribution(size, before) ==>
          var free := size - Sum(Required(before));
          var total := Sum(Stretches(before));
          && Distributed(LiftedAndGrown(before, free / total), total, size, free % total) == Some(after)
          && Sum(Currents(after)) == size
          && AllAtLeastMin(after)
          && forall i :: 0 <= i < |after| ==>
               after[i].currentSize >= Required(before)[i]
                 + (size - Sum(Required(before))) / Sum(Stretches(before)) * before[i].stretch)
    // the recursive branch leaves the narrowest item grown by headroom times its stretch
    && (TakesSaturation(size, before) ==>
          var j := LowestSpanIndex(before);
          after[j].currentSize == before[j].currentSize + LowestHeadroom(before) * before[j].stretch)
  }

  /** Every item grown by `diff` times its stretch, as `increase_every_item_size` leaves it. */
  function GrownBy(items: seq<Item>, diff: nat): (r: seq<Item>)
    ensures SameConstraints(items, r)
    ensures forall i :: 0 <= i < |r| ==> r[i].currentSize == items[i].currentSize + diff * items[i].stretch
  {
    seq(|items|, i requires 0 <= i < |items| =>
      items[i].(currentSize := items[i].currentSize + diff * items[i].stretch))
  }

  /** `validate` runs to its end without a panic, branch by branch: the narrowest headroom and
      the free space must not underflow; with free space left, the headroom times the total
      stretch must not overflow, the distributing branch must
      hand out its remainder without a score underflowing, and the recursive branch must be
      able to subtract the narrowest item's grown size and then solve the rest. */
  ghost predicate Solvable(size: nat, items: seq<Item>)
    requires MaxAtLeastMin(items)
    decreases |items|
  {
    if items == [] then true
    else if LowestHeadroom(items) < 0 || Sum(Required(items)) > size then false
    else if Sum(Required(items)) == size then true
    else if ProductOverflows(size, items) then false
    else if TakesDistribution(size, items) then
      var free := size - Sum(Required(items));
      var total := Sum(Stretches(items));
      Distributed(LiftedAndGrown(items, free / total), total, size, free % total).Some?
    else
      SaturationTaken(items) <= size && Solvable(size - SaturationTaken(items), SaturationRest(items))
  }

  /** The recursive branch of `validate` succeeds: the narrowest grown item fits, and the
      rest is solvable in what remains. */
  ghost predicate SaturationSolvable(size: nat, items: seq<Item>)
    requires items != [] && MaxAtLeastMin(items) && LowestHeadroom(items) >= 0
  {
    SaturationTaken(items) <= size && Solvable(size - SaturationTaken(items), SaturationRest(items))
  }

  /** What the recursive branch subtracts from the size: the narrowest item after every item
      grew by the narrowest headroom. */
  ghost function SaturationTaken(items: seq<Item>): int
    requires items != [] && MaxAtLeastMin(items) && LowestHeadroom(items) >= 0
  {
    GrownBy(items, LowestHeadroom(items))[LowestSpanIndex(items)].currentSize
  }

  /** What the recursive branch solves next: every item grown, the narrowest one removed. */
  ghost function SaturationRest(items: seq<Item>): (rest: seq<Item>)
    requires items != [] && MaxAtLeastMin(items) && LowestHeadroom(items) >= 0
    ensures |rest| == |items| - 1 && MaxAtLeastMin(rest)
  {
    var j := LowestSpanIndex(items);
    var grown := GrownBy(items, LowestHeadroom(items));
    RemovalKeepsMaxAtLeastMin(items, grown, j);
    grown[..j] + grown[j + 1..]
  }

  // ---------------------------------------------------------------------------------------
  // The solver

  class Layout {
    var size: nat
    var items: seq<Item>

    constructor Raw(size: nat, items: seq<Item>)
      ensures this.size == size && this.items == items
    {
      this.size := size;
      this.items := items;
    }

    /** `Layout::new`: raise the size to the sum of the minimums, lift every maximum to its
        minimum, then solve. `ok` is false when solving panics. */
    static method New(size: nat, items: seq<Item>) returns (layout: Layout, ok: bool)
      ensures fresh(layout)
      ensures layout.size == Max(size, Sum(Mins(items)))
      ensures SameConstraints(Normalised(items), layout.items)
      ensures ok <==> Solvable(layout.size, Normalised(items))
      ensures ok ==> ValidateOutcome(layout.size, Normalised(items), layout.items)
      ensures items == [] ==> ok && layout.items == []
    {
      layout := new Layout.Raw(size, items);
      layout.EnsureLayoutHasAtLeastMinimalWidth();
      layout.ValidateAllItems();
      ok := layout.Validate();
    }

    /** `validate`: solve the current state in place. */
    method Validate() returns (ok: bool)
      requires MaxAtLeastMin(items)
      modifies this
      decreases |items|, 1
      ensures size == old(size) && SameConstraints(old(items), items)
      ensures ok <==> Solvable(old(size), old(items))
      ensures ok ==> ValidateOutcome(old(size), old(items), items)
      ensures old(items) == [] ==> ok && items == old(items)
    {
      if items == [] {
        return true;
      }
      SolvableCases(size, items);
      var itemsStretch := GatherItemsStretch();
      var lowestIdx := GetItemWithLowestMaxMinusCurrent();
      if items[lowestIdx].maxSize < items[lowestIdx].currentSize {
        return false;
      }
      var lowest := items[lowestIdx].maxSize - items[lowestIdx].currentSize;
      var remaining, fits := RemainingFreeLayoutSpace();
      if !fits {
        return false;
      }
      if remaining == 0 {
        ok := true;
        ReadyOutcome(size, items);
      } else if U32_MAX < lowest * itemsStretch {
        // the `u32` product overflows: a debug build panics here
        ok := false;
      } else if remaining < lowest * itemsStretch {
        ok := DistributeFreeSpace(remaining, itemsStretch);
      } else {
        SolvableBySaturation(size, items);
        ok := GrowAndSolveRest(lowestIdx, lowest, itemsStretch);
      }
    }

    /** The distributing branch of `validate`: lift every item to its minimum, grow each by
        the whole quotient of the free space and the total stretch times its stretch, then
        hand out the remainder one unit at a time. */
    method DistributeFreeSpace(remaining: nat, itemsStretch: nat) returns (ok: bool)
      requires MaxAtLeastMin(items) && TakesDistribution(size, items)
      requires remaining == size - Sum(Required(items)) && itemsStretch == Sum(Stretches(items))
      modifies this
      ensures size == old(size) && SameConstraints(old(items), items)
      ensures ok <==> Distributed(LiftedAndGrown(old(items), remaining / itemsStretch), itemsStretch, size,
                                  remaining % itemsStretch).Some?
      ensures ok ==> ValidateOutcome(old(size), old(items), items)
    {
      ghost var before := items;
      SetEveryItemSizeToAtLeastMin();
      ghost var lifted := items;
      IncreaseEveryItemSize(remaining / itemsStretch);
      ghost var grown := items;
      LiftedThenGrown(before, lifted, grown, remaining / itemsStretch);
      ok := DistributeRemainder(remaining % itemsStretch);
      if ok {
        DistributionFills(before, lifted, grown, items, remaining / itemsStretch, remaining % itemsStretch);
        DistributionBounds(before, items, remaining / itemsStretch);
        DivModSplit(remaining, itemsStretch);
        DistributionOutcome(size, before, items);
      }
    }

    /** The recursive branch of `validate`: grow every item by the narrowest item's headroom
        times its stretch, take that item out together with its size, solve the rest, and put
        the item and its size back. */
    method GrowAndSolveRest(lowestIdx: nat, lowest: nat, itemsStretch: nat) returns (ok: bool)
      requires MaxAtLeastMin(items) && TakesSaturation(size, items)
      requires lowestIdx == LowestSpanIndex(items) && lowest == LowestHeadroom(items)
      requires itemsStretch == Sum(Stretches(items))
      modifies this
      decreases |items|, 0
      ensures size == old(size) && SameConstraints(old(items), items)
      ensures ok <==> SaturationSolvable(old(size), old(items))
      ensures ok ==> ValidateOutcome(old(size), old(items), items)
    {
      ghost var before := items;
      IncreaseEveryItemSize(lowest);
      ghost var grown := items;
      assert grown == GrownBy(before, lowest);
      RemovalKeepsMaxAtLeastMin(before, grown, lowestIdx);
      ghost var rest := grown[..lowestIdx] + grown[lowestIdx + 1..];
      var item := items[lowestIdx];
      assert item.currentSize == SaturationTaken(before) && rest == SaturationRest(before);
      if size < item.currentSize {
        assert SameConstraints(before, items);
        return false;
      }
      items := items[..lowestIdx] + items[lowestIdx + 1..];
      size := size - item.currentSize;
      ghost var restSize, restItems := size, items;
      ok := Validate();
      SaturationStep(old(size), old(items), restSize, restItems, ok);
      ghost var solved := items;
      size := size + item.currentSize;
      items := items[..lowestIdx] + [item] + items[lowestIdx..];
      ReinsertKeepsConstraints(before, grown, rest, solved, items, lowestIdx);
      assert size == old(size);
      assert SameConstraints(before, items);
      if ok {
        if itemsStretch == 0 {
          ReinsertWithoutStretch(before, grown, rest, solved, items, lowestIdx, lowest);
        }
        SaturationOutcome(size, before, items);
      }
    }

    /** `ensure_layout_has_at_least_minimal_width`. */
    method EnsureLayoutHasAtLeastMinimalWidth()
      modifies this
      ensures items == old(items)
      ensures size == Max(old(size), Sum(Mins(items)))
    {
      var sumOfMinSizes := 0;
      var i := 0;
      while i < |items|
        invariant 0 <= i <= |items|
        invariant items == old(items) && size == old(size)
        invariant sumOfMinSizes == Sum(Mins(items)[..i])
      {
        SumPrefixStep(Mins(items), i);
        sumOfMinSizes := sumOfMinSizes + items[i].minSize;
        i := i + 1;
      }
      assert Mins(items)[..|items|] == Mins(items);
      if size < sumOfMinSizes {
        size := sumOfMinSizes;
      }
    }

    /** `gather_items_stretch`. */
    method GatherItemsStretch() returns (total: nat)
      ensures total == Sum(Stretches(items))
    {
      total := 0;
      var i := 0;
      while i < |items|
        invariant 0 <= i <= |items|
        invariant total == Sum(Stretches(items)[..i])
      {
        SumPrefixStep(Stretches(items), i);
        total := total + items[i].stretch;
        i := i + 1;
      }
      assert Stretches(items)[..|items|] == Stretches(items);
    }

    /** `validate_all_items`: lift every maximum to at least its minimum. */
    method ValidateAllItems()
      modifies this
      ensures size == old(size)
      ensures items == Normalised(old(items))
    {
      var i := 0;
      while i < |items|
        invariant 0 <= i <= |items| == |old(items)|
        invariant size == old(size)
        invariant forall k :: 0 <= k < i ==> items[k] == Normalised(old(items))[k]
        invariant forall k :: i <= k < |items| ==> items[k] == old(items)[k]
      {
        if items[i].maxSize < items[i].minSize {
          items := items[i := items[i].(maxSize := items[i].minSize)];
        }
        i := i + 1;
      }
    }

    /** `get_item_with_lowest_max_minus_current`. */
    method GetItemWithLowestMaxMinusCurrent() returns (lowestIdx: nat)
      requires items != [] && MaxAtLeastMin(items)
      ensures lowestIdx == LowestSpanIndex(items)
    {
      lowestIdx := 0;
      var lowestDiff := items[0].maxSize - items[0].minSize;
      var i := 0;
      while i < |items|
        invariant 0 <= i <= |items|
        invariant lowestIdx < |items| && lowestDiff == Span(items[lowestIdx])
        invariant i == 0 ==> lowestIdx == 0
        invariant i > 0 ==> lowestIdx == LowestSpanIndex(items[..i])
      {
        assert items[..i + 1][..i] == items[..i];
        var potentialLowest := items[i].maxSize - items[i].minSize;
        if potentialLowest < lowestDiff {
          lowestDiff := potentialLowest;
          lowestIdx := i;
        }
        i := i + 1;
      }
      assert items[..|items|] == items;
    }

    /** `remaining_free_layout_space`: `size - Σ max(current, min)`; `fits` is false when the
        subtraction underflows. */
    method RemainingFreeLayoutSpace() returns (remaining: nat, fits: bool)
      ensures fits <==> Sum(Required(items)) <= size
      ensures fits ==> remaining == size - Sum(Required(items))
    {
      var result: int := size;
      var i := 0;
      while i < |items|
        invariant 0 <= i <= |items|
        invariant result == size - Sum(Required(items)[..i]) && result >= 0
      {
        SumPrefixStep(Required(items), i);
        var required := Max(items[i].currentSize, items[i].minSize);
        if result < required {
          SumPrefixAtMostSum(Required(items), i + 1);
          return 0, false;
        }
        result := result - required;
        i := i + 1;
      }
      assert Required(items)[..|items|] == Required(items);
      return result, true;
    }

    /** `increase_every_item_size`: every item grows by `diff` times its stretch. */
    method IncreaseEveryItemSize(diff: nat)
      modifies this
      ensures size == old(size)
      ensures |items| == |old(items)|
      ensures forall i :: 0 <= i < |items| ==>
                items[i] == old(items)[i].(currentSize := old(items)[i].currentSize + diff * old(items)[i].stretch)
    {
      var i := 0;
      while i < |items|
        invariant 0 <= i <= |items| == |old(items)|
        invariant size == old(size)
        invariant forall k :: 0 <= k < i ==>
                    items[k] == old(items)[k].(currentSize := old(items)[k].currentSize + diff * old(items)[k].stretch)
        invariant forall k :: i <= k < |items| ==> items[k] == old(items)[k]
      {
        items := items[i := items[i].(currentSize := items[i].currentSize + diff * items[i].stretch)];
        i := i + 1;
      }
    }

    /** `set_every_item_size_to_at_least_min`. */
    method SetEveryItemSizeToAtLeastMin()
      modifies this
      ensures size == old(size)
      ensures |items| == |old(items)|
      ensures forall i :: 0 <= i < |items| ==>
                items[i] == old(items)[i].(currentSize := Required(old(items))[i])
    {
      var i := 0;
      while i < |items|
        invariant 0 <= i <= |items| == |old(items)|
        invariant size == old(size)
        invariant forall k :: 0 <= k < i ==> items[k] == old(items)[k].(currentSize := Required(old(items))[k])
        invariant forall k :: i <= k < |items| ==> items[k] == old(items)[k]
      {
        if items[i].currentSize < items[i].minSize {
          items := items[i := items[i].(currentSize := items[i].minSize)];
        }
        i := i + 1;
      }
    }

    /** `get_item_with_highest_expected_minus_current_stretch`; `ok` is false when some
        item's score underflows. */
    method GetItemWithHighestExpectedMinusCurrentStretch() returns (highestIdx: nat, ok: bool)
      ensures ok <==> ScoresNonNegative(items, Sum(Stretches(items)), size)
      ensures ok ==> highestIdx == ArgMax(Scores(items, Sum(Stretches(items)), size)).0
    {
      var totalStretch := GatherItemsStretch();
      ghost var scores := Scores(items, totalStretch, size);
      highestIdx := 0;
      var highestDiff := 0;
      var i := 0;
      while i < |items|
        invariant 0 <= i <= |items|
        invariant (highestIdx, highestDiff) == ArgMax(scores[..i])
        invariant forall k :: 0 <= k < i ==> Score(items[k], totalStretch, size) >= 0
      {
        var potentialHighest := Score(items[i], totalStretch, size);
        ArgMaxStep(scores, i);
        if potentialHighest < 0 {
          return 0, false;
        }
        if potentialHighest > highestDiff {
          highestIdx := i;
          highestDiff := potentialHighest;
        }
        i := i + 1;
      }
      assert scores[..|items|] == scores;
      ok := true;
    }

    /** The loop of `validate` that hands out the `count` leftover units one at a time, each
        to the item the arg-max scan selects. */
    method DistributeRemainder(count: nat) returns (ok: bool)
      requires items != []
      modifies this
      ensures ok <==> Distributed(old(items), Sum(Stretches(old(items))), size, count).Some?
      ensures ok ==> Some(items) == Distributed(old(items), Sum(Stretches(old(items))), size, count)
      ensures size == old(size) && SameConstraints(old(items), items)
      ensures ok ==> Grew(old(items), items)
      ensures ok ==> Sum(Currents(items)) == Sum(Currents(old(items))) + count
    {
      ghost var total := Sum(Stretches(items));
      var k := 0;
      while k < count
        invariant 0 <= k <= count
        invariant size == old(size) && items != []
        invariant Sum(Stretches(items)) == total
        invariant SameConstraints(old(items), items)
        invariant Distributed(items, total, size, count - k) == Distributed(old(items), total, size, count)
      {
        ghost var prev := items;
        var scored := GiveUnitToHighest(total, count - k);
        SameConstraintsTransitive(old(items), prev, items);
        if !scored {
          return false;
        }
        k := k + 1;
      }
      ok := true;
      DistributedAdds(old(items), total, size, count);
    }

    /** One pass of the loop in `validate`'s distributing branch: the item the arg-max scan
        selects grows by one unit; `ok` is false when some score underflows. */
    method GiveUnitToHighest(ghost total: nat, n: nat) returns (ok: bool)
      requires items != [] && n > 0 && Sum(Stretches(items)) == total
      modifies this
      ensures size == old(size) && items != [] && Sum(Stretches(items)) == total
      ensures SameConstraints(old(items), items)
      ensures !ok ==> Distributed(old(items), total, size, n).None?
      ensures ok ==> Distributed(items, total, size, n - 1) == Distributed(old(items), total, size, n)
    {
      var highest, scored := GetItemWithHighestExpectedMinusCurrentStretch();
      if !scored {
        DistributedFails(items, total, size, n);
        return false;
      }
      ghost var prev := items;
      items := items[highest := items[highest].(currentSize := items[highest].currentSize + 1)];
      DistributedStep(prev, total, size, n, highest, items);
      ok := true;
    }
  }

  /** The item list after `validate_all_items`. */
  function Normalised(items: seq<Item>): (result: seq<Item>)
    ensures |result| == |items|
    ensures MaxAtLeastMin(result)
    ensures forall i :: 0 <= i < |items| ==>
              result[i] == items[i].(maxSize := Max(items[i].maxSize, items[i].minSize))
  {
    seq(|items|, i requires 0 <= i < |items| => items[i].(maxSize := Max(items[i].maxSize, items[i].minSize)))
  }

  // ---------------------------------------------------------------------------------------
  // Lemmas

  /** Growing every item by `diff` times its stretch grows the total by `diff` times the
      total stretch. */
  lemma {:induction false} SumCurrentsAfterIncrease(a: seq<Item>, b: seq<Item>, diff: nat)
    requires |a| == |b|
    requires forall i :: 0 <= i < |a| ==> b[i].currentSize == a[i].currentSize + diff * a[i].stretch
    ensures Sum(Currents(b)) == Sum(Currents(a)) + diff * Sum(Stretches(a))
  {
    if a != [] {
      var n := |a| - 1;
      SumCurrentsAfterIncrease(a[..n], b[..n], diff);
      assert Currents(a[..n]) == Currents(a)[..n];
      assert Currents(b[..n]) == Currents(b)[..n];
      assert Stretches(a[..n]) == Stretches(a)[..n];
      assert Sum(Currents(a)) == Sum(Currents(a)[..n]) + a[n].currentSize;
      assert Sum(Currents(b)) == Sum(Currents(b)[..n]) + b[n].currentSize;
      assert Sum(Stretches(a)) == Sum(Stretches(a)[..n]) + a[n].stretch;
      MulAddDistributes(diff, Sum(Stretches(a)[..n]), a[n].stretch);
    }
  }

  /** Adding one unit to one item adds one to the total. */
  lemma SumCurrentsIncrement(items: seq<Item>, j: nat)
    requires j < |items|
    ensures Sum(Currents(items[j := items[j].(currentSize := items[j].currentSize + 1)])) == Sum(Currents(items)) + 1
  {
    var after := items[j := items[j].(currentSize := items[j].currentSize + 1)];
    SumRemove(Currents(items), j);
    SumRemove(Currents(after), j);
    assert Currents(after)[..j] + Currents(after)[j + 1..] == Currents(items)[..j] + Currents(items)[j + 1..];
  }

  /** `b` is `a` with the same constraints and no item smaller. */
  ghost predicate Grew(a: seq<Item>, b: seq<Item>) {
    SameConstraints(a, b) && forall i :: 0 <= i < |b| ==> b[i].currentSize >= a[i].currentSize
  }

  lemma SameConstraintsTransitive(a: seq<Item>, b: seq<Item>, c: seq<Item>)
    requires SameConstraints(a, b) && SameConstraints(b, c)
    ensures SameConstraints(a, c)
  {
  }

  /** One leftover unit handed to the arg-max item: the rest of the distribution continues
      from there, and the list has only grown. */
  lemma DistributedStep(items: seq<Item>, total: nat, size: nat, n: nat, j: nat, next: seq<Item>)
    requires items != [] && n > 0
    requires ScoresNonNegative(items, total, size)
    requires j == ArgMax(Scores(items, total, size)).0 && j < |items|
    requires next == items[j := items[j].(currentSize := items[j].currentSize + 1)]
    ensures Distributed(items, total, size, n) == Distributed(next, total, size, n - 1)
    ensures Sum(Stretches(next)) == Sum(Stretches(items))
  {
    assert Stretches(next) == Stretches(items);
  }

  /** A score that underflows makes the distribution fail. */
  lemma DistributedFails(items: seq<Item>, total: nat, size: nat, n: nat)
    requires items != [] && n > 0 && !ScoresNonNegative(items, total, size)
    ensures Distributed(items, total, size, n).None?
  {
  }

  /** Handing out `count` leftover units keeps every constraint, never shrinks an item and
      adds exactly `count` to the total. */
  lemma {:induction false} DistributedAdds(items: seq<Item>, total: nat, size: nat, count: nat)
    requires items != [] && Distributed(items, total, size, count).Some?
    ensures var after := Distributed(items, total, size, count).value;
            && SameConstraints(items, after)
            && (forall i :: 0 <= i < |after| ==> after[i].currentSize >= items[i].currentSize)
            && Sum(Currents(after)) == Sum(Currents(items)) + count
    decreases count
  {
    if count > 0 {
      var j := ArgMax(Scores(items, total, size)).0;
      var next := items[j := items[j].(currentSize := items[j].currentSize + 1)];
      DistributedAdds(next, total, size, count - 1);
      SumCurrentsIncrement(items, j);
    }
  }

  /** The lowest-span choice looks only at minimum and maximum sizes, never at current
      sizes. */
  lemma {:induction false} LowestSpanIgnoresCurrent(a: seq<Item>, b: seq<Item>)
    requires a != [] && MaxAtLeastMin(a) && SameConstraints(a, b)
    ensures MaxAtLeastMin(b)
    ensures LowestSpanIndex(a) == LowestSpanIndex(b)
  {
    if |a| > 1 {
      var n := |a| - 1;
      LowestSpanIgnoresCurrent(a[..n], b[..n]);
    }
  }

  /** The stretch total is zero exactly when every stretch is zero. */
  lemma ZeroStretch(items: seq<Item>)
    ensures Sum(Stretches(items)) == 0 <==> forall i :: 0 <= i < |items| ==> items[i].stretch == 0
  {
    SumZero(Stretches(items));
    assert forall i :: 0 <= i < |items| ==> Stretches(items)[i] == items[i].stretch;
  }

  /** When `validate` succeeds outside its recursive branch: an empty layout and an exact fit
      succeed, an item whose current size is past its maximum or a layout too small for what
      its items require fails, so does a layout with free space whose headroom-times-stretch
      product overflows, and the distributing branch succeeds exactly when the remainder can be
      handed out. */
  lemma SolvableCases(size: nat, items: seq<Item>)
    requires MaxAtLeastMin(items)
    ensures items == [] ==> Solvable(size, items)
    ensures items != [] && (LowestHeadroom(items) < 0 || Sum(Required(items)) > size) ==> !Solvable(size, items)
    ensures items != [] && LowestHeadroom(items) >= 0 && Sum(Required(items)) == size ==> Solvable(size, items)
    ensures ProductOverflows(size, items) ==> !Solvable(size, items)
    ensures TakesDistribution(size, items) ==>
      var free := size - Sum(Required(items));
      var total := Sum(Stretches(items));
      (Solvable(size, items) <==>
         !ProductOverflows(size, items) && Distributed(LiftedAndGrown(items, free / total), total, size, free % total).Some?)
  {
  }

  /** In the recursive branch, `validate` succeeds exactly when the narrowest grown item fits
      and the rest can be solved in what remains. */
  lemma SolvableBySaturation(size: nat, items: seq<Item>)
    requires MaxAtLeastMin(items) && TakesSaturation(size, items)
    ensures Solvable(size, items) <==> !ProductOverflows(size, items) && SaturationSolvable(size, items)
  {
  }

  /** Solving the rest settles the recursive branch. */
  lemma SaturationStep(size: nat, items: seq<Item>, restSize: int, rest: seq<Item>, ok: bool)
    requires MaxAtLeastMin(items) && TakesSaturation(size, items)
    requires restSize == size - SaturationTaken(items) && rest == SaturationRest(items)
    requires restSize >= 0 && ok == Solvable(restSize, rest)
    ensures ok == SaturationSolvable(size, items)
  {
  }

  /** Two items with the default bounds and stretch 1 in a layout of 10: the narrowest
      headroom is `u32::MAX` and the total stretch 2, so `validate` overflows before it picks a
      branch. */
  lemma TwoDefaultItemsOverflow()
    ensures var items := [NewItem(1, None, None), NewItem(1, None, None)];
            && MaxAtLeastMin(items)
            && ProductOverflows(10, items)
            && !Solvable(10, items)
  {
    var items := [NewItem(1, None, None), NewItem(1, None, None)];
    assert items[..1] == [items[0]];
    assert Required(items) == [0, 0] && Stretches(items) == [1, 1];
    SumOfTwo(0, 0);
    SumOfTwo(1, 1);
    assert LowestHeadroom(items) == U32_MAX;
  }

  lemma RemovalKeepsMaxAtLeastMin(before: seq<Item>, grown: seq<Item>, j: nat)
    requires MaxAtLeastMin(before) && SameConstraints(before, grown) && j < |before|
    ensures MaxAtLeastMin(grown[..j] + grown[j + 1..])
  {
    var removed := grown[..j] + grown[j + 1..];
    forall i | 0 <= i < |removed| ensures removed[i].minSize <= removed[i].maxSize {
      if i < j {
        assert removed[i] == grown[i];
      } else {
        assert removed[i] == grown[i + 1];
      }
    }
  }

  /** With no free space left, `validate` changes nothing. */
  lemma ReadyOutcome(size: nat, items: seq<Item>)
    requires items != [] && MaxAtLeastMin(items)
    requires Sum(Required(items)) == size
    ensures ValidateOutcome(size, items, items)
  {
  }

  /** Distributing `q` rounds of stretch and `r` single units over the lifted items fills
      exactly `Sum(Required) + q * total + r`. */
  lemma DistributionFills(before: seq<Item>, lifted: seq<Item>, grown: seq<Item>, after: seq<Item>, q: nat, r: nat)
    requires |lifted| == |before|
    requires forall i :: 0 <= i < |lifted| ==> lifted[i] == before[i].(currentSize := Required(before)[i])
    requires |grown| == |lifted|
    requires forall i :: 0 <= i < |grown| ==>
               grown[i] == lifted[i].(currentSize := lifted[i].currentSize + q * lifted[i].stretch)
    requires Sum(Currents(after)) == Sum(Currents(grown)) + r
    ensures Sum(Currents(after)) == Sum(Required(before)) + q * Sum(Stretches(before)) + r
  {
    assert Stretches(lifted) == Stretches(before);
    assert Currents(lifted) == Required(before);
    SumCurrentsAfterIncrease(lifted, grown, q);
  }

  /** After the distribution every item is at least its minimum, and at least its lifted size
      plus `q` times its stretch. */
  lemma DistributionBounds(before: seq<Item>, after: seq<Item>, q: nat)
    requires Grew(LiftedAndGrown(before, q), after)
    ensures AllAtLeastMin(after)
    ensures forall i :: 0 <= i < |after| ==> after[i].currentSize >= Required(before)[i] + q * before[i].stretch
  {
    var grown := LiftedAndGrown(before, q);
    forall i | 0 <= i < |after|
      ensures after[i].currentSize >= Required(before)[i] + q * before[i].stretch
    {
      assert grown[i].currentSize == Required(before)[i] + q * before[i].stretch;
    }
  }

    /** Lifting every item to its minimum and then growing it by `q` times its stretch gives
      `LiftedAndGrown`, with the constraints unchanged. */
  lemma LiftedThenGrown(before: seq<Item>, lifted: seq<Item>, grown: seq<Item>, q: nat)
    requires |lifted| == |before|
    requires forall i :: 0 <= i < |lifted| ==> lifted[i] == before[i].(currentSize := Required(before)[i])
    requires |grown| == |lifted|
    requires forall i :: 0 <= i < |grown| ==>
               grown[i] == lifted[i].(currentSize := lifted[i].currentSize + q * lifted[i].stretch)
    ensures grown == LiftedAndGrown(before, q)
    ensures Sum(Stretches(grown)) == Sum(Stretches(before))
  {
    assert Stretches(grown) == Stretches(before);
  }

  /** The quotient and remainder the distributing branch hands out add up to the free space. */
  lemma DivModSplit(remaining: nat, total: nat)
    requires total > 0
    ensures (remaining / total) * total + remaining % total == remaining
  {
  }

  /** The distributing branch of `validate` fills the layout exactly. */
  lemma DistributionOutcome(size: nat, before: seq<Item>, after: seq<Item>)
    requires MaxAtLeastMin(before) && TakesDistribution(size, before)
    requires var free := size - Sum(Required(before));
             var total := Sum(Stretches(before));
             Distributed(LiftedAndGrown(before, free / total), total, size, free % total) == Some(after)
    requires SameConstraints(before, after)
    requires Sum(Currents(after)) == size
    requires AllAtLeastMin(after)
    requires forall i :: 0 <= i < |after| ==>
               after[i].currentSize >= Required(before)[i]
                 + (size - Sum(Required(before))) / Sum(Stretches(before)) * before[i].stretch
    ensures ValidateOutcome(size, before, after)
  {
  }

  /** Taking out the item at `j`, solving the rest and putting the item back keeps every
      constraint in place and the item where it was. */
  lemma ReinsertKeepsConstraints(before: seq<Item>, grown: seq<Item>, rest: seq<Item>, solved: seq<Item>,
                                 after: seq<Item>, j: nat)
    requires SameConstraints(before, grown) && j < |grown|
    requires rest == grown[..j] + grown[j + 1..]
    requires SameConstraints(rest, solved)
    requires after == solved[..j] + [grown[j]] + solved[j..]
    ensures SameConstraints(before, after)
    ensures after[j] == grown[j]
  {
    forall i | 0 <= i < |before|
      ensures before[i].stretch == after[i].stretch && before[i].minSize == after[i].minSize
           && before[i].maxSize == after[i].maxSize
    {
      if i < j {
        assert after[i] == solved[i] && rest[i] == grown[i];
      } else if i > j {
        assert after[i] == solved[i - 1] && rest[i - 1] == grown[i];
      }
    }
  }

  /** With no stretch anywhere, growing changes nothing, the rest has no stretch either, and
      reinserting the item gives back the original list. */
  lemma ReinsertWithoutStretch(before: seq<Item>, grown: seq<Item>, rest: seq<Item>, solved: seq<Item>,
                               after: seq<Item>, j: nat, headroom: nat)
    requires Sum(Stretches(before)) == 0 && j < |before|
    requires |grown| == |before|
    requires forall i :: 0 <= i < |grown| ==>
               grown[i] == before[i].(currentSize := before[i].currentSize + headroom * before[i].stretch)
    requires rest == grown[..j] + grown[j + 1..]
    requires |solved| == |rest|
    requires Sum(Stretches(rest)) == 0 ==> solved == rest
    requires after == solved[..j] + [grown[j]] + solved[j..]
    ensures after == before
  {
    ZeroStretch(before);
    assert grown == before;
    SumRemove(Stretches(before), j);
    assert Stretches(rest) == Stretches(before)[..j] + Stretches(before)[j + 1..];
    assert after == before[..j] + [before[j]] + before[j + 1..];
  }

  /** The recursive branch of `validate` leaves the narrowest item grown by headroom times
      its stretch. */
  lemma SaturationOutcome(size: nat, before: seq<Item>, after: seq<Item>)
    requires MaxAtLeastMin(before) && TakesSaturation(size, before)
    requires SameConstraints(before, after)
    requires Sum(Stretches(before)) == 0 ==> after == before
    requires after[LowestSpanIndex(before)].currentSize
               == before[LowestSpanIndex(before)].currentSize
                  + LowestHeadroom(before) * before[LowestSpanIndex(before)].stretch
    ensures ValidateOutcome(size, before, after)
  {
  }
}
