/** The older linear solver: an axis of `goal` units is shared among items that each carry
    a stretch, a minimum and a maximum and are paired with their current size. Every panic of
    the source (indexing an empty list, dividing by a zero total stretch, an unsigned
    subtraction that underflows) is the outcome `None`. */
module LinearLayout {
  import opened Common

  /** An item of the linear layout; the widget handle it carries plays no part in sizing. */
  datatype Item = Item(stretch: nat, minItemSize: nat, maxItemSize: nat)

  /** `Item::default`: stretch 1, no minimum, the largest `u32` as maximum. */
  const DEFAULT_ITEM: Item := Item(1, 0, U32_MAX)

  /** An item paired with its current size. */
  type Sized = (Item, nat)

  function Stretches(items: seq<Sized>): seq<nat> {
    seq(|items|, i requires 0 <= i < |items| => items[i].0.stretch)
  }

  function Sizes(items: seq<Sized>): seq<nat> {
    seq(|items|, i requires 0 <= i < |items| => items[i].1)
  }

  /** What each item needs before any free space is handed out: `max(current, min)`. */
  function Requirements(items: seq<Sized>): seq<nat> {
    seq(|items|, i requires 0 <= i < |items| => Max(items[i].1, items[i].0.minItemSize) as nat)
  }

  /** `get_total_stretch`. */
  method GetTotalStretch(items: seq<Sized>) returns (result: nat)
    ensures result == Sum(Stretches(items))
  {
    result := 0;
    var i := 0;
    while i < |items|
      invariant 0 <= i <= |items|
      invariant result == Sum(Stretches(items)[..i])
    {
      SumPrefixStep(Stretches(items), i);
      result := result + items[i].0.stretch;
      i := i + 1;
    }
    assert Stretches(items)[..|items|] == Stretches(items);
  }

  /** `get_item_max_size`: the item's maximum, capped by its whole share of `goal`, that is
      `goal / total_stretch` (integer division) times its stretch. */
  function ItemMaxSize(goal: nat, totalStretch: nat, item: Item): (r: nat)
    requires totalStretch > 0
    ensures r <= item.maxItemSize && r <= goal / totalStretch * item.stretch
    ensures r == item.maxItemSize || r == goal / totalStretch * item.stretch
  {
    Min(item.maxItemSize, goal / totalStretch * item.stretch) as nat
  }

  /** `get_item_min_max_diff`: the capped maximum minus the minimum; `None` when that
      subtraction underflows. */
  function ItemMinMaxDiff(goal: nat, totalStretch: nat, item: Item): (r: Option<nat>)
    requires totalStretch > 0
    ensures r.None? <==> ItemMaxSize(goal, totalStretch, item) < item.minItemSize
    ensures r.Some? ==> r.value + item.minItemSize == ItemMaxSize(goal, totalStretch, item)
  {
    var maxSize := ItemMaxSize(goal, totalStretch, item);
    if maxSize < item.minItemSize then None else Some(maxSize - item.minItemSize)
  }

  /** Every one of the first `n` items has a defined min-max difference. */
  predicate DiffsDefinedUpTo(goal: nat, totalStretch: nat, items: seq<Sized>, n: nat)
    requires totalStretch > 0 && n <= |items|
  {
    forall k :: 0 <= k < n ==> ItemMinMaxDiff(goal, totalStretch, items[k].0).Some?
  }

  /** Every item of the list has a defined min-max difference. */
  predicate DiffsDefined(goal: nat, totalStretch: nat, items: seq<Sized>)
    requires totalStretch > 0
  {
    DiffsDefinedUpTo(goal, totalStretch, items, |items|)
  }

  /** `(d1, s1)` comes strictly before `(d2, s2)`: a smaller difference, or the same
      difference and a smaller stretch. */
  predicate Before(d1: nat, s1: nat, d2: nat, s2: nat) {
    d1 < d2 || (d1 == d2 && s1 < s2)
  }

  /** The `(index, diff, stretch)` the scan of `LowestMinMaxDiff::get` holds after the first
      `n` items: the earliest item whose (difference, stretch) pair is smallest. */
  function Lowest(goal: nat, totalStretch: nat, items: seq<Sized>, n: nat): (best: (nat, nat, nat))
    requires totalStretch > 0 && 1 <= n <= |items| && DiffsDefinedUpTo(goal, totalStretch, items, n)
    ensures best.0 < n
    ensures best.1 == ItemMinMaxDiff(goal, totalStretch, items[best.0].0).value
    ensures best.2 == items[best.0].0.stretch
  {
    if n == 1 then (0, ItemMinMaxDiff(goal, totalStretch, items[0].0).value, items[0].0.stretch)
    else
      var prev := Lowest(goal, totalStretch, items, n - 1);
      var d := ItemMinMaxDiff(goal, totalStretch, items[n - 1].0).value;
      var s := items[n - 1].0.stretch;
      if Before(d, s, prev.1, prev.2) then (n - 1, d, s) else prev
  }

  /** The result of `LowestMinMaxDiff::get`. */
  datatype LowestMinMaxDiff = LowestMinMaxDiff(index: nat, diff: nat)

  /** What `LowestMinMaxDiff::get` gives, with `None` for its panics: an empty list, a zero
      total stretch, or an item whose difference underflows. */
  function LowestMinMaxDiffOf(goal: nat, items: seq<Sized>): Option<LowestMinMaxDiff>
  {
    var total := Sum(Stretches(items));
    if items == [] || total == 0 || !DiffsDefined(goal, total, items) then None
    else
      var best := Lowest(goal, total, items, |items|);
      Some(LowestMinMaxDiff(best.0, best.1))
  }

  /** `LowestMinMaxDiff::get`. */
  method GetLowestMinMaxDiff(goal: nat, items: seq<Sized>) returns (result: Option<LowestMinMaxDiff>)
    ensures result == LowestMinMaxDiffOf(goal, items)
  {
    var totalStretch := GetTotalStretch(items);
    if items == [] || totalStretch == 0 {
      return None;
    }
    var lowestIdx := 0;
    var lowestStretch := items[0].0.stretch;
    var first := ItemMinMaxDiff(goal, totalStretch, items[0].0);
    if first.None? {
      return None;
    }
    var lowestDiff := first.value;
    var potentialLowestIdx := 1;
    while potentialLowestIdx < |items|
      invariant 1 <= potentialLowestIdx <= |items|
      invariant DiffsDefinedUpTo(goal, totalStretch, items, potentialLowestIdx)
      invariant (lowestIdx, lowestDiff, lowestStretch) == Lowest(goal, totalStretch, items, potentialLowestIdx)
    {
      var potential := ItemMinMaxDiff(goal, totalStretch, items[potentialLowestIdx].0);
      if potential.None? {
        return None;
      }
      var potentialLowestStretch := items[potentialLowestIdx].0.stretch;
      if potential.value < lowestDiff || (potential.value == lowestDiff && potentialLowestStretch < lowestStretch) {
        lowestDiff := potential.value;
        lowestStretch := potentialLowestStretch;
        lowestIdx := potentialLowestIdx;
      }
      potentialLowestIdx := potentialLowestIdx + 1;
    }
    result := Some(LowestMinMaxDiff(lowestIdx, lowestDiff));
  }

  /** `get_remainder` in closed form: the goal minus every item's requirement, only when the
      goal exceeds their sum strictly (an empty list leaves the whole goal). */
  function Remainder(goal: nat, items: seq<Sized>): Option<nat>
  {
    if items == [] then Some(goal)
    else if Sum(Requirements(items)) < goal then Some(goal - Sum(Requirements(items)))
    else None
  }

  /** `get_remainder`: subtract each requirement in turn, giving up as soon as the running goal
      is not strictly larger than the next requirement. */
  method GetRemainder(goal: nat, items: seq<Sized>) returns (result: Option<nat>)
    ensures result == Remainder(goal, items)
  {
    var goalTotal := goal;
    var i := 0;
    while i < |items|
      invariant 0 <= i <= |items|
      invariant goalTotal + Sum(Requirements(items)[..i]) == goal
      invariant i > 0 ==> goalTotal > 0
    {
      SumPrefixStep(Requirements(items), i);
      var itemRequiredSize := Max(items[i].1, items[i].0.minItemSize) as nat;
      if goalTotal > itemRequiredSize {
        goalTotal := goalTotal - itemRequiredSize;
      } else {
        SumPrefixAtMostSum(Requirements(items), i + 1);
        return None;
      }
      i := i + 1;
    }
    assert Requirements(items)[..|items|] == Requirements(items);
    result := Some(goalTotal);
  }

  /** Every item grown by `diff` times its stretch. */
  function Increased(items: seq<Sized>, diff: nat): (r: seq<Sized>)
    ensures |r| == |items|
    ensures forall i :: 0 <= i < |r| ==> r[i] == (items[i].0, items[i].1 + diff * items[i].0.stretch)
  {
    seq(|items|, i requires 0 <= i < |items| => (items[i].0, items[i].1 + diff * items[i].0.stretch))
  }

  /** `increase_every_item_size`. */
  method IncreaseEveryItemSize(diff: nat, items: seq<Sized>) returns (result: seq<Sized>)
    ensures result == Increased(items, diff)
  {
    result := items;
    var i := 0;
    while i < |result|
      invariant 0 <= i <= |result| == |items|
      invariant forall k :: 0 <= k < i ==> result[k] == (items[k].0, items[k].1 + diff * items[k].0.stretch)
      invariant forall k :: i <= k < |result| ==> result[k] == items[k]
    {
      result := result[i := (result[i].0, result[i].1 + diff * result[i].0.stretch)];
      i := i + 1;
    }
  }

  /** Every item lifted to at least its minimum. */
  function Lifted(items: seq<Sized>): (r: seq<Sized>)
    ensures |r| == |items|
    ensures forall i :: 0 <= i < |r| ==> r[i] == (items[i].0, Requirements(items)[i])
  {
    seq(|items|, i requires 0 <= i < |items| => (items[i].0, Max(items[i].0.minItemSize, items[i].1) as nat))
  }

  /** The round-robin loop: starting at `idx`, hand out `count` single units, one per item,
      wrapping back to the first item after the last. */
  function RoundRobin(sizes: seq<nat>, idx: nat, count: nat): (r: seq<nat>)
    requires idx < |sizes|
    ensures |r| == |sizes|
    decreases count
  {
    if count == 0 then sizes
    else RoundRobin(sizes[idx := sizes[idx] + 1], if idx + 1 == |sizes| then 0 else idx + 1, count - 1)
  }

  /** `sizes` after `m` units were handed out round-robin from the first item: every item has
      `m / n` more, and the first `m % n` items one more still. */
  function Spread(sizes: seq<nat>, m: nat): (r: seq<nat>)
    requires |sizes| > 0
    ensures |r| == |sizes|
  {
    seq(|sizes|, i requires 0 <= i < |sizes| =>
      sizes[i] + m / |sizes| + if i < m % |sizes| then 1 else 0)
  }

  /** What `get_items_sizes_impl` returns, one size per item in input order; `None` when it
      panics. */
  function ItemsSizes(goal: nat, items: seq<Sized>): (r: Option<seq<nat>>)
    ensures r.Some? ==> |r.value| == |items|
    decreases |items|, 1
  {
    match LowestMinMaxDiffOf(goal, items)
    case None => None
    case Some(lowest) =>
      var remainder := Remainder(goal, items);
      var total := Sum(Stretches(items));
      if lowest.diff * total <= (if remainder.Some? then remainder.value else 0) then
        ItemsSizesWithout(goal, Increased(items, lowest.diff), lowest.index)
      else if remainder.None? then Some(Sizes(items))
      else
        var lifted := Lifted(Increased(items, remainder.value / total));
        Some(RoundRobin(Sizes(lifted), 0, remainder.value % total))
  }

  /** The recursive branch of `get_items_sizes_impl` once every item has grown: take the item
      at `index` out, solve the rest for what is left of the goal, and put the item's size
      back at its index. */
  function ItemsSizesWithout(goal: nat, grown: seq<Sized>, index: nat): (r: Option<seq<nat>>)
    requires index < |grown|
    ensures r.Some? ==> |r.value| == |grown|
    decreases |grown|, 0
  {
    var size := grown[index].1;
    if goal < size then None
    else match ItemsSizes(goal - size, grown[..index] + grown[index + 1..])
      case None => None
      case Some(rest) => Some(rest[..index] + [size] + rest[index..])
  }

  /** `get_items_sizes_impl`. */
  method GetItemsSizesImpl(goal: nat, items: seq<Sized>) returns (result: Option<seq<nat>>)
    ensures result == ItemsSizes(goal, items)
    decreases |items|, 1
  {
    var remainder := GetRemainder(goal, items);
    var lowest := GetLowestMinMaxDiff(goal, items);
    if lowest.None? {
      return None;
    }
    var totalStretch := GetTotalStretch(items);
    var required := lowest.value.diff * totalStretch;
    if required <= (if remainder.Some? then remainder.value else 0) {
      result := SolveWithoutLowest(goal, items, lowest.value);
    } else {
      var sizes := SpreadRemainder(goal, items, remainder, totalStretch);
      result := Some(sizes);
    }
  }

  /** The branch of `get_items_sizes_impl` where the remainder covers the lowest difference
      for every unit of stretch: grow every item by that difference, take the lowest item out,
      solve the rest for what is left of the goal and put the item's size back at its index. */
  method SolveWithoutLowest(goal: nat, items: seq<Sized>, lowest: LowestMinMaxDiff) returns (result: Option<seq<nat>>)
    requires LowestMinMaxDiffOf(goal, items) == Some(lowest)
    requires var remainder := Remainder(goal, items);
             lowest.diff * Sum(Stretches(items)) <= if remainder.Some? then remainder.value else 0
    ensures result == ItemsSizes(goal, items)
    decreases |items|, 0
  {
    var grown := IncreaseEveryItemSize(lowest.diff, items);
    var size := grown[lowest.index].1;
    if goal < size {
      return None;
    }
    var rest := grown[..lowest.index] + grown[lowest.index + 1..];
    var sizes := GetItemsSizesImpl(goal - size, rest);
    if sizes.None? {
      return None;
    }
    result := Some(sizes.value[..lowest.index] + [size] + sizes.value[lowest.index..]);
  }

  /** The branch of `get_items_sizes_impl` where the remainder (if any) is spread over the
      items: grow each by its stretch times `remainder / total_stretch`, lift each to its
      minimum, and hand out the last `remainder % total_stretch` units round-robin. */
  method SpreadRemainder(goal: nat, items: seq<Sized>, remainder: Option<nat>, totalStretch: nat) returns (sizes: seq<nat>)
    requires LowestMinMaxDiffOf(goal, items).Some?
    requires remainder == Remainder(goal, items) && totalStretch == Sum(Stretches(items))
    requires LowestMinMaxDiffOf(goal, items).value.diff * totalStretch > if remainder.Some? then remainder.value else 0
    ensures Some(sizes) == ItemsSizes(goal, items)
  {
    var current := items;
    if remainder.Some? {
      var diff := remainder.value / totalStretch;
      var remainderAfterAddingDiff := remainder.value % totalStretch;
      current := IncreaseEveryItemSize(diff, current);
      current := LiftToMinimum(current);
      current := HandOutRoundRobin(current, remainderAfterAddingDiff);
    }
    sizes := CollectSizes(current);
  }

  /** The loop of `get_items_sizes_impl` that lifts every item to at least its minimum. */
  method LiftToMinimum(items: seq<Sized>) returns (result: seq<Sized>)
    ensures result == Lifted(items)
  {
    result := items;
    var i := 0;
    while i < |result|
      invariant 0 <= i <= |result| == |items|
      invariant forall k :: 0 <= k < i ==> result[k] == Lifted(items)[k]
      invariant forall k :: i <= k < |result| ==> result[k] == items[k]
    {
      result := result[i := (result[i].0, Max(result[i].0.minItemSize, result[i].1) as nat)];
      i := i + 1;
    }
  }

  /** The round-robin loop of `get_items_sizes_impl`: `count` single units, one item after
      the other from the first, wrapping around. */
  method HandOutRoundRobin(items: seq<Sized>, count: nat) returns (result: seq<Sized>)
    requires |items| > 0
    ensures |result| == |items|
    ensures Sizes(result) == RoundRobin(Sizes(items), 0, count)
  {
    result := items;
    var remaining := count;
    var idx := 0;
    while remaining > 0
      invariant |result| == |items| && idx < |result|
      invariant RoundRobin(Sizes(result), idx, remaining) == RoundRobin(Sizes(items), 0, count)
    {
      assert Sizes(result)[idx := Sizes(result)[idx] + 1] == Sizes(result[idx := (result[idx].0, result[idx].1 + 1)]);
      result := result[idx := (result[idx].0, result[idx].1 + 1)];
      idx := idx + 1;
      remaining := remaining - 1;
      if idx == |result| {
        idx := 0;
      }
    }
  }

  /** The closing loop of `get_items_sizes_impl`: the current size of every item, in order. */
  method CollectSizes(items: seq<Sized>) returns (sizes: seq<nat>)
    ensures sizes == Sizes(items)
  {
    sizes := [];
    var k := 0;
    while k < |items|
      invariant 0 <= k <= |items|
      invariant sizes == Sizes(items)[..k]
    {
      sizes := sizes + [items[k].1];
      k := k + 1;
    }
    assert Sizes(items)[..|items|] == Sizes(items);
  }

  /** Every item paired with the current size 0. */
  function Unsized(items: seq<Item>): (r: seq<Sized>)
    ensures |r| == |items|
    ensures forall i :: 0 <= i < |items| ==> r[i] == (items[i], 0)
  {
    seq(|items|, i requires 0 <= i < |items| => (items[i], 0))
  }

  /** `get_items_sizes`: pair every item with size 0 and solve. */
  method GetItemsSizes(goal: nat, items: seq<Item>) returns (result: Option<seq<nat>>)
    ensures result == ItemsSizes(goal, Unsized(items))
    ensures result.Some? ==> |result.value| == |items|
  {
    var itemsWithWidth: seq<Sized> := [];
    var i := 0;
    while i < |items|
      invariant 0 <= i <= |items|
      invariant itemsWithWidth == Unsized(items[..i])
    {
      itemsWithWidth := itemsWithWidth + [(items[i], 0)];
      i := i + 1;
    }
    assert items[..|items|] == items;
    result := GetItemsSizesImpl(goal, itemsWithWidth);
  }

  // ---------------------------------------------------------------------------------------
  // Lemmas

  /** The scan of `LowestMinMaxDiff::get` finds the earliest item whose (difference, stretch)
      pair is smallest: no item of the first `n` comes strictly before it, and every item
      ahead of it comes strictly after it. */
  lemma {:induction false} LowestIsEarliestMinimum(goal: nat, totalStretch: nat, items: seq<Sized>, n: nat)
    requires totalStretch > 0 && 1 <= n <= |items| && DiffsDefinedUpTo(goal, totalStretch, items, n)
    ensures var best := Lowest(goal, totalStretch, items, n);
            forall k :: 0 <= k < n ==>
              !Before(ItemMinMaxDiff(goal, totalStretch, items[k].0).value, items[k].0.stretch, best.1, best.2)
    ensures var best := Lowest(goal, totalStretch, items, n);
            forall k :: 0 <= k < best.0 ==>
              Before(best.1, best.2, ItemMinMaxDiff(goal, totalStretch, items[k].0).value, items[k].0.stretch)
  {
    if n > 1 {
      LowestIsEarliestMinimum(goal, totalStretch, items, n - 1);
    }
  }

  /** The cap `get_item_max_size` puts on an item never exceeds the item's share of the goal:
      `max * total_stretch <= goal * stretch`. */
  lemma ItemMaxSizeWithinShare(goal: nat, totalStretch: nat, item: Item)
    requires totalStretch > 0
    ensures ItemMaxSize(goal, totalStretch, item) * totalStretch <= goal * item.stretch
  {
    var q := goal / totalStretch;
    assert q * totalStretch <= goal;
    var m := ItemMaxSize(goal, totalStretch, item);
    assert m <= q * item.stretch;
    assert m * totalStretch <= q * item.stretch * totalStretch;
    assert q * item.stretch * totalStretch == q * totalStretch * item.stretch;
    assert q * totalStretch * item.stretch <= goal * item.stretch;
  }

  /** One more unit handed out round-robin: the quotient and remainder by `n` step together. */
  lemma DivModStep(m: nat, n: nat)
    requires n > 0
    ensures m % n + 1 < n ==> (m + 1) / n == m / n && (m + 1) % n == m % n + 1
    ensures m % n + 1 == n ==> (m + 1) / n == m / n + 1 && (m + 1) % n == 0
  {
    var q := m / n;
    var r := m % n;
    assert m == q * n + r;
    if r + 1 < n {
      assert m + 1 == q * n + (r + 1);
      DivModUnique(m + 1, n, q, r + 1);
    } else {
      assert m + 1 == (q + 1) * n;
      DivModUnique(m + 1, n, q + 1, 0);
    }
  }

  /** Quotient and remainder are the only pair that rebuilds the dividend. */
  lemma DivModUnique(a: nat, n: nat, q: nat, r: nat)
    requires n > 0 && r < n && a == q * n + r
    ensures a / n == q && a % n == r
  {
    var q' := a / n;
    var r' := a % n;
    assert a == q' * n + r';
    if q' < q {
      MulMonotone(q' + 1, q, n);
      assert false;
    } else if q < q' {
      MulMonotone(q + 1, q', n);
      assert false;
    }
  }

  lemma MulMonotone(x: nat, y: nat, n: nat)
    requires x <= y
    ensures x * n <= y * n
  {
    assert y * n == x * n + (y - x) * n;
  }

  /** Handing out `count` more units from where `m` units left off gives the spread of
      `m + count` units. */
  lemma {:induction false} RoundRobinFrom(sizes: seq<nat>, m: nat, count: nat)
    requires |sizes| > 0
    ensures RoundRobin(Spread(sizes, m), m % |sizes|, count) == Spread(sizes, m + count)
    decreases count
  {
    if count > 0 {
      var n := |sizes|;
      var idx := m % n;
      DivModStep(m, n);
      var next := Spread(sizes, m)[idx := Spread(sizes, m)[idx] + 1];
      assert next == Spread(sizes, m + 1);
      assert (if idx + 1 == n then 0 else idx + 1) == (m + 1) % n;
      RoundRobinFrom(sizes, m + 1, count - 1);
    }
  }

  /** The round-robin loop of `get_items_sizes_impl`: from the first item, `count` units give
      every item `count / n` more and the first `count % n` items one more still. */
  lemma RoundRobinSpread(sizes: seq<nat>, count: nat)
    requires |sizes| > 0
    ensures forall i :: 0 <= i < |sizes| ==>
              RoundRobin(sizes, 0, count)[i] == sizes[i] + count / |sizes| + if i < count % |sizes| then 1 else 0
  {
    assert Spread(sizes, 0) == sizes;
    RoundRobinFrom(sizes, 0, count);
  }

  /** `get_remainder` on the commented test values: 8 from 50, and `None` from 40, from an
      exact fit at 42 and from 0. */
  lemma RemainderExamples()
    ensures var items := [(DEFAULT_ITEM, 25), (DEFAULT_ITEM, 15), (DEFAULT_ITEM, 2)];
            && Remainder(50, items) == Some(8)
            && Remainder(40, items).None? && Remainder(42, items).None? && Remainder(0, items).None?
  {
    var items := [(DEFAULT_ITEM, 25), (DEFAULT_ITEM, 15), (DEFAULT_ITEM, 2)];
    assert Requirements(items) == [25, 15, 2];
    SumOfThree(25, 15, 2);
  }

  /** `get_item_max_size` and `get_item_min_max_diff` on the commented test values. */
  lemma ItemMaxSizeExamples()
    ensures ItemMaxSize(100, 5, DEFAULT_ITEM) == 20
    ensures ItemMaxSize(100, 3, DEFAULT_ITEM) == 33
    ensures ItemMaxSize(100, 3, DEFAULT_ITEM.(maxItemSize := 10)) == 10
    ensures ItemMaxSize(100, 20, DEFAULT_ITEM.(maxItemSize := 10)) == 5
    ensures ItemMinMaxDiff(100, 5, DEFAULT_ITEM.(minItemSize := 10)) == Some(10)
    ensures ItemMinMaxDiff(100, 5, DEFAULT_ITEM.(minItemSize := 10, maxItemSize := 15)) == Some(5)
  {
  }

  /** `LowestMinMaxDiff::get` on three default items: all share the difference
      `goal / 3`, and the first one is kept. */
  lemma LowestOfThreeDefaults(goal: nat)
    ensures LowestMinMaxDiffOf(goal, [(DEFAULT_ITEM, 0), (DEFAULT_ITEM, 0), (DEFAULT_ITEM, 0)])
            == Some(LowestMinMaxDiff(0, Min(U32_MAX, goal / 3) as nat))
  {
    var items := [(DEFAULT_ITEM, 0), (DEFAULT_ITEM, 0), (DEFAULT_ITEM, 0)];
    assert Stretches(items) == [1, 1, 1];
    SumOfThree(1, 1, 1);
    var d := Min(U32_MAX, goal / 3) as nat;
    assert ItemMinMaxDiff(goal, 3, DEFAULT_ITEM) == Some(d);
    assert DiffsDefined(goal, 3, items);
    assert Lowest(goal, 3, items, 1) == (0, d, 1);
    assert Lowest(goal, 3, items, 2) == (0, d, 1);
    assert Lowest(goal, 3, items, 3) == (0, d, 1);
  }

  /** `get_items_sizes_impl` on three default items and a goal of 6: two units each. */
  lemma ItemsSizesEvenSplit()
    ensures ItemsSizes(6, [(DEFAULT_ITEM, 0), (DEFAULT_ITEM, 0), (DEFAULT_ITEM, 0)]) == Some([2, 2, 2])
  {
    var items := [(DEFAULT_ITEM, 0), (DEFAULT_ITEM, 0), (DEFAULT_ITEM, 0)];
    LowestOfThreeDefaults(6);
    assert Stretches(items) == [1, 1, 1];
    SumOfThree(1, 1, 1);
    assert Requirements(items) == [0, 0, 0];
    SumOfThree(0, 0, 0);
    assert Remainder(6, items) == Some(6);
    var grown := Increased(items, 2);
    assert grown == [(DEFAULT_ITEM, 2), (DEFAULT_ITEM, 2), (DEFAULT_ITEM, 2)];
    var rest := [(DEFAULT_ITEM, 2), (DEFAULT_ITEM, 2)];
    assert LowestMinMaxDiffOf(6, items) == Some(LowestMinMaxDiff(0, 2));
    assert ItemsSizes(6, items) == ItemsSizesWithout(6, grown, 0);
    assert grown[..0] + grown[1..] == rest;
    RestOfEvenSplit();
    assert [2, 2][..0] + [2] + [2, 2][0..] == [2, 2, 2];
  }

  /** The recursive step of `ItemsSizesEvenSplit`: two items already at 2 and a goal of 4
      leave no remainder, so their sizes stand. */
  lemma RestOfEvenSplit()
    ensures ItemsSizes(4, [(DEFAULT_ITEM, 2), (DEFAULT_ITEM, 2)]) == Some([2, 2])
  {
    var rest := [(DEFAULT_ITEM, 2), (DEFAULT_ITEM, 2)];
    assert Stretches(rest) == [1, 1];
    SumOfTwo(1, 1);
    assert Requirements(rest) == [2, 2];
    SumOfTwo(2, 2);
    assert Remainder(4, rest).None?;
    assert ItemMinMaxDiff(4, 2, DEFAULT_ITEM) == Some(2);
    assert DiffsDefined(4, 2, rest);
    assert Lowest(4, 2, rest, 1) == (0, 2, 1);
    assert Lowest(4, 2, rest, 2) == (0, 2, 1);
    assert LowestMinMaxDiffOf(4, rest) == Some(LowestMinMaxDiff(0, 2));
    assert Sizes(rest) == [2, 2];
  }

  /** `get_items_sizes_impl` on stretches 2, 1, 1 and a goal of 8: 4, 2 and 2. */
  lemma ItemsSizesWeightedSplit()
    ensures ItemsSizes(8, [(DEFAULT_ITEM.(stretch := 2), 0), (DEFAULT_ITEM, 0), (DEFAULT_ITEM, 0)]) == Some([4, 2, 2])
  {
    var wide := DEFAULT_ITEM.(stretch := 2);
    var items := [(wide, 0), (DEFAULT_ITEM, 0), (DEFAULT_ITEM, 0)];
    assert Stretches(items) == [2, 1, 1];
    SumOfThree(2, 1, 1);
    assert Requirements(items) == [0, 0, 0];
    SumOfThree(0, 0, 0);
    assert ItemMinMaxDiff(8, 4, wide) == Some(4);
    assert ItemMinMaxDiff(8, 4, DEFAULT_ITEM) == Some(2);
    assert DiffsDefined(8, 4, items);
    assert Lowest(8, 4, items, 1) == (0, 4, 2);
    assert Lowest(8, 4, items, 2) == (1, 2, 1);
    assert Lowest(8, 4, items, 3) == (1, 2, 1);
    var grown := Increased(items, 2);
    assert grown == [(wide, 4), (DEFAULT_ITEM, 2), (DEFAULT_ITEM, 2)];
    var rest := [(wide, 4), (DEFAULT_ITEM, 2)];
    assert LowestMinMaxDiffOf(8, items) == Some(LowestMinMaxDiff(1, 2));
    assert ItemsSizes(8, items) == ItemsSizesWithout(8, grown, 1);
    assert grown[..1] + grown[2..] == rest;
    RestOfWeightedSplit();
    assert [4, 2][..1] + [2] + [4, 2][1..] == [4, 2, 2];
  }

  /** The recursive step of `ItemsSizesWeightedSplit`: the two items left already fill the
      remaining goal of 6, so their sizes stand. */
  lemma RestOfWeightedSplit()
    ensures ItemsSizes(6, [(DEFAULT_ITEM.(stretch := 2), 4), (DEFAULT_ITEM, 2)]) == Some([4, 2])
  {
    var wide := DEFAULT_ITEM.(stretch := 2);
    var rest := [(wide, 4), (DEFAULT_ITEM, 2)];
    assert Stretches(rest) == [2, 1];
    SumOfTwo(2, 1);
    assert Requirements(rest) == [4, 2];
    SumOfTwo(4, 2);
    assert Remainder(6, rest).None?;
    assert ItemMinMaxDiff(6, 3, wide) == Some(4);
    assert ItemMinMaxDiff(6, 3, DEFAULT_ITEM) == Some(2);
    assert DiffsDefined(6, 3, rest);
    assert Lowest(6, 3, rest, 1) == (0, 4, 2);
    assert Lowest(6, 3, rest, 2) == (1, 2, 1);
    assert LowestMinMaxDiffOf(6, rest) == Some(LowestMinMaxDiff(1, 2));
    assert Sizes(rest) == [4, 2];
  }

  /** `get_items_sizes_impl` on stretches 2, 0, 0 and a goal of 6: the items without stretch
      get nothing, and the stretched item takes the whole goal. */
  lemma ItemsSizesZeroStretches()
    ensures ItemsSizes(6, [(DEFAULT_ITEM.(stretch := 2), 0), (DEFAULT_ITEM.(stretch := 0), 0),
                           (DEFAULT_ITEM.(stretch := 0), 0)])
            == Some([6, 0, 0])
  {
    var wide := DEFAULT_ITEM.(stretch := 2);
    var flat := DEFAULT_ITEM.(stretch := 0);
    var items := [(wide, 0), (flat, 0), (flat, 0)];
    LowestOfZeroStretches();
    var grown := Increased(items, 0);
    assert grown == items;
    var rest := [(wide, 0), (flat, 0)];
    assert ItemsSizes(6, items) == ItemsSizesWithout(6, grown, 1);
    assert grown[..1] + grown[2..] == rest;
    RestOfZeroStretches();
    assert [6, 0][..1] + [0] + [6, 0][1..] == [6, 0, 0];
  }

  /** The first step of `ItemsSizesZeroStretches`: nothing is required yet, and the first
      item without stretch has the lowest difference, 0. */
  lemma LowestOfZeroStretches()
    ensures var items := [(DEFAULT_ITEM.(stretch := 2), 0), (DEFAULT_ITEM.(stretch := 0), 0),
                          (DEFAULT_ITEM.(stretch := 0), 0)];
            && Sum(Stretches(items)) == 2
            && Remainder(6, items) == Some(6)
            && LowestMinMaxDiffOf(6, items) == Some(LowestMinMaxDiff(1, 0))
  {
    var wide := DEFAULT_ITEM.(stretch := 2);
    var flat := DEFAULT_ITEM.(stretch := 0);
    var items := [(wide, 0), (flat, 0), (flat, 0)];
    assert Stretches(items) == [2, 0, 0];
    SumOfThree(2, 0, 0);
    assert Requirements(items) == [0, 0, 0];
    SumOfThree(0, 0, 0);
    assert ItemMinMaxDiff(6, 2, wide) == Some(6);
    assert ItemMinMaxDiff(6, 2, flat) == Some(0);
    assert DiffsDefined(6, 2, items);
    assert Lowest(6, 2, items, 1) == (0, 6, 2);
    assert Lowest(6, 2, items, 2) == (1, 0, 0);
    assert Lowest(6, 2, items, 3) == (1, 0, 0);
  }

  /** The recursive step of `ItemsSizesZeroStretches`: one item without stretch is taken out
      again, with nothing subtracted from the goal. */
  lemma RestOfZeroStretches()
    ensures ItemsSizes(6, [(DEFAULT_ITEM.(stretch := 2), 0), (DEFAULT_ITEM.(stretch := 0), 0)]) == Some([6, 0])
  {
    var wide := DEFAULT_ITEM.(stretch := 2);
    var flat := DEFAULT_ITEM.(stretch := 0);
    var rest := [(wide, 0), (flat, 0)];
    assert Stretches(rest) == [2, 0];
    SumOfTwo(2, 0);
    assert Requirements(rest) == [0, 0];
    SumOfTwo(0, 0);
    assert Remainder(6, rest) == Some(6);
    assert ItemMinMaxDiff(6, 2, wide) == Some(6);
    assert ItemMinMaxDiff(6, 2, flat) == Some(0);
    assert DiffsDefined(6, 2, rest);
    assert Lowest(6, 2, rest, 1) == (0, 6, 2);
    assert Lowest(6, 2, rest, 2) == (1, 0, 0);
    var grown := Increased(rest, 0);
    assert grown == rest;
    assert LowestMinMaxDiffOf(6, rest) == Some(LowestMinMaxDiff(1, 0));
    assert ItemsSizes(6, rest) == ItemsSizesWithout(6, grown, 1);
    assert grown[..1] + grown[2..] == [(wide, 0)];
    LastOfZeroStretches();
    assert [6][..1] + [0] + [6][1..] == [6, 0];
  }

  /** The last step of `ItemsSizesZeroStretches`: the stretched item alone cannot reach its
      difference of 6 per unit of stretch, so the remainder is spread: 6 / 2 units of stretch
      each, nothing left over. */
  lemma LastOfZeroStretches()
    ensures ItemsSizes(6, [(DEFAULT_ITEM.(stretch := 2), 0)]) == Some([6])
  {
    var wide := DEFAULT_ITEM.(stretch := 2);
    var last := [(wide, 0)];
    assert Stretches(last) == [2];
    SumOfOne(2);
    assert Requirements(last) == [0];
    SumOfOne(0);
    assert Remainder(6, last) == Some(6);
    assert ItemMinMaxDiff(6, 2, wide) == Some(6);
    assert DiffsDefined(6, 2, last);
    assert Lowest(6, 2, last, 1) == (0, 6, 2);
    assert LowestMinMaxDiffOf(6, last) == Some(LowestMinMaxDiff(0, 6));
    assert Increased(last, 3) == [(wide, 6)];
    assert Lifted([(wide, 6)]) == [(wide, 6)];
    assert Sizes([(wide, 6)]) == [6];
  }

  /** `get_items_sizes_impl` on stretches 2, 5, 1 and a goal of 8: every item reaches its
      share, 2, 5 and 1. */
  lemma ItemsSizesExactShares()
    ensures ItemsSizes(8, [(DEFAULT_ITEM.(stretch := 2), 0), (DEFAULT_ITEM.(stretch := 5), 0), (DEFAULT_ITEM, 0)])
            == Some([2, 5, 1])
  {
    var two := DEFAULT_ITEM.(stretch := 2);
    var five := DEFAULT_ITEM.(stretch := 5);
    var items := [(two, 0), (five, 0), (DEFAULT_ITEM, 0)];
    assert Stretches(items) == [2, 5, 1];
    SumOfThree(2, 5, 1);
    assert Requirements(items) == [0, 0, 0];
    SumOfThree(0, 0, 0);
    assert ItemMinMaxDiff(8, 8, two) == Some(2);
    assert ItemMinMaxDiff(8, 8, five) == Some(5);
    assert ItemMinMaxDiff(8, 8, DEFAULT_ITEM) == Some(1);
    assert DiffsDefined(8, 8, items);
    assert Lowest(8, 8, items, 1) == (0, 2, 2);
    assert Lowest(8, 8, items, 2) == (0, 2, 2);
    assert Lowest(8, 8, items, 3) == (2, 1, 1);
    var grown := Increased(items, 1);
    assert grown == [(two, 2), (five, 5), (DEFAULT_ITEM, 1)];
    var rest := [(two, 2), (five, 5)];
    assert LowestMinMaxDiffOf(8, items) == Some(LowestMinMaxDiff(2, 1));
    assert ItemsSizes(8, items) == ItemsSizesWithout(8, grown, 2);
    assert grown[..2] + grown[3..] == rest;
    RestOfExactShares();
    assert [2, 5][..2] + [1] + [2, 5][2..] == [2, 5, 1];
  }

  /** The recursive step of `ItemsSizesExactShares`: the two items left already fill the
      remaining goal of 7, so their sizes stand. */
  lemma RestOfExactShares()
    ensures ItemsSizes(7, [(DEFAULT_ITEM.(stretch := 2), 2), (DEFAULT_ITEM.(stretch := 5), 5)]) == Some([2, 5])
  {
    var two := DEFAULT_ITEM.(stretch := 2);
    var five := DEFAULT_ITEM.(stretch := 5);
    var rest := [(two, 2), (five, 5)];
    assert Stretches(rest) == [2, 5];
    SumOfTwo(2, 5);
    assert Requirements(rest) == [2, 5];
    assert Remainder(7, rest).None?;
    assert ItemMinMaxDiff(7, 7, two) == Some(2);
    assert ItemMinMaxDiff(7, 7, five) == Some(5);
    assert DiffsDefined(7, 7, rest);
    assert Lowest(7, 7, rest, 1) == (0, 2, 2);
    assert Lowest(7, 7, rest, 2) == (0, 2, 2);
    assert LowestMinMaxDiffOf(7, rest) == Some(LowestMinMaxDiff(0, 2));
    assert Sizes(rest) == [2, 5];
  }

  /** `increase_every_item_size` on the commented test values: stretches 1, 2, 3 grown by 5
      from 25, 15, 2. */
  lemma IncreasedExample()
    ensures Sizes(Increased([(DEFAULT_ITEM, 25), (DEFAULT_ITEM.(stretch := 2), 15), (DEFAULT_ITEM.(stretch := 3), 2)], 5))
            == [30, 25, 17]
  {
  }

  /** A single default item always panics: its whole remainder fits its difference, so the
      recursion reaches the empty list, where `LowestMinMaxDiff::get` indexes past the end. */
  lemma ItemsSizesSingleItemPanics(goal: nat)
    requires goal > 0
    ensures ItemsSizes(goal, [(DEFAULT_ITEM, 0)]).None?
  {
    var items := [(DEFAULT_ITEM, 0)];
    assert Stretches(items) == [1];
    SumOfOne(1);
    assert Requirements(items) == [0];
    SumOfOne(0);
    assert ItemMinMaxDiff(goal, 1, DEFAULT_ITEM).Some?;
    assert DiffsDefined(goal, 1, items);
    var d := Min(U32_MAX, goal) as nat;
    assert LowestMinMaxDiffOf(goal, items) == Some(LowestMinMaxDiff(0, d));
    var grown := Increased(items, d);
    assert ItemsSizes(goal, items) == ItemsSizesWithout(goal, grown, 0);
    assert grown[..0] + grown[1..] == [];
    assert ItemsSizes(goal - d, []).None?;
  }
}
