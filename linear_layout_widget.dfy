/** The item bookkeeping of the linear layout widget: each item may carry a maximum size, and
    the widget looks for the item with the least room between its minimum and its maximum. */
module LinearLayoutWidget {
  import opened Common

  /** An item of the widget: the child it holds (if any, by identity), its stretch, its
      minimum and an optional maximum. */
  datatype Item = Item(widget: Option<nat>, stretch: nat, minItemSize: nat, maxItemSize: Option<nat>)

  /** The subtraction in `min_max_diff` does not underflow. */
  predicate Consistent(item: Item) {
    item.maxItemSize.Some? ==> item.minItemSize <= item.maxItemSize.value
  }

  /** `Item::min_max_diff`: the room between minimum and maximum, `None` for an item
      without a maximum. */
  function MinMaxDiff(item: Item): (r: Option<nat>)
    requires Consistent(item)
    ensures r.None? <==> item.maxItemSize.None?
    ensures r.Some? ==> item.minItemSize + r.value == item.maxItemSize.value
  {
    match item.maxItemSize
    case None => None
    case Some(max) => Some(max - item.minItemSize)
  }

  /** `get_lowest_min_max_diff_idx`: `None` for no items; otherwise the earliest item with the
      smallest difference among the items that have a maximum, or the first item when none
      has one. */
  method GetLowestMinMaxDiffIdx(items: seq<Item>) returns (result: Option<nat>)
    requires forall k :: 0 <= k < |items| ==> Consistent(items[k])
    ensures result.None? <==> items == []
    ensures result.Some? ==> result.value < |items|
    ensures result.Some? && MinMaxDiff(items[result.value]).None? ==>
              result.value == 0 && forall k :: 0 <= k < |items| ==> MinMaxDiff(items[k]).None?
    ensures result.Some? && MinMaxDiff(items[result.value]).Some? ==>
              var lowest := MinMaxDiff(items[result.value]).value;
              (forall k :: 0 <= k < |items| && MinMaxDiff(items[k]).Some? ==> lowest <= MinMaxDiff(items[k]).value)
              && (forall k :: 0 <= k < result.value && MinMaxDiff(items[k]).Some? ==> lowest < MinMaxDiff(items[k]).value)
  {
    if |items| > 0 {
      var lowestIdx := 0;
      var lowest := MinMaxDiff(items[0]);
      var idx := 1;
      while idx < |items|
        invariant 1 <= idx <= |items|
        invariant lowestIdx < idx && lowest == MinMaxDiff(items[lowestIdx])
        invariant lowest.None? ==> lowestIdx == 0 && forall k :: 0 <= k < idx ==> MinMaxDiff(items[k]).None?
        invariant lowest.Some? ==>
                    (forall k :: 0 <= k < idx && MinMaxDiff(items[k]).Some? ==> lowest.value <= MinMaxDiff(items[k]).value)
                    && (forall k :: 0 <= k < lowestIdx && MinMaxDiff(items[k]).Some? ==> lowest.value < MinMaxDiff(items[k]).value)
      {
        var potentialLowest := MinMaxDiff(items[idx]);
        match potentialLowest {
          case Some(potentialNewVal) =>
            match lowest {
              case Some(oldVal) =>
                if potentialNewVal < oldVal {
                  lowest := Some(potentialNewVal);
                  lowestIdx := idx;
                }
              case None =>
                lowest := Some(potentialNewVal);
                lowestIdx := idx;
            }
          case None =>
        }
        idx := idx + 1;
      }
      return Some(lowestIdx);
    } else {
      return None;
    }
  }
}
