/** The transform record of a widget and the ordered list of children a container keeps,
    each child paired with its transform. Widgets are reduced to their identifiers; a
    `panic` of an `unwrap` on a missing identifier is an explicit failure outcome. */
module Components {
  import opened Common

  /** A widget's position relative to its parent (`i32` coordinates, possibly negative) and its
      size (`u32`, never negative). */
  datatype Transform = Transform(x: int, y: int, width: nat, height: nat)

  /** `Transform::default`: position (0, 0) and size (0, 0). */
  function DefaultTransform(): (t: Transform)
    ensures t.x == 0 && t.y == 0 && t.width == 0 && t.height == 0
  {
    Transform(0, 0, 0, 0)
  }

  /** The identity of a widget. */
  type WidgetId = nat

  /** A child of a hierarchy: the widget (by identity) and where it is placed. */
  datatype Child = Child(id: WidgetId, transform: Transform)

  /** The position of the first child carrying `id`, or `None` when no child does. */
  function Position(children: seq<Child>, id: WidgetId): (r: Option<nat>)
    ensures r.None? <==> forall k :: 0 <= k < |children| ==> children[k].id != id
    ensures r.Some? ==> r.value < |children| && children[r.value].id == id
    ensures r.Some? ==> forall k :: 0 <= k < r.value ==> children[k].id != id
  {
    if children == [] then None
    else if children[0].id == id then Some(0)
    else match Position(children[1..], id)
      case None => None
      case Some(p) => Some(p + 1)
  }

  /** The transform of the first child carrying `id`. */
  function TransformOf(children: seq<Child>, id: WidgetId): (r: Option<Transform>)
    ensures r.None? <==> Position(children, id).None?
    ensures r.Some? ==> r.value == children[Position(children, id).value].transform
  {
    match Position(children, id)
    case None => None
    case Some(p) => Some(children[p].transform)
  }

  /** The children after the first child carrying `id` gets transform `t`; unchanged when no
      child carries `id`. */
  function WithTransform(children: seq<Child>, id: WidgetId, t: Transform): (r: seq<Child>)
    ensures |r| == |children|
    ensures forall k :: 0 <= k < |r| ==> r[k].id == children[k].id
    ensures Position(children, id).None? ==> r == children
    ensures Position(children, id).Some? ==>
              var p := Position(children, id).value;
              r[p] == Child(id, t) && forall k :: 0 <= k < |r| && k != p ==> r[k] == children[k]
  {
    match Position(children, id)
    case None => children
    case Some(p) => children[p := Child(id, t)]
  }

  class Hierarchy {
    var children: seq<Child>

    /** `Hierarchy::default`: no children. */
    constructor ()
      ensures children == []
    {
      children := [];
    }

    /** `add`: append the widget with the default transform. */
    method Add(id: WidgetId)
      modifies this
      ensures children == old(children) + [Child(id, DefaultTransform())]
    {
      children := children + [Child(id, DefaultTransform())];
    }

    /** `add_with_transform`: append the widget with the given transform. */
    method AddWithTransform(id: WidgetId, transform: Transform)
      modifies this
      ensures children == old(children) + [Child(id, transform)]
    {
      children := children + [Child(id, transform)];
    }

    /** `remove`: take out the first child carrying `id` and hand its widget back; `None`
        (a panic in the source) when no child carries `id`, and then nothing changes. */
    method Remove(id: WidgetId) returns (removed: Option<WidgetId>)
      modifies this
      ensures old(Index(id)).None? ==> removed.None? && children == old(children)
      ensures old(Index(id)).Some? ==>
                var p := old(Index(id)).value;
                removed == Some(id) && children == old(children[..p] + children[p + 1..])
    {
      var idx := Index(id);
      match idx {
        case None =>
          removed := None;
        case Some(p) =>
          removed := Some(children[p].id);
          children := children[..p] + children[p + 1..];
      }
    }

    /** `set_pos`: move the first child carrying `id`; `ok` is false (a panic in the source)
        when there is none, and then nothing changes. */
    method SetPos(id: WidgetId, x: int, y: int) returns (ok: bool)
      modifies this
      ensures ok <==> old(Index(id)).Some?
      ensures !ok ==> children == old(children)
      ensures ok ==>
                var p := old(Index(id)).value;
                var t := old(children[p].transform);
                children == old(children)[p := Child(id, t.(x := x, y := y))]
    {
      var idx := Index(id);
      if idx.None? {
        return false;
      }
      var p := idx.value;
      children := children[p := children[p].(transform := children[p].transform.(x := x, y := y))];
      ok := true;
    }

    /** `set_size`: resize the first child carrying `id`; `ok` is false (a panic in the
        source) when there is none, and then nothing changes. */
    method SetSize(id: WidgetId, width: nat, height: nat) returns (ok: bool)
      modifies this
      ensures ok <==> old(Index(id)).Some?
      ensures !ok ==> children == old(children)
      ensures ok ==>
                var p := old(Index(id)).value;
                var t := old(children[p].transform);
                children == old(children)[p := Child(id, t.(width := width, height := height))]
    {
      var idx := Index(id);
      if idx.None? {
        return false;
      }
      var p := idx.value;
      children := children[p := children[p].(transform := children[p].transform.(width := width, height := height))];
      ok := true;
    }

    /** `set_transform`: replace the transform of the first child carrying `id`; `ok` is
        false (a panic in the source) when there is none. */
    method SetTransform(id: WidgetId, transform: Transform) returns (ok: bool)
      modifies this
      ensures ok <==> old(Index(id)).Some?
      ensures children == WithTransform(old(children), id, transform)
    {
      var idx := Index(id);
      if idx.None? {
        return false;
      }
      var p := idx.value;
      children := children[p := children[p].(transform := transform)];
      ok := true;
    }

    /** `index`: the position of the first child carrying `id`. */
    function Index(id: WidgetId): (r: Option<nat>)
      reads this
      ensures r.None? <==> forall k :: 0 <= k < |children| ==> children[k].id != id
      ensures r.Some? ==> r.value < |children| && children[r.value].id == id
      ensures r.Some? ==> forall k :: 0 <= k < r.value ==> children[k].id != id
    {
      Position(children, id)
    }

    /** `get_transform`: the transform of the first child carrying `id`; `None` (a panic in the
        source) when there is none. */
    function GetTransform(id: WidgetId): (r: Option<Transform>)
      reads this
      ensures r.None? <==> Index(id).None?
      ensures r.Some? ==> r.value == children[Index(id).value].transform
    {
      TransformOf(children, id)
    }
  }

  // ---------------------------------------------------------------------------------------
  // Lemmas

  /** Appending a child leaves every earlier search result alone, and a search that found
      nothing before now finds the new child. */
  lemma {:induction false} PositionAfterAppend(children: seq<Child>, c: Child, id: WidgetId)
    ensures Position(children + [c], id)
              == if Position(children, id).Some? then Position(children, id)
                 else if c.id == id then Some(|children|)
                 else None
  {
    if children != [] {
      assert (children + [c])[1..] == children[1..] + [c];
      PositionAfterAppend(children[1..], c, id);
    }
  }

  /** After `add_with_transform(c, t)` on a hierarchy that did not hold `c`, `get_transform(c)`
      gives `t`. */
  lemma TransformAfterAdd(children: seq<Child>, id: WidgetId, t: Transform)
    requires Position(children, id).None?
    ensures TransformOf(children + [Child(id, t)], id) == Some(t)
  {
    PositionAfterAppend(children, Child(id, t), id);
  }

  /** Removing the child at `j` keeps the others in order: a child found before `j` keeps
      its position, one found after it moves one place forward. */
  lemma {:induction false} PositionAfterRemoval(children: seq<Child>, j: nat, id: WidgetId)
    requires j < |children| && children[j].id != id
    ensures Position(children[..j] + children[j + 1..], id)
              == match Position(children, id)
                 case None => None
                 case Some(p) => if p < j then Some(p) else Some(p - 1)
  {
    var rest := children[..j] + children[j + 1..];
    assert forall k :: 0 <= k < |rest| ==> rest[k] == if k < j then children[k] else children[k + 1];
    var p := Position(children, id);
    var q := Position(rest, id);
    if p.Some? {
      if p.value < j {
        assert rest[p.value] == children[p.value];
      } else {
        assert rest[p.value - 1] == children[p.value];
      }
    }
    if q.Some? {
      if q.value < j {
        assert rest[q.value] == children[q.value];
      } else {
        assert rest[q.value] == children[q.value + 1];
      }
    }
  }

  /** Setting a transform never changes where any child is found. */
  lemma {:induction false} PositionAfterSetTransform(children: seq<Child>, id: WidgetId, t: Transform, other: WidgetId)
    ensures Position(WithTransform(children, id, t), other) == Position(children, other)
  {
    var r := WithTransform(children, id, t);
    if children != [] {
      assert r[0].id == children[0].id;
      assert forall k :: 0 <= k < |r| - 1 ==> r[1..][k].id == children[1..][k].id;
      SameIdsSamePosition(r[1..], children[1..], other);
    }
  }

  /** `set_transform` followed by `get_transform`: the target reads back the new transform,
      every other child reads back what it had. */
  lemma TransformAfterSetTransform(children: seq<Child>, target: WidgetId, t: Transform, id: WidgetId)
    requires Position(children, target).Some?
    ensures TransformOf(WithTransform(children, target, t), id)
            == if id == target then Some(t) else TransformOf(children, id)
  {
    PositionAfterSetTransform(children, target, t, id);
  }

  /** Two lists with the same identifiers, position by position, agree on every search. */
  lemma {:induction false} SameIdsSamePosition(a: seq<Child>, b: seq<Child>, id: WidgetId)
    requires |a| == |b| && forall k :: 0 <= k < |a| ==> a[k].id == b[k].id
    ensures Position(a, id) == Position(b, id)
  {
    if a != [] {
      SameIdsSamePosition(a[1..], b[1..], id);
    }
  }

  /** The two-child removal of the container tests: after adding `a` and then `b` and
      removing `a`, `a` is no longer found and `b` is at position 0. */
  lemma RemoveFirstOfTwo(a: WidgetId, b: WidgetId, t: Transform)
    requires a != b
    ensures var children := [Child(a, t), Child(b, t)];
            var p := Position(children, a);
            p == Some(0)
            && Position(children[..p.value] + children[p.value + 1..], a).None?
            && Position(children[..p.value] + children[p.value + 1..], b) == Some(0)
  {
    var children := [Child(a, t), Child(b, t)];
    assert children[..0] + children[1..] == [Child(b, t)];
  }
}
