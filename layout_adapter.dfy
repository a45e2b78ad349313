/** The layout adapter of layout.js: the separation callback handed to the
    tree layout, the confidence-based branch lengths and the pass that
    rewrites the layout's coordinates, and transformCoordinates, which turns
    a layout position into a screen position. Coordinates are reals; the
    base layout (`d3.tree`) and the confidence scale are inputs. */
module LayoutAdapter {
  import opened JsText
  import opened GroupIndex

  /** `CONFIG.branchLength`: the range of the confidence scale and the
      length of an edge without confidence. */
  datatype BranchLength = BranchLength(min: real, max: real, default: real)

  /** The lengths used when `CONFIG.branchLength` is absent. */
  const DefaultBranchLength := BranchLength(30.0, 200.0, 100.0)

  function BranchLengthConfig(config: Option<BranchLength>): (c: BranchLength)
    ensures config.Some? ==> c == config.value
    ensures config.None? ==> c.min == 30.0 && c.max == 200.0 && c.default == 100.0
  {
    if config.Some? then config.value else DefaultBranchLength
  }

  /** `d3.scaleLinear().domain([0, 1]).range([min, max])` at v. The layout
      pass applies it to `parseFloat(confidence)`; string parsing is not
      modelled, so `EdgeLength`, `Lengths` and `Reposition` take the
      composed `scale` as a parameter, and this function with
      `ConfidenceScaleRange` describes its numeric half. */
  function ConfidenceScale(c: BranchLength, v: real): real {
    c.min + v * (c.max - c.min)
  }

  /** The scale sends 0 to min and 1 to max, and keeps the order of
      confidences when min <= max. */
  lemma ConfidenceScaleRange(c: BranchLength, v: real, w: real)
    ensures ConfidenceScale(c, 0.0) == c.min && ConfidenceScale(c, 1.0) == c.max
    ensures c.min <= c.max && v <= w ==> ConfidenceScale(c, v) <= ConfidenceScale(c, w)
    ensures c.min <= c.max && 0.0 <= v <= 1.0 ==> c.min <= ConfidenceScale(c, v) <= c.max
  {
    if c.min <= c.max && v <= w {
      ProductNonNegative(w - v, c.max - c.min);
    }
    if c.min <= c.max && 0.0 <= v <= 1.0 {
      ProductNonNegative(v, c.max - c.min);
      ProductNonNegative(1.0 - v, c.max - c.min);
    }
  }

  lemma ProductNonNegative(a: real, b: real)
    requires 0.0 <= a && 0.0 <= b
    ensures 0.0 <= a * b
  {
  }

  /** The separation callback: 1 between two nodes whose names are both
      indexed with the same group position, 2 otherwise (a missing name
      finds nothing in the map). */
  function Separation(index: map<string, Entry>, a: Option<string>, b: Option<string>): (s: int)
    ensures s == 1 || s == 2
    ensures s == 1 <==> (a.Some? && b.Some? && a.value in index && b.value in index &&
                         index[a.value].groupIndex == index[b.value].groupIndex)
  {
    var aOrder := if a.Some? && a.value in index then Some(index[a.value]) else None;
    var bOrder := if b.Some? && b.value in index then Some(index[b.value]) else None;
    if aOrder.Some? && bOrder.Some? && aOrder.value.groupIndex == bOrder.value.groupIndex then 1 else 2
  }

  /** The separation does not depend on the order of its arguments. */
  lemma SeparationSymmetric(index: map<string, Entry>, a: Option<string>, b: Option<string>)
    ensures Separation(index, a, b) == Separation(index, b, a)
  {
  }

  /** With the map built from the group order, two indexed names are
      spaced 1 apart exactly when their last listings are in groups at the
      same position of the order. */
  lemma SeparationOfListings(order: seq<string>, groups: seq<(string, Group)>, a: string, b: string)
    requires a in Index(order, groups) && b in Index(order, groups)
    ensures var ea, eb := Index(order, groups)[a], Index(order, groups)[b];
      Listed(order, groups, a, ea.groupIndex, ea.nodeIndex) &&
      Listed(order, groups, b, eb.groupIndex, eb.nodeIndex) &&
      (Separation(Index(order, groups), Some(a), Some(b)) == 1 <==> ea.groupIndex == eb.groupIndex)
  {
    IndexEntries(order, groups, a);
    IndexEntries(order, groups, b);
  }

  /** transformCoordinates: the screen position of the layout position
      (x, y); any direction other than left, up and down is right. */
  function Transform(direction: string, x: real, y: real): (real, real) {
    if direction == "left" then (-y, x)
    else if direction == "up" then (x, -y)
    else if direction == "down" then (x, y)
    else (y, x)
  }

  /** An unknown direction is drawn as right. */
  lemma TransformDefault(direction: string, x: real, y: real)
    requires direction != "left" && direction != "up" && direction != "down"
    ensures Transform(direction, x, y) == Transform("right", x, y)
  {
  }

  /** The length of the edge above a node: the scaled confidence when the
      node has one, the default length otherwise. `scale` stands for the
      confidence scale applied to parseFloat of the token. */
  function EdgeLength(confidence: Option<string>, scale: string -> real, c: BranchLength): real {
    if confidence.Some? then scale(confidence.value) else c.default
  }

  /** Node i of a layout listed parents first: the root has parent -1, any
      other node a parent listed before it. */
  predicate ParentsFirst(parent: seq<int>) {
    forall i :: 0 <= i < |parent| ==> -1 <= parent[i] < i
  }

  /** The root above node i. */
  function Root(parent: seq<int>, i: nat): (r: nat)
    requires ParentsFirst(parent) && i < |parent|
    ensures r <= i && parent[r] == -1
    decreases i
  {
    if parent[i] == -1 then i else Root(parent, parent[i])
  }

  /** The sum of the edge lengths on the path from the root down to node i. */
  function PathLength(parent: seq<int>, len: seq<real>, i: nat): real
    requires ParentsFirst(parent) && |len| == |parent| && i < |parent|
    decreases i
  {
    if parent[i] == -1 then 0.0 else PathLength(parent, len, parent[i]) + len[i]
  }

  /** The coordinates after the pass, node by node: a root keeps its
      layout position; any other node lies its edge length from its parent
      along the axis the direction names (y for right and left, x for down
      and up), forwards for right and down, backwards for left and up, and
      keeps its layout coordinate on the other axis. Another direction
      leaves every node where the layout put it. */
  predicate Placed(direction: string, parent: seq<int>, len: seq<real>,
                   x0: seq<real>, y0: seq<real>, x: seq<real>, y: seq<real>)
    requires ParentsFirst(parent) && |len| == |parent| == |x0| == |y0| == |x| == |y|
  {
    forall i :: 0 <= i < |parent| ==> PlacedNode(direction, parent, len, x0, y0, x, y, i)
  }

  /** Node i is placed. */
  predicate PlacedNode(direction: string, parent: seq<int>, len: seq<real>,
                       x0: seq<real>, y0: seq<real>, x: seq<real>, y: seq<real>, i: nat)
    requires ParentsFirst(parent) && |len| == |parent| == |x0| == |y0| == |x| == |y| && i < |parent|
  {
    if parent[i] == -1 then x[i] == x0[i] && y[i] == y0[i]
    else
      (x[i] == if direction == "down" then x[parent[i]] + len[i]
               else if direction == "up" then x[parent[i]] - len[i]
               else x0[i]) &&
      (y[i] == if direction == "right" then y[parent[i]] + len[i]
               else if direction == "left" then y[parent[i]] - len[i]
               else y0[i])
  }

  /** Changing the coordinates of node i keeps every node before it placed. */
  lemma PlacedBefore(direction: string, parent: seq<int>, len: seq<real>, x0: seq<real>, y0: seq<real>,
                     x: seq<real>, y: seq<real>, x': seq<real>, y': seq<real>, i: nat)
    requires ParentsFirst(parent) && |len| == |parent| == |x0| == |y0| == |x| == |y| && i < |parent|
    requires |x'| == |y'| == |x| && x' == x[i := x'[i]] && y' == y[i := y'[i]]
    requires forall j :: 0 <= j < i ==> PlacedNode(direction, parent, len, x0, y0, x, y, j)
    ensures forall j :: 0 <= j < i ==> PlacedNode(direction, parent, len, x0, y0, x', y', j)
  {
    forall j | 0 <= j < i
      ensures PlacedNode(direction, parent, len, x0, y0, x', y', j)
    {
      assert PlacedNode(direction, parent, len, x0, y0, x, y, j);
      assert x'[j] == x[j] && y'[j] == y[j];
      if parent[j] != -1 {
        assert x'[parent[j]] == x[parent[j]] && y'[parent[j]] == y[parent[j]];
      }
    }
  }

  /** The coordinates after the pass, in closed form: every node lies its
      path length from its root along the direction's axis. */
  predicate Repositioned(direction: string, parent: seq<int>, len: seq<real>,
                         x0: seq<real>, y0: seq<real>, x: seq<real>, y: seq<real>)
    requires ParentsFirst(parent) && |len| == |parent| == |x0| == |y0| == |x| == |y|
  {
    forall i :: 0 <= i < |parent| ==>
      var r := Root(parent, i);
      (x[i] == if direction == "down" then x0[r] + PathLength(parent, len, i)
               else if direction == "up" then x0[r] - PathLength(parent, len, i)
               else x0[i]) &&
      (y[i] == if direction == "right" then y0[r] + PathLength(parent, len, i)
               else if direction == "left" then y0[r] - PathLength(parent, len, i)
               else y0[i])
  }

  lemma {:induction false} PlacedAt(direction: string, parent: seq<int>, len: seq<real>,
                                    x0: seq<real>, y0: seq<real>, x: seq<real>, y: seq<real>, i: nat)
    requires ParentsFirst(parent) && |len| == |parent| == |x0| == |y0| == |x| == |y| && i < |parent|
    requires Placed(direction, parent, len, x0, y0, x, y)
    ensures var r := Root(parent, i);
      (x[i] == if direction == "down" then x0[r] + PathLength(parent, len, i)
               else if direction == "up" then x0[r] - PathLength(parent, len, i)
               else x0[i]) &&
      (y[i] == if direction == "right" then y0[r] + PathLength(parent, len, i)
               else if direction == "left" then y0[r] - PathLength(parent, len, i)
               else y0[i])
    decreases i
  {
    assert PlacedNode(direction, parent, len, x0, y0, x, y, i);
    if parent[i] != -1 {
      PlacedAt(direction, parent, len, x0, y0, x, y, parent[i]);
    }
  }

  /** Placing every node from its parent, parents first, puts each node at
      its path length from its root. */
  lemma PlacedIsRepositioned(direction: string, parent: seq<int>, len: seq<real>,
                             x0: seq<real>, y0: seq<real>, x: seq<real>, y: seq<real>)
    requires ParentsFirst(parent) && |len| == |parent| == |x0| == |y0| == |x| == |y|
    requires Placed(direction, parent, len, x0, y0, x, y)
    ensures Repositioned(direction, parent, len, x0, y0, x, y)
  {
    forall i | 0 <= i < |parent|
      ensures var r := Root(parent, i);
        (x[i] == if direction == "down" then x0[r] + PathLength(parent, len, i)
                 else if direction == "up" then x0[r] - PathLength(parent, len, i)
                 else x0[i]) &&
        (y[i] == if direction == "right" then y0[r] + PathLength(parent, len, i)
                 else if direction == "left" then y0[r] - PathLength(parent, len, i)
                 else y0[i])
    {
      PlacedAt(direction, parent, len, x0, y0, x, y, i);
    }
  }

  /** The edge lengths of all nodes. */
  function Lengths(confidence: seq<Option<string>>, scale: string -> real, c: BranchLength): (len: seq<real>)
    ensures |len| == |confidence|
    ensures forall i :: 0 <= i < |confidence| ==>
      len[i] == if confidence[i].Some? then scale(confidence[i].value) else c.default
  {
    seq(|confidence|, i requires 0 <= i < |confidence| => EdgeLength(confidence[i], scale, c))
  }

  /** The pass of `wrappedLayout` over the nodes, parents before children:
      each node other than a root is moved to its edge length from its
      parent, along the axis and in the sense of the direction. */
  method Reposition(direction: string, parent: seq<int>, confidence: seq<Option<string>>,
                    scale: string -> real, c: BranchLength, x: array<real>, y: array<real>)
    requires ParentsFirst(parent) && |confidence| == |parent| == x.Length == y.Length
    requires x != y
    modifies x, y
    ensures Placed(direction, parent, Lengths(confidence, scale, c), old(x[..]), old(y[..]), x[..], y[..])
    ensures Repositioned(direction, parent, Lengths(confidence, scale, c), old(x[..]), old(y[..]), x[..], y[..])
  {
    ghost var len := Lengths(confidence, scale, c);
    ghost var x0, y0 := x[..], y[..];
    var i := 0;
    while i < |parent|
      invariant 0 <= i <= |parent|
      invariant forall j :: i <= j < |parent| ==> x[j] == x0[j] && y[j] == y0[j]
      invariant forall j :: 0 <= j < i ==> PlacedNode(direction, parent, len, x0, y0, x[..], y[..], j)
    {
      ghost var xs, ys := x[..], y[..];
      if parent[i] != -1 {
        var length := EdgeLength(confidence[i], scale, c);
        if direction == "right" {
          y[i] := y[parent[i]] + length;
        } else if direction == "left" {
          y[i] := y[parent[i]] - length;
        } else if direction == "down" {
          x[i] := x[parent[i]] + length;
        } else if direction == "up" {
          x[i] := x[parent[i]] - length;
        }
      }
      assert PlacedNode(direction, parent, len, x0, y0, x[..], y[..], i);
      PlacedBefore(direction, parent, len, x0, y0, xs, ys, x[..], y[..], i);
      i := i + 1;
    }
    PlacedIsRepositioned(direction, parent, len, x0, y0, x[..], y[..]);
  }

  /** Where a child is drawn relative to its parent: along the screen's x
      axis, forwards by the edge length for right, left and down, backwards
      for up. Left mode negates the depth twice (once in the pass, once in
      transformCoordinates), so its children grow rightwards like right
      mode's; down and up move the breadth coordinate. */
  lemma ScreenOffset(direction: string, parent: seq<int>, len: seq<real>,
                     x0: seq<real>, y0: seq<real>, x: seq<real>, y: seq<real>, i: nat)
    requires ParentsFirst(parent) && |len| == |parent| == |x0| == |y0| == |x| == |y| && i < |parent|
    requires Placed(direction, parent, len, x0, y0, x, y) && parent[i] != -1
    ensures var p := parent[i];
      direction in {"right", "left", "down"} ==>
        Transform(direction, x[i], y[i]).0 == Transform(direction, x[p], y[p]).0 + len[i]
    ensures var p := parent[i];
      direction == "up" ==> Transform(direction, x[i], y[i]).0 == Transform(direction, x[p], y[p]).0 - len[i]
    ensures direction == "up" || direction == "down" ==> Transform(direction, x[i], y[i]).1 == Transform(direction, x0[i], y0[i]).1
    ensures direction !in {"right", "left", "down", "up"} ==>
      Transform(direction, x[i], y[i]) == Transform(direction, x0[i], y0[i])
  {
    assert PlacedNode(direction, parent, len, x0, y0, x, y, i);
  }

  /** A child without confidence, in the default configuration and the
      default direction, is drawn 100 units to the right of its root. */
  lemma DefaultEdgeDrawn(scale: string -> real, x0: seq<real>, y0: seq<real>, x: seq<real>, y: seq<real>)
    requires |x0| == |y0| == |x| == |y| == 2
    requires Placed("right", [-1, 0], Lengths([None, None], scale, BranchLengthConfig(None)), x0, y0, x, y)
    ensures Transform("right", x[1], y[1]).0 == Transform("right", x[0], y[0]).0 + 100.0
    ensures Transform("right", x[1], y[1]).1 == Transform("right", x0[1], y0[1]).1
  {
    var len := Lengths([None, None], scale, BranchLengthConfig(None));
    assert len[1] == 100.0;
    assert PlacedNode("right", [-1, 0], len, x0, y0, x, y, 1);
  }
}
