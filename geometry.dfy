/** Grid coordinates (`CityNode`), Manhattan distance and the length of a walk. */
module Geometry {

  /** A city coordinate; equality is structural. */
  datatype Node = Node(x: int, y: int)

  function Abs(v: int): nat
  {
    if v < 0 then -v else v
  }

  /** `CityNode.absDistance`: the Manhattan distance |dx| + |dy|. */
  function AbsDistance(a: Node, b: Node): nat
  {
    Abs(a.x - b.x) + Abs(a.y - b.y)
  }

  lemma AbsDistanceIsMetric(a: Node, b: Node, c: Node)
    ensures AbsDistance(a, b) == AbsDistance(b, a)
    ensures AbsDistance(a, b) == 0 <==> a == b
    ensures AbsDistance(a, c) <= AbsDistance(a, b) + AbsDistance(b, c)
  {
  }

  /** Where a walk that starts at `start` and visits `route` in order ends. */
  function EndOf(start: Node, route: seq<Node>): Node
  {
    if route == [] then start else route[|route| - 1]
  }

  /** The total length of the legs of a walk that starts at `start` and visits
      `route` in order: the sum of the Manhattan distances between consecutive stops. */
  function RouteLength(start: Node, route: seq<Node>): nat
    decreases |route|
  {
    if route == [] then 0
    else
      var init := route[..|route| - 1];
      RouteLength(start, init) + AbsDistance(EndOf(start, init), route[|route| - 1])
  }

  /** Walking `r` and then `t` costs the length of `r` plus the length of `t`
      started where `r` ended. */
  lemma {:induction false} RouteLengthAppend(start: Node, r: seq<Node>, t: seq<Node>)
    ensures RouteLength(start, r + t) == RouteLength(start, r) + RouteLength(EndOf(start, r), t)
    ensures EndOf(start, r + t) == EndOf(EndOf(start, r), t)
    decreases |t|
  {
    if t == [] {
      assert r + t == r;
    } else {
      var t' := t[..|t| - 1];
      RouteLengthAppend(start, r, t');
      assert (r + t)[..|r + t| - 1] == r + t';
      assert (r + t)[|r + t| - 1] == t[|t| - 1];
    }
  }

  /** The first leg of a walk is its distance from the start; the rest is a walk from there. */
  lemma RouteLengthFirstLeg(start: Node, x: Node, t: seq<Node>)
    ensures RouteLength(start, [x] + t) == AbsDistance(start, x) + RouteLength(x, t)
  {
    RouteLengthAppend(start, [x], t);
    assert [x][..0] == [];
  }

  /** Adding stops never shortens a walk. */
  lemma RouteLengthMonotone(start: Node, r: seq<Node>, t: seq<Node>)
    ensures RouteLength(start, r) <= RouteLength(start, r + t)
  {
    RouteLengthAppend(start, r, t);
  }

  /** A walk is at least as long as the straight Manhattan distance between its ends. */
  lemma {:induction false} RouteLengthAtLeastDirect(start: Node, r: seq<Node>)
    ensures AbsDistance(start, EndOf(start, r)) <= RouteLength(start, r)
    decreases |r|
  {
    if r != [] {
      var init := r[..|r| - 1];
      RouteLengthAtLeastDirect(start, init);
      AbsDistanceIsMetric(start, EndOf(start, init), r[|r| - 1]);
    }
  }
}
