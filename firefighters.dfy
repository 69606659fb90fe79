/** `FirefighterImpl`: a firefighter's location and the distance it has travelled. */
module Firefighters {
  import opened Geometry

  class Firefighter {
    var location: Node
    var distanceTraveled: nat
    /** Where the firefighter was hired, and every location it has moved to since. */
    ghost const origin: Node
    ghost var route: seq<Node>

    /** The distance travelled is the sum of all legs so far, and the location
        is where the last leg ended. */
    ghost predicate Valid()
      reads this
    {
      distanceTraveled == RouteLength(origin, route) && location == EndOf(origin, route)
    }

    constructor (location: Node)
      ensures Valid()
      ensures this.location == location && distanceTraveled == 0
      ensures origin == location && route == []
    {
      this.location := location;
      this.distanceTraveled := 0;
      origin := location;
      route := [];
    }

    /** Moves to `c`, adding the Manhattan length of the leg to the distance travelled. */
    method UpdateLocation(c: Node)
      requires Valid()
      modifies this
      ensures Valid()
      ensures location == c
      ensures distanceTraveled == old(distanceTraveled) + AbsDistance(old(location), c)
      ensures distanceTraveled >= old(distanceTraveled)
      ensures route == old(route) + [c]
    {
      ghost var before := route;
      distanceTraveled := distanceTraveled + AbsDistance(location, c);
      location := c;
      route := route + [c];
      assert route[..|route| - 1] == before;
    }
  }

  /** The unit-test walk: from (0,0) to (2,3) is 5, then on to (0,5) makes 9. */
  method DistanceScenario() returns (first: int, total: int)
    ensures first == 5 && total == 9
  {
    var f := new Firefighter(Node(0, 0));
    f.UpdateLocation(Node(2, 3));
    first := f.distanceTraveled;
    f.UpdateLocation(Node(0, 5));
    total := f.distanceTraveled;
  }
}
