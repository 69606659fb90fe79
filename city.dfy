/** The part of the city the dispatch engine talks to: the fire station and,
    for every coordinate, whether the building there is burning. */
module CityModel {
  import opened Geometry

  /** `burning` maps a coordinate to its building's burning flag; a coordinate
      outside the map holds no burning building. */
  function Burning(burning: map<Node, bool>, n: Node): bool
  {
    n in burning && burning[n]
  }

  class City {
    const fireStation: Node
    var burning: map<Node, bool>

    constructor (fireStation: Node, burning: map<Node, bool>)
      ensures this.fireStation == fireStation && this.burning == burning
    {
      this.fireStation := fireStation;
      this.burning := burning;
    }

    predicate IsBurning(n: Node)
      reads this
    {
      Burning(burning, n)
    }

    /** `getBuilding(n).extinguishFire()`: puts out the fire at `n`, or fails
        (`NoFireFoundException`) when nothing burns there. Either way, afterwards
        nothing burns at `n` and every other coordinate keeps its flag. */
    method Extinguish(n: Node) returns (ok: bool)
      modifies this
      ensures ok == old(IsBurning(n))
      ensures burning == if ok then old(burning)[n := false] else old(burning)
      ensures forall m :: IsBurning(m) == (old(IsBurning(m)) && m != n)
    {
      ok := IsBurning(n);
      if ok {
        burning := burning[n := false];
      }
    }
  }
}
