/** `Move`: a candidate or committed assignment of a firefighter to a building,
    both given by their index in the current dispatch call. */
module Moves {

  datatype Move = Move(firefighterIdx: nat, buildingIdx: nat)

  /** Row-major enumeration order of the distance matrix: firefighter first, then building. */
  predicate Before(a: Move, b: Move)
  {
    a.firefighterIdx < b.firefighterIdx
    || (a.firefighterIdx == b.firefighterIdx && a.buildingIdx < b.buildingIdx)
  }
}
