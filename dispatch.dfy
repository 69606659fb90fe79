/** `FireDispatchImpl`: the roster, the distance matrix, the greedy multi-firefighter
    solver, the brute-force single-firefighter solver and the choice between them. */
module Dispatch {
  import opened Results
  import opened Geometry
  import opened Moves
  import opened Firefighters
  import opened CityModel
  import opened Permutations
  import opened Tours
  import opened Selection
  import opened Greedy

  /** Every move names a cell of a `rows` by `cols` matrix. */
  predicate WithinGrid(moves: seq<Move>, rows: nat, cols: nat)
  {
    forall m :: m in moves ==> m.firefighterIdx < rows && m.buildingIdx < cols
  }

  /** The numbers 0 .. m-1, the indices a building index may take. */
  function Range(m: nat): (s: set<nat>)
    ensures |s| == m
    ensures forall j :: j in s <==> 0 <= j < m
  {
    if m == 0 then {} else
      var prev := Range(m - 1);
      var s := prev + {m - 1};
      assert forall j :: j in s <==> j in prev || j == m - 1;
      s
  }

  /** A set of building indices as large as the batch holds every index of it. */
  lemma FullRange(s: set<nat>, m: nat)
    requires forall j :: j in s ==> j < m
    ensures |s| <= m
    ensures |s| == m ==> forall j :: 0 <= j < m ==> j in s
    ensures |s| < m ==> exists j :: 0 <= j < m && j !in s
  {
    var R := Range(m);
    assert s <= R;
    assert R == s + (R - s);
    assert |R| == |s| + |R - s|;
    if |s| < m {
      assert R - s != {};
      var j :| j in R - s;
      assert 0 <= j < m && j !in s;
    }
    if |s| == m {
      assert R - s == {};
      forall j | 0 <= j < m
        ensures j in s
      {
        assert j in R;
      }
    }
  }

  /** The buildings committed to firefighter `r`, in the order they were committed. */
  function AssignedTo(log: seq<Move>, r: nat, buildings: seq<Node>): seq<Node>
    requires forall k :: 0 <= k < |log| ==> log[k].buildingIdx < |buildings|
  {
    if log == [] then []
    else
      var n := |log| - 1;
      AssignedTo(log[..n], r, buildings)
        + (if log[n].firefighterIdx == r then [buildings[log[n].buildingIdx]] else [])
  }

  /** The building indices a log of moves has claimed. */
  function Assigned(log: seq<Move>): set<nat>
  {
    set k | 0 <= k < |log| :: log[k].buildingIdx
  }

  lemma AssignedSnoc(log: seq<Move>, mv: Move)
    ensures Assigned(log + [mv]) == Assigned(log) + {mv.buildingIdx}
  {
    var log' := log + [mv];
    forall j | j in Assigned(log)
      ensures j in Assigned(log')
    {
      var k :| 0 <= k < |log| && log[k].buildingIdx == j;
      assert log'[k] == log[k];
    }
    assert log'[|log|] == mv;
  }

  /** Every firefighter's route is its route at the start of the dispatch followed
      by the buildings the log committed to it. */
  predicate Walked(routes0: seq<seq<Node>>, routes: seq<seq<Node>>, log: seq<Move>, buildings: seq<Node>)
    requires forall k :: 0 <= k < |log| ==> log[k].buildingIdx < |buildings|
  {
    |routes| == |routes0| && forall r :: 0 <= r < |routes| ==> routes[r] == routes0[r] + AssignedTo(log, r, buildings)
  }

  /** Committing one more move extends exactly its firefighter's route by its building. */
  lemma WalkedStep(routes0: seq<seq<Node>>, routes: seq<seq<Node>>, log: seq<Move>, buildings: seq<Node>, mv: Move)
    requires forall k :: 0 <= k < |log| ==> log[k].buildingIdx < |buildings|
    requires Walked(routes0, routes, log, buildings)
    requires mv.firefighterIdx < |routes| && mv.buildingIdx < |buildings|
    ensures Walked(routes0, routes[mv.firefighterIdx := routes[mv.firefighterIdx] + [buildings[mv.buildingIdx]]], log + [mv], buildings)
  {
    assert (log + [mv])[..|log|] == log;
  }

  /** The state between two greedy steps, once `claimed` buildings are done: their
      column holds the sentinel; every other cell holds the distance from the
      firefighter's location; a building burns exactly when it is unclaimed. */
  predicate Settled(grid: seq<seq<Cell>>, locs: seq<Node>, burning: map<Node, bool>, buildings: seq<Node>, claimed: set<nat>)
  {
    && |grid| == |locs| && Rect(grid, |buildings|)
    && (forall j :: j in claimed ==> j < |buildings|)
    && (forall r, j :: 0 <= r < |grid| && 0 <= j < |buildings| ==>
          grid[r][j] == if j in claimed then Sentinel else Dist(AbsDistance(locs[r], buildings[j])))
    && (forall j :: 0 <= j < |buildings| ==> (Burning(burning, buildings[j]) <==> j !in claimed))
  }

  /** The matrix after a committed move: the building's column blanked, the moved
      firefighter's row recomputed from the building, the other cells untouched. */
  predicate Refreshed(before: seq<seq<Cell>>, after: seq<seq<Cell>>, f: nat, b: nat, buildings: seq<Node>, burning: map<Node, bool>)
    requires b < |buildings|
  {
    && |after| == |before| && Rect(before, |buildings|) && Rect(after, |buildings|)
    && forall r, j {:trigger after[r][j]} :: 0 <= r < |after| && 0 <= j < |buildings| ==>
         after[r][j] ==
           if j == b then Sentinel
           else if r == f then DistanceCell(buildings[b], buildings[j], Burning(burning, buildings[j]))
           else before[r][j]
  }

  /** A matrix refreshed cell by cell is the refreshed matrix of the greedy run. */
  lemma RefreshedIsRefresh(before: seq<seq<Cell>>, after: seq<seq<Cell>>, f: nat, b: nat, buildings: seq<Node>, burning: map<Node, bool>)
    requires b < |buildings| && Refreshed(before, after, f, b, buildings, burning)
    ensures after == Refresh(before, f, b, buildings, burning)
  {
    var g := Refresh(before, f, b, buildings, burning);
    forall r | 0 <= r < |after|
      ensures after[r] == g[r]
    {
      assert |after[r]| == |g[r]|;
      forall j | 0 <= j < |buildings|
        ensures after[r][j] == g[r][j]
      {
        RefreshedCell(before, after, f, b, buildings, burning, r, j);
      }
    }
  }

  lemma RefreshedCell(before: seq<seq<Cell>>, after: seq<seq<Cell>>, f: nat, b: nat, buildings: seq<Node>, burning: map<Node, bool>, r: nat, j: nat)
    requires b < |buildings| && Refreshed(before, after, f, b, buildings, burning)
    requires r < |after| && j < |buildings|
    ensures after[r][j] == Refresh(before, f, b, buildings, burning)[r][j]
  {
    RefreshCell(before, f, b, buildings, burning, r, j);
  }

  /** The dispatcher's state after a committed move, taken apart, is the greedy
      run's `Commit`. */
  lemma CommittedSnapshot(s: Snapshot, t: Snapshot, buildings: seq<Node>, mv: Move, ok: bool)
    requires Shaped(s, |buildings|) && mv.firefighterIdx < |s.locs| && mv.buildingIdx < |buildings|
    requires ok == Burning(s.burning, buildings[mv.buildingIdx])
    requires t.burning == if ok then s.burning[buildings[mv.buildingIdx] := false] else s.burning
    requires t.locs == if ok then s.locs[mv.firefighterIdx := buildings[mv.buildingIdx]] else s.locs
    requires t.travelled ==
      if ok then s.travelled[mv.firefighterIdx := s.travelled[mv.firefighterIdx] + AbsDistance(s.locs[mv.firefighterIdx], buildings[mv.buildingIdx])]
      else s.travelled
    requires t.grid == if ok then Refresh(s.grid, mv.firefighterIdx, mv.buildingIdx, buildings, t.burning) else s.grid
    ensures t == Commit(s, buildings, mv)
  {
  }

  /** With a firefighter on hand and an unclaimed building left, the greedy choice
      exists and is a burning, unclaimed building. */
  lemma SettledChoice(grid: seq<seq<Cell>>, locs: seq<Node>, burning: map<Node, bool>, buildings: seq<Node>, claimed: set<nat>, travelled: seq<int>)
    requires Settled(grid, locs, burning, buildings, claimed)
    requires |locs| >= 1 && |claimed| < |buildings|
    ensures Choose(grid, |buildings|, travelled).Some?
    ensures var mv := Choose(grid, |buildings|, travelled).value;
      mv.firefighterIdx < |locs| && mv.buildingIdx < |buildings| && mv.buildingIdx !in claimed
      && Burning(burning, buildings[mv.buildingIdx])
  {
    FullRange(claimed, |buildings|);
    var j :| 0 <= j < |buildings| && j !in claimed;
    assert grid[0][j].Dist?;
    ChooseSpec(grid, |buildings|, travelled);
  }

  /** One committed move keeps the state settled, with its building now claimed. */
  lemma SettledStep(grid: seq<seq<Cell>>, locs: seq<Node>, burning: map<Node, bool>, buildings: seq<Node>, claimed: set<nat>,
                    f: nat, b: nat, grid': seq<seq<Cell>>, burning': map<Node, bool>)
    requires Settled(grid, locs, burning, buildings, claimed) && Distinct(buildings)
    requires f < |locs| && b < |buildings| && b !in claimed
    requires grid' == Refresh(grid, f, b, buildings, burning')
    requires burning' == burning[buildings[b] := false]
    ensures Settled(grid', locs[f := buildings[b]], burning', buildings, claimed + {b})
  {
    forall r, j | 0 <= r < |grid'| && 0 <= j < |buildings|
      ensures grid'[r][j] == if j in claimed + {b} then Sentinel else Dist(AbsDistance(locs[f := buildings[b]][r], buildings[j]))
    {
      RefreshCell(grid, f, b, buildings, burning', r, j);
      if j != b {
        assert buildings[j] != buildings[b];
      }
    }
    forall j | 0 <= j < |buildings| && j != b
      ensures Burning(burning', buildings[j]) <==> j !in claimed
    {
      assert buildings[j] != buildings[b];
    }
  }

  /** Greedy progress after the moves in `log`, over snapshots of the dispatcher: the
      log names firefighters and buildings of the batch and claims distinct buildings,
      the state is settled for them, and every route has grown by the buildings
      committed to its firefighter. */
  predicate ProgressOf(grid: seq<seq<Cell>>, locs: seq<Node>, burning: map<Node, bool>, routes: seq<seq<Node>>,
                       buildings: seq<Node>, routes0: seq<seq<Node>>, log: seq<Move>)
  {
    && |locs| >= 1 && |routes| == |locs| && Distinct(buildings)
    && (forall k :: 0 <= k < |log| ==> log[k].firefighterIdx < |locs| && log[k].buildingIdx < |buildings|)
    && |Assigned(log)| == |log|
    && Settled(grid, locs, burning, buildings, Assigned(log))
    && Walked(routes0, routes, log, buildings)
  }

  /** A committed move of a burning, unclaimed building carries greedy progress
      over to the log extended by that move. */
  lemma ProgressStep(s: Snapshot, routes: seq<seq<Node>>, buildings: seq<Node>, routes0: seq<seq<Node>>, log: seq<Move>,
                     mv: Move, t: Snapshot, routes': seq<seq<Node>>)
    requires ProgressOf(s.grid, s.locs, s.burning, routes, buildings, routes0, log)
    requires Shaped(s, |buildings|)
    requires mv.firefighterIdx < |s.locs| && mv.buildingIdx < |buildings| && mv.buildingIdx !in Assigned(log)
    requires Burning(s.burning, buildings[mv.buildingIdx])
    requires t == Commit(s, buildings, mv)
    requires routes' == routes[mv.firefighterIdx := routes[mv.firefighterIdx] + [buildings[mv.buildingIdx]]]
    ensures ProgressOf(t.grid, t.locs, t.burning, routes', buildings, routes0, log + [mv])
  {
    AssignedSnoc(log, mv);
    SettledStep(s.grid, s.locs, s.burning, buildings, Assigned(log), mv.firefighterIdx, mv.buildingIdx, t.grid, t.burning);
    WalkedStep(routes0, routes, log, buildings, mv);
  }

  class FireDispatch {
    const city: City
    var firefighters: seq<Firefighter>
    var distMatrix: array2<Cell>

    /** `new FireDispatchImpl(city)`: no firefighters yet. The source leaves the
        matrix unallocated until the first greedy dispatch; here it starts empty. */
    constructor (city: City)
      ensures this.city == city && firefighters == [] && Valid()
    {
      this.city := city;
      firefighters := [];
      distMatrix := new Cell[0, 0];
    }

    ghost function Roster(): set<Firefighter>
      reads this
    {
      set r | 0 <= r < |firefighters| :: firefighters[r]
    }

    /** The roster holds distinct firefighters, each consistent with its own history. */
    ghost predicate Valid()
      reads this, Roster()
    {
      && (forall r, s :: 0 <= r < s < |firefighters| ==> firefighters[r] != firefighters[s])
      && (forall r :: 0 <= r < |firefighters| ==> firefighters[r].Valid())
    }

    /** The distance matrix as a list of rows. */
    ghost function Grid(): (g: seq<seq<Cell>>)
      reads this, distMatrix
      ensures |g| == distMatrix.Length0 && Rect(g, distMatrix.Length1)
      ensures forall r, j :: 0 <= r < distMatrix.Length0 && 0 <= j < distMatrix.Length1 ==> g[r][j] == distMatrix[r, j]
    {
      seq(distMatrix.Length0, r requires 0 <= r < distMatrix.Length0 reads this, distMatrix =>
        seq(distMatrix.Length1, j requires 0 <= r < distMatrix.Length0 && 0 <= j < distMatrix.Length1 reads this, distMatrix => distMatrix[r, j]))
    }

    /** Every firefighter's distance travelled, in roster order. */
    ghost function Travelled(): (t: seq<int>)
      reads this, Roster()
      ensures |t| == |firefighters|
      ensures forall r :: 0 <= r < |firefighters| ==> t[r] == firefighters[r].distanceTraveled
    {
      seq(|firefighters|, r requires 0 <= r < |firefighters| reads this, Roster() => firefighters[r].distanceTraveled)
    }

    /** Every firefighter's location, in roster order. */
    ghost function Locations(): (l: seq<Node>)
      reads this, Roster()
      ensures |l| == |firefighters|
      ensures forall r :: 0 <= r < |firefighters| ==> l[r] == firefighters[r].location
    {
      seq(|firefighters|, r requires 0 <= r < |firefighters| reads this, Roster() => firefighters[r].location)
    }

    /** Every firefighter's route so far, in roster order. */
    ghost function Routes(): (rs: seq<seq<Node>>)
      reads this, Roster()
      ensures |rs| == |firefighters|
      ensures forall r :: 0 <= r < |firefighters| ==> rs[r] == firefighters[r].route
    {
      seq(|firefighters|, r requires 0 <= r < |firefighters| reads this, Roster() => firefighters[r].route)
    }

    /** What a greedy step reads and writes, as a value. */
    ghost function Snap(): Snapshot
      reads this, distMatrix, city, Roster()
    {
      Snapshot(Grid(), Locations(), Travelled(), city.burning)
    }

    /** The conditions under which a dispatch puts every fire out: at least one
        firefighter, no building twice, and every building burning. */
    ghost predicate Ready(buildings: seq<Node>)
      reads this, city
    {
      |firefighters| >= 1 && Distinct(buildings)
      && forall j :: 0 <= j < |buildings| ==> city.IsBurning(buildings[j])
    }

    /** `setFirefighters(n)`: discards the roster and hires `n` new firefighters at
        the fire station (none when `n` is negative, as the loop never runs). */
    method SetFirefighters(n: int)
      modifies this
      ensures Valid()
      ensures |firefighters| == if n < 0 then 0 else n
      ensures forall r :: 0 <= r < |firefighters| ==>
        && fresh(firefighters[r])
        && firefighters[r].location == city.fireStation
        && firefighters[r].distanceTraveled == 0
        && firefighters[r].origin == city.fireStation && firefighters[r].route == []
      ensures distMatrix == old(distMatrix)
    {
      firefighters := [];
      var i := 0;
      while i < n
        invariant 0 <= i && (n >= 0 ==> i <= n) && (n < 0 ==> i == 0)
        invariant |firefighters| == i && distMatrix == old(distMatrix)
        invariant forall r :: 0 <= r < i ==>
          && fresh(firefighters[r])
          && firefighters[r].location == city.fireStation
          && firefighters[r].distanceTraveled == 0
          && firefighters[r].origin == city.fireStation && firefighters[r].route == []
        invariant Valid()
      {
        var f := new Firefighter(city.fireStation);
        firefighters := firefighters + [f];
        i := i + 1;
      }
    }

    /** `updateDistances(f, buildings)`: rewrites row `f` alone, with the distance from
        firefighter `f` to each burning building and the sentinel for the others. */
    method UpdateDistances(f: nat, buildings: seq<Node>)
      requires f < |firefighters|
      requires distMatrix.Length0 == |firefighters| && distMatrix.Length1 == |buildings|
      modifies distMatrix
      ensures forall j :: 0 <= j < |buildings| ==>
        distMatrix[f, j] == DistanceCell(firefighters[f].location, buildings[j], city.IsBurning(buildings[j]))
      ensures forall r, j :: 0 <= r < distMatrix.Length0 && 0 <= j < distMatrix.Length1 && r != f ==>
        distMatrix[r, j] == old(distMatrix[r, j])
    {
      var loc := firefighters[f].location;
      var i := 0;
      while i < |buildings|
        invariant 0 <= i <= |buildings|
        invariant forall j :: 0 <= j < i ==>
          distMatrix[f, j] == DistanceCell(loc, buildings[j], city.IsBurning(buildings[j]))
        invariant forall r, j :: 0 <= r < distMatrix.Length0 && 0 <= j < distMatrix.Length1 && r != f ==>
          distMatrix[r, j] == old(distMatrix[r, j])
      {
        if city.IsBurning(buildings[i]) {
          distMatrix[f, i] := Dist(AbsDistance(loc, buildings[i]));
        } else {
          distMatrix[f, i] := Sentinel;
        }
        i := i + 1;
      }
    }

    /** The first loop of `greedyDispatch`: `updateDistances` for every firefighter
        in turn, so that every row holds its firefighter's distances. */
    method FillDistances(buildings: seq<Node>)
      requires distMatrix.Length0 == |firefighters| && distMatrix.Length1 == |buildings|
      modifies distMatrix
      ensures forall r, j :: 0 <= r < |firefighters| && 0 <= j < |buildings| ==>
        distMatrix[r, j] == DistanceCell(firefighters[r].location, buildings[j], city.IsBurning(buildings[j]))
    {
      var i := 0;
      while i < |firefighters|
        invariant 0 <= i <= |firefighters|
        invariant forall r, j :: 0 <= r < i && 0 <= j < |buildings| ==>
          distMatrix[r, j] == DistanceCell(firefighters[r].location, buildings[j], city.IsBurning(buildings[j]))
      {
        UpdateDistances(i, buildings);
        i := i + 1;
      }
    }

    /** `getPossibleMoves`: every non-sentinel cell, firefighter-major then building. */
    method GetPossibleMoves() returns (moves: seq<Move>)
      ensures moves == Candidates(Grid(), distMatrix.Length1, distMatrix.Length0)
    {
      ghost var g := Grid();
      var cols := distMatrix.Length1;
      moves := [];
      var i := 0;
      while i < distMatrix.Length0
        invariant 0 <= i <= distMatrix.Length0
        invariant moves == Candidates(g, cols, i)
      {
        var j := 0;
        while j < cols
          invariant 0 <= j <= cols
          invariant moves == Candidates(g, cols, i) + RowCandidates(g, cols, i, j)
        {
          if distMatrix[i, j] != Sentinel {
            moves := moves + [Move(i, j)];
          }
          j := j + 1;
        }
        i := i + 1;
      }
    }

    /** `moveToDist`: each move's matrix value. */
    method MoveToDist(moves: seq<Move>) returns (values: seq<int>)
      requires forall m :: m in moves ==> m.firefighterIdx < distMatrix.Length0 && m.buildingIdx < distMatrix.Length1
      ensures |values| == |moves|
      ensures forall k :: 0 <= k < |moves| ==> values[k] == Value(distMatrix[moves[k].firefighterIdx, moves[k].buildingIdx])
    {
      values := [];
      var k := 0;
      while k < |moves|
        invariant 0 <= k <= |moves| && |values| == k
        invariant forall t :: 0 <= t < k ==> values[t] == Value(distMatrix[moves[t].firefighterIdx, moves[t].buildingIdx])
      {
        assert moves[k] in moves;
        values := values + [Value(distMatrix[moves[k].firefighterIdx, moves[k].buildingIdx])];
        k := k + 1;
      }
    }

    /** `moveToColumnSum`: for each move, minus the sum of its building's column. */
    method MoveToColumnSum(moves: seq<Move>) returns (values: seq<int>)
      requires forall m :: m in moves ==> m.buildingIdx < distMatrix.Length1
      ensures |values| == |moves|
      ensures forall k :: 0 <= k < |moves| ==>
        values[k] == -ColumnSum(Grid(), distMatrix.Length1, distMatrix.Length0, moves[k].buildingIdx)
    {
      ghost var g := Grid();
      var cols := distMatrix.Length1;
      values := [];
      var k := 0;
      while k < |moves|
        invariant 0 <= k <= |moves| && |values| == k
        invariant forall t :: 0 <= t < k ==> values[t] == -ColumnSum(g, cols, distMatrix.Length0, moves[t].buildingIdx)
      {
        var b := moves[k].buildingIdx;
        assert moves[k] in moves;
        var sum := 0;
        var r := 0;
        while r < distMatrix.Length0
          invariant 0 <= r <= distMatrix.Length0
          invariant sum == ColumnSum(g, cols, r, b)
        {
          sum := sum + Value(distMatrix[r, b]);
          r := r + 1;
        }
        values := values + [sum * -1];
        k := k + 1;
      }
    }

    /** `moveToDistTraveled`: each move's firefighter's distance travelled so far. */
    method MoveToDistTraveled(moves: seq<Move>) returns (values: seq<int>)
      requires forall m :: m in moves ==> m.firefighterIdx < |firefighters|
      ensures |values| == |moves|
      ensures forall k :: 0 <= k < |moves| ==> values[k] == firefighters[moves[k].firefighterIdx].distanceTraveled
    {
      values := [];
      var k := 0;
      while k < |moves|
        invariant 0 <= k <= |moves| && |values| == k
        invariant forall t :: 0 <= t < k ==> values[t] == firefighters[moves[t].firefighterIdx].distanceTraveled
      {
        assert moves[k] in moves;
        values := values + [firefighters[moves[k].firefighterIdx].distanceTraveled];
        k := k + 1;
      }
    }

    /** One tie-break tier of a greedy step: when more than one move is left, keep
        those of least value under `tier` (`moveToDist`, `moveToColumnSum` or
        `moveToDistTraveled`, then `getMins`); otherwise keep the moves as they are. */
    method NarrowBy(tier: Tier, moves: seq<Move>) returns (kept: seq<Move>)
      requires distMatrix.Length0 == |firefighters|
      requires WithinGrid(moves, |firefighters|, distMatrix.Length1)
      ensures kept == Narrow(tier, Grid(), distMatrix.Length1, Travelled(), moves)
      ensures forall m :: m in kept ==> m in moves
      ensures WithinGrid(kept, |firefighters|, distMatrix.Length1)
    {
      ghost var g := Grid();
      ghost var t := Travelled();
      ghost var keys := Keys(tier, g, distMatrix.Length1, t, moves);
      assert Narrow(tier, g, distMatrix.Length1, t, moves) == Minimal(moves, keys);
      if |moves| > 1 {
        var values;
        match tier {
          case ByDistance =>
            values := MoveToDist(moves);
          case ByColumnSum =>
            values := MoveToColumnSum(moves);
          case ByTravel =>
            values := MoveToDistTraveled(moves);
        }
        forall k | 0 <= k < |moves|
          ensures values[k] == keys[k]
        {
          assert moves[k] in moves;
        }
        assert values == keys;
        kept := GetMins(moves, values);
      } else {
        MinimalOfShort(moves, keys);
        kept := moves;
      }
      assert g == Grid();
      assert t == Travelled();
      NarrowSpec(tier, g, distMatrix.Length1, t, moves);
    }

    /** One greedy step's choice: candidates, then the three tiers in order, then the
        first survivor (none when no candidate is left). */
    method SelectMove() returns (choice: Option<Move>)
      requires distMatrix.Length0 == |firefighters|
      ensures choice == Choose(Grid(), distMatrix.Length1, Travelled())
    {
      ghost var g := Grid();
      ghost var cols := distMatrix.Length1;
      ghost var t := Travelled();
      var moves := GetPossibleMoves();
      CandidatesSpec(g, cols, |g|);
      assert WithinGrid(moves, |firefighters|, cols);
      ghost var c0 := moves;
      moves := NarrowBy(ByDistance, moves);
      assert g == Grid() && t == Travelled();
      ghost var c1 := moves;
      assert c1 == Narrow(ByDistance, g, cols, t, c0);
      moves := NarrowBy(ByColumnSum, moves);
      assert g == Grid() && t == Travelled();
      ghost var c2 := moves;
      assert c2 == Narrow(ByColumnSum, g, cols, t, c1);
      moves := NarrowBy(ByTravel, moves);
      assert g == Grid() && t == Travelled();
      assert moves == Narrow(ByTravel, g, cols, t, c2);
      if |moves| == 0 {
        choice := None;
      } else {
        choice := Some(moves[0]);
      }
    }

    /** Marks building `b` as claimed for every firefighter: its column becomes the
        sentinel, every other cell is kept. */
    method ClearColumn(b: nat)
      requires distMatrix.Length0 == |firefighters| && b < distMatrix.Length1
      modifies distMatrix
      ensures forall r, c :: 0 <= r < distMatrix.Length0 && 0 <= c < distMatrix.Length1 ==>
        distMatrix[r, c] == if c == b then Sentinel else old(distMatrix[r, c])
    {
      var j := 0;
      while j < |firefighters|
        invariant 0 <= j <= |firefighters|
        invariant forall r, c :: 0 <= r < distMatrix.Length0 && 0 <= c < distMatrix.Length1 ==>
          distMatrix[r, c] == if c == b && r < j then Sentinel else old(distMatrix[r, c])
      {
        distMatrix[j, b] := Sentinel;
        j := j + 1;
      }
    }

    /** The body of one greedy step once a move is chosen: put out the fire; when
        there was one, move the firefighter there, refresh its row of the matrix and
        blank the building's column. A building that no longer burns
        (`NoFireFoundException`) leaves firefighters and matrix as they were. */
    method CommitMove(mv: Move, buildings: seq<Node>, ghost before: Snapshot) returns (ok: bool)
      requires Valid()
      requires before == Snap()
      requires distMatrix.Length0 == |firefighters| && distMatrix.Length1 == |buildings|
      requires mv.firefighterIdx < |firefighters| && mv.buildingIdx < |buildings|
      modifies city, firefighters[mv.firefighterIdx], distMatrix
      ensures Valid()
      ensures ok == old(city.IsBurning(buildings[mv.buildingIdx]))
      ensures forall n :: city.IsBurning(n) == (old(city.IsBurning(n)) && n != buildings[mv.buildingIdx])
      ensures Snap() == Commit(before, buildings, mv)
      ensures Routes() ==
        if ok then old(Routes())[mv.firefighterIdx := old(Routes())[mv.firefighterIdx] + [buildings[mv.buildingIdx]]]
        else old(Routes())
    {
      var building := buildings[mv.buildingIdx];
      ok := city.Extinguish(building);
      assert before == Snapshot(Grid(), Locations(), Travelled(), old(city.burning));
      if ok {
        MoveTo(mv.firefighterIdx, mv.buildingIdx, buildings);
      }
      CommittedSnapshot(before, Snapshot(Grid(), Locations(), Travelled(), city.burning), buildings, mv, ok);
    }

    /** The rest of the `try` block once the fire is out: firefighter `f` walks to
        building `b`, its row of the matrix is recomputed and the building's column
        is blanked. Nobody else moves. */
    method MoveTo(f: nat, b: nat, buildings: seq<Node>)
      requires Valid()
      requires distMatrix.Length0 == |firefighters| && distMatrix.Length1 == |buildings|
      requires f < |firefighters| && b < |buildings|
      modifies firefighters[f], distMatrix
      ensures Valid()
      ensures Locations() == old(Locations())[f := buildings[b]]
      ensures Travelled() == old(Travelled())[f := old(Travelled())[f] + AbsDistance(old(Locations())[f], buildings[b])]
      ensures Routes() == old(Routes())[f := old(Routes())[f] + [buildings[b]]]
      ensures Grid() == Refresh(old(Grid()), f, b, buildings, city.burning)
    {
      ghost var grid0 := Grid();
      ghost var locs0 := Locations();
      ghost var routes0 := Routes();
      ghost var travelled0 := Travelled();
      var building := buildings[b];
      firefighters[f].UpdateLocation(building);
      UpdateDistances(f, buildings);
      ClearColumn(b);
      forall r | 0 <= r < |firefighters| && r != f
        ensures firefighters[r].location == locs0[r] && firefighters[r].route == routes0[r]
        ensures firefighters[r].distanceTraveled == travelled0[r]
      {
        assert firefighters[r] != firefighters[f];
      }
      assert Locations() == locs0[f := building];
      assert Travelled() == travelled0[f := travelled0[f] + AbsDistance(locs0[f], building)];
      assert Routes() == routes0[f := routes0[f] + [building]];
      assert Refreshed(grid0, Grid(), f, b, buildings, city.burning);
      RefreshedIsRefresh(grid0, Grid(), f, b, buildings, city.burning);
    }

    /** Greedy progress after the moves in `log`, on the dispatcher's own state. */
    ghost predicate Progress(buildings: seq<Node>, routes0: seq<seq<Node>>, log: seq<Move>)
      reads this, distMatrix, city, Roster()
    {
      && distMatrix.Length0 == |firefighters| && distMatrix.Length1 == |buildings|
      && ProgressOf(Grid(), Locations(), city.burning, Routes(), buildings, routes0, log)
    }

    /** The greedy choice of one iteration, with what the loop needs to know of it:
        it names a firefighter and a building of the batch; there is none without
        firefighters; and from a settled state with an unclaimed building left, it
        exists and names a burning, unclaimed building. */
    method ChooseMove(buildings: seq<Node>, ghost claimed: set<nat>, ghost good: bool) returns (choice: Option<Move>)
      requires distMatrix.Length0 == |firefighters| && distMatrix.Length1 == |buildings|
      requires good ==>
        |firefighters| >= 1 && |claimed| < |buildings| && Settled(Grid(), Locations(), city.burning, buildings, claimed)
      ensures choice == Choose(Grid(), |buildings|, Travelled())
      ensures choice.None? <==> NoCandidate(Grid(), |buildings|)
      ensures choice.Some? ==> choice.value.firefighterIdx < |firefighters| && choice.value.buildingIdx < |buildings|
      ensures |firefighters| == 0 ==> choice.None?
      ensures good ==> choice.Some? && choice.value.buildingIdx !in claimed && city.IsBurning(buildings[choice.value.buildingIdx])
    {
      ghost var grid, t := Grid(), Travelled();
      ChooseExists(grid, |buildings|, t);
      if good {
        SettledChoice(grid, Locations(), city.burning, buildings, claimed, t);
      }
      choice := SelectMove();
      assert grid == Grid() && t == Travelled();
    }

    /** One iteration of the greedy loop: the greedy choice of the current state,
        committed. With no candidate left there is no choice (the source's
        `possibleMoves.get(0)` throws). The new state and log are those of the greedy
        run's next iteration. From a state of greedy progress with a building still
        unclaimed, a move is always found and its building is claimed. */
    method GreedyStep(buildings: seq<Node>, ghost routes0: seq<seq<Node>>, ghost log: seq<Move>, ghost good: bool)
      returns (choice: Option<Move>, ghost log': seq<Move>)
      requires Valid() && distMatrix.Length0 == |firefighters| && distMatrix.Length1 == |buildings|
      requires good ==> Progress(buildings, routes0, log) && |log| < |buildings|
      modifies city, Roster(), distMatrix
      ensures Valid()
      ensures forall n :: city.IsBurning(n) ==> old(city.IsBurning(n))
      ensures forall n :: n !in buildings ==> city.IsBurning(n) == old(city.IsBurning(n))
      ensures choice == Choose(old(Grid()), |buildings|, old(Travelled()))
      ensures choice.None? <==> NoCandidate(old(Grid()), |buildings|)
      ensures |firefighters| == 0 ==> choice.None?
      ensures Advance(Run(Completed, old(Snap()), log), buildings)
              == Run(if choice.Some? then Completed else Threw(IndexOutOfBounds), Snap(), log')
      ensures good ==> choice.Some? && |log'| == |log| + 1 && Progress(buildings, routes0, log')
    {
      ghost var grid, locs, travelled, burning, routes := Grid(), Locations(), Travelled(), city.burning, Routes();
      ghost var before := Snapshot(grid, locs, travelled, burning);
      choice := ChooseMove(buildings, Assigned(log), good);
      assert grid == Grid() && locs == Locations() && travelled == Travelled() && routes == Routes();
      if choice.None? {
        log' := log;
        return;
      }
      log' := CommitChoice(choice.value, buildings, before, routes0, log, good);
    }

    /** The `try` block of a greedy step for the greedy choice `mv` of `before`: the
        run advances by one iteration, and a ready batch stays on track. */
    method CommitChoice(mv: Move, buildings: seq<Node>, ghost before: Snapshot, ghost routes0: seq<seq<Node>>,
                        ghost log: seq<Move>, ghost good: bool) returns (ghost log': seq<Move>)
      requires Valid() && before == Snap()
      requires distMatrix.Length0 == |firefighters| && distMatrix.Length1 == |buildings|
      requires mv.firefighterIdx < |firefighters| && mv.buildingIdx < |buildings|
      requires Choose(before.grid, |buildings|, before.travelled) == Some(mv)
      requires good ==> && Progress(buildings, routes0, log) && mv.buildingIdx !in Assigned(log)
                        && city.IsBurning(buildings[mv.buildingIdx])
      modifies city, firefighters[mv.firefighterIdx], distMatrix
      ensures Valid()
      ensures forall n :: city.IsBurning(n) == (old(city.IsBurning(n)) && n != buildings[mv.buildingIdx])
      ensures Advance(Run(Completed, before, log), buildings) == Run(Completed, Snap(), log')
      ensures good ==> |log'| == |log| + 1 && Progress(buildings, routes0, log')
    {
      ghost var routes := Routes();
      var ok := CommitMove(mv, buildings, before);
      log' := if ok then log + [mv] else log;
      AdvanceCommits(before, buildings, log, mv);
      if good {
        ProgressStep(before, routes, buildings, routes0, log, mv, Snap(), Routes());
      }
    }

    /** The dispatcher is where the greedy run from `s0` is after `i` iterations: the
        run ended with `outcome` and committed `log`. */
    ghost predicate Follows(s0: Snapshot, buildings: seq<Node>, i: nat, outcome: Outcome, log: seq<Move>)
      requires Shaped(s0, |buildings|)
      reads this, distMatrix, city, Roster()
    {
      var run := GreedyRun(s0, buildings, i);
      run.outcome == outcome && run.state == Snap() && run.log == log
    }

    /** Iteration `i` of the step loop, from the state the greedy run reached after
        `i` iterations: the state and log become those of iteration `i + 1`. */
    method Iterate(buildings: seq<Node>, ghost s0: Snapshot, ghost routes0: seq<seq<Node>>, ghost log: seq<Move>,
                   ghost good: bool, ghost i: nat) returns (choice: Option<Move>, ghost log': seq<Move>)
      requires Valid() && distMatrix.Length0 == |firefighters| && distMatrix.Length1 == |buildings|
      requires Shaped(s0, |buildings|) && i < |buildings|
      requires Follows(s0, buildings, i, Completed, log)
      requires good ==> |log| == i && Progress(buildings, routes0, log)
      modifies city, Roster(), distMatrix
      ensures Valid()
      ensures Follows(s0, buildings, i + 1, if choice.Some? then Completed else Threw(IndexOutOfBounds), log')
      ensures |firefighters| == 0 ==> choice.None?
      ensures good ==> choice.Some? && |log'| == i + 1 && Progress(buildings, routes0, log')
    {
      choice, log' := GreedyStep(buildings, routes0, log, good);
      GreedyRunNext(s0, buildings, i + 1);
    }

    /** The step loop of `greedyDispatch`: one greedy step per building, stopping at
        the first step that finds no candidate. It follows the greedy run from `s0`
        to its end; from a state of greedy progress every step commits a burning
        building. */
    method StepAll(buildings: seq<Node>, ghost s0: Snapshot, ghost routes0: seq<seq<Node>>, ghost good: bool)
      returns (outcome: Outcome, ghost log: seq<Move>)
      requires Valid() && distMatrix.Length0 == |firefighters| && distMatrix.Length1 == |buildings|
      requires Shaped(s0, |buildings|) && Snap() == s0
      requires good ==> Progress(buildings, routes0, [])
      modifies city, Roster(), distMatrix
      ensures Valid()
      ensures Follows(s0, buildings, |buildings|, outcome, log)
      ensures good ==> outcome == Completed && |log| == |buildings| && Progress(buildings, routes0, log)
    {
      log := [];
      outcome := Completed;
      var i := 0;
      while i < |buildings|
        invariant 0 <= i <= |buildings|
        invariant Valid() && distMatrix.Length0 == |firefighters| && distMatrix.Length1 == |buildings|
        invariant good ==> |log| == i && Progress(buildings, routes0, log)
        invariant outcome == Completed && Follows(s0, buildings, i, outcome, log)
      {
        var choice;
        choice, log := Iterate(buildings, s0, routes0, log, good, i);
        if choice.None? {
          outcome := Threw(IndexOutOfBounds);
          ThrownStays(s0, buildings, i + 1, |buildings|);
          return;
        }
        i := i + 1;
      }
    }

    /** The first loop of `greedyDispatch`: a fresh matrix, row `r` holding the
        distances from firefighter `r` to the burning buildings of the batch. The
        greedy run starts here; for a ready batch nothing is claimed yet. */
    method NewMatrix(buildings: seq<Node>)
      requires Valid()
      modifies this
      ensures Valid() && firefighters == old(firefighters)
      ensures fresh(distMatrix) && distMatrix.Length0 == |firefighters| && distMatrix.Length1 == |buildings|
      ensures Snap() == Start(old(Locations()), old(Travelled()), old(city.burning), buildings)
      ensures old(Ready(buildings)) ==> Progress(buildings, old(Routes()), [])
    {
      ghost var locs, travelled, routes := Locations(), Travelled(), Routes();
      var matrix := new Cell[|firefighters|, |buildings|];
      distMatrix := matrix;
      FillDistances(buildings);
      assert Locations() == locs && Travelled() == travelled && Routes() == routes;
      ghost var s0 := Start(locs, travelled, city.burning, buildings);
      forall r | 0 <= r < |firefighters|
        ensures Grid()[r] == s0.grid[r]
      {
      }
      if Ready(buildings) {
        assert Settled(Grid(), Locations(), city.burning, buildings, Assigned([]));
      }
    }

    /** The end of a greedy dispatch of a ready batch, from the routes, locations and
        distances `routes0`, `locs0`, `travelled0` it started with: every building was
        claimed and put out, and each firefighter walked on from where it stood to its
        buildings in the order they were committed. */
    ghost method ReadyDone(buildings: seq<Node>, routes0: seq<seq<Node>>, locs0: seq<Node>, travelled0: seq<int>,
                           log: seq<Move>)
      requires Valid() && |routes0| == |locs0| == |travelled0| == |firefighters|
      requires forall r :: 0 <= r < |firefighters| ==>
        && locs0[r] == EndOf(firefighters[r].origin, routes0[r])
        && travelled0[r] == RouteLength(firefighters[r].origin, routes0[r])
      requires |log| == |buildings| && Progress(buildings, routes0, log)
      ensures forall j :: 0 <= j < |buildings| ==> !city.IsBurning(buildings[j])
      ensures forall k :: 0 <= k < |log| ==> log[k].firefighterIdx < |firefighters| && log[k].buildingIdx < |buildings|
      ensures forall j :: 0 <= j < |buildings| ==> j in Assigned(log)
      ensures forall r :: 0 <= r < |firefighters| ==>
        var walked := AssignedTo(log, r, buildings);
        && firefighters[r].route == routes0[r] + walked
        && firefighters[r].location == EndOf(locs0[r], walked)
        && firefighters[r].distanceTraveled == travelled0[r] + RouteLength(locs0[r], walked)
    {
      FullRange(Assigned(log), |buildings|);
      forall r | 0 <= r < |firefighters|
        ensures var walked := AssignedTo(log, r, buildings);
          && firefighters[r].route == routes0[r] + walked
          && firefighters[r].location == EndOf(locs0[r], walked)
          && firefighters[r].distanceTraveled == travelled0[r] + RouteLength(locs0[r], walked)
      {
        RouteLengthAppend(firefighters[r].origin, routes0[r], AssignedTo(log, r, buildings));
      }
    }

    /** `greedyDispatch(buildings)`: a fresh matrix filled row by row, then one
        greedy step per building. A step with no candidate left ends the dispatch
        with `IndexOutOfBounds`. When the batch is ready (distinct buildings, all
        burning, a firefighter on hand) every step finds a burning building, so the
        dispatch completes with every building put out. The outcome, the final state
        and the committed moves `log` are those of the greedy run from the filled
        matrix, and each firefighter has walked to its buildings in the order they
        were committed. */
    method GreedyDispatch(buildings: seq<Node>) returns (outcome: Outcome, ghost log: seq<Move>)
      requires Valid()
      modifies this, city, Roster()
      ensures Valid() && firefighters == old(firefighters)
      ensures fresh(distMatrix) && distMatrix.Length0 == |firefighters| && distMatrix.Length1 == |buildings|
      ensures forall n :: city.IsBurning(n) ==> old(city.IsBurning(n))
      ensures forall n :: n !in buildings ==> city.IsBurning(n) == old(city.IsBurning(n))
      ensures var run := GreedyRun(Start(old(Locations()), old(Travelled()), old(city.burning), buildings), buildings, |buildings|);
        outcome == run.outcome && Snap() == run.state && log == run.log
      ensures |firefighters| == 0 && |buildings| > 0 ==> outcome == Threw(IndexOutOfBounds)
      ensures old(Ready(buildings)) ==>
        && outcome == Completed
        && (forall j :: 0 <= j < |buildings| ==> !city.IsBurning(buildings[j]))
        && |log| == |buildings|
        && (forall k :: 0 <= k < |log| ==> log[k].firefighterIdx < |firefighters| && log[k].buildingIdx < |buildings|)
        && (forall j :: 0 <= j < |buildings| ==> j in Assigned(log))
        && (forall r :: 0 <= r < |firefighters| ==>
              var walked := AssignedTo(log, r, buildings);
              && firefighters[r].route == old(Routes())[r] + walked
              && firefighters[r].location == EndOf(old(Locations())[r], walked)
              && firefighters[r].distanceTraveled == old(Travelled())[r] + RouteLength(old(Locations())[r], walked))
    {
      ghost var good := Ready(buildings);
      ghost var routes0 := Routes();
      ghost var locs0, travelled0 := Locations(), Travelled();
      ghost var s0 := Start(locs0, travelled0, city.burning, buildings);
      assert forall r :: 0 <= r < |firefighters| ==>
        && locs0[r] == EndOf(firefighters[r].origin, routes0[r])
        && travelled0[r] == RouteLength(firefighters[r].origin, routes0[r]);
      NewMatrix(buildings);
      outcome, log := StepAll(buildings, s0, routes0, good);
      GreedyRunBurning(s0, buildings, |buildings|);
      if |firefighters| == 0 && |buildings| > 0 {
        NoFirefighterThrows(s0, buildings);
      }
      if good {
        ReadyDone(buildings, routes0, locs0, travelled0, log);
      }
    }

    /** `bruteForce(buildings)`: the indices 0 .. m-1 are permuted (more than ten, or
        none, make `permute` throw before anything changes), the first cheapest
        ordering from the fire station is kept, and the first firefighter (absent:
        `IndexOutOfBounds`) walks it. At each stop it puts the fire out and moves there;
        a stop with no fire left is skipped. Afterwards no building of the batch burns. */
    method BruteForce(buildings: seq<Node>) returns (outcome: Outcome)
      requires Valid()
      modifies city, Roster()
      ensures Valid()
      ensures |buildings| > MaxPermuted ==> outcome == Threw(IllegalArgument)
      ensures |buildings| == 0 ==> outcome == Threw(IndexOutOfBounds)
      ensures 1 <= |buildings| <= MaxPermuted && |firefighters| == 0 ==> outcome == Threw(IndexOutOfBounds)
      ensures outcome == Completed <==> 1 <= |buildings| <= MaxPermuted && |firefighters| >= 1
      ensures outcome.Threw? ==>
        city.burning == old(city.burning) && forall r :: 0 <= r < |firefighters| ==> unchanged(firefighters[r])
      ensures outcome == Completed ==>
        var tour := PathNodes(buildings, ExactTour(city.fireStation, buildings));
        var walked := Visited(old(city.burning), tour);
        && (forall n :: city.IsBurning(n) == (old(city.IsBurning(n)) && n !in buildings))
        && firefighters[0].route == old(firefighters[0].route) + walked
        && firefighters[0].location == EndOf(old(firefighters[0].location), walked)
        && firefighters[0].distanceTraveled
           == old(firefighters[0].distanceTraveled) + RouteLength(old(firefighters[0].location), walked)
        && forall r :: 1 <= r < |firefighters| ==> unchanged(firefighters[r])
    {
      var idxs := IndexArray(|buildings|);
      var permutations := Permute(idxs[..]);
      if permutations.Failure? {
        return Threw(permutations.error);
      }
      var perms := permutations.value;
      assert perms == AllOrders(|buildings|);
      var best := SelectCheapest(city.fireStation, buildings, perms);
      var minPath := perms[best];
      if |firefighters| == 0 {
        return Threw(IndexOutOfBounds);
      }
      outcome := Completed;
      TourCoversBuildings(buildings, minPath);
      WalkPath(buildings, minPath);
    }

    /** The first loop of `bruteForce`: an array holding 0 .. m-1. */
    static method IndexArray(m: nat) returns (idxs: array<int>)
      ensures fresh(idxs) && idxs[..] == Indices(m)
    {
      idxs := new int[m];
      var i := 0;
      while i < m
        invariant 0 <= i <= m
        invariant forall t :: 0 <= t < i ==> idxs[t] == t
      {
        idxs[i] := i;
        i := i + 1;
      }
    }

    /** The last loop of `bruteForce`: the first firefighter walks the buildings of
        `path` in order, moving to a stop only when it puts out a fire there. */
    method WalkPath(buildings: seq<Node>, path: seq<int>)
      requires Valid() && |firefighters| >= 1 && ValidPath(path, |buildings|)
      modifies city, firefighters[0]
      ensures Valid()
      ensures var tour := PathNodes(buildings, path);
        var walked := Visited(old(city.burning), tour);
        && (forall n :: city.IsBurning(n) == (old(city.IsBurning(n)) && n !in tour))
        && firefighters[0].route == old(firefighters[0].route) + walked
        && firefighters[0].location == EndOf(old(firefighters[0].location), walked)
        && firefighters[0].distanceTraveled
           == old(firefighters[0].distanceTraveled) + RouteLength(old(firefighters[0].location), walked)
    {
      var firefighter := firefighters[0];
      ghost var tour := PathNodes(buildings, path);
      ghost var burning0 := city.burning;
      var k := 0;
      while k < |path|
        invariant 0 <= k <= |path|
        invariant firefighter.Valid()
        invariant firefighter.route == old(firefighter.route) + Visited(burning0, tour[..k])
        invariant forall n :: city.IsBurning(n) == (Burning(burning0, n) && n !in tour[..k])
      {
        var building := buildings[path[k]];
        assert tour[..k + 1] == tour[..k] + [building];
        assert tour[..k + 1][..k] == tour[..k];
        var ok := city.Extinguish(building);
        assert ok == (Burning(burning0, building) && building !in tour[..k]);
        assert Visited(burning0, tour[..k + 1]) == Visited(burning0, tour[..k]) + (if ok then [building] else []);
        if ok {
          firefighter.UpdateLocation(building);
        }
        k := k + 1;
      }
      assert tour[..k] == tour;
      RouteLengthAppend(firefighter.origin, old(firefighter.route), Visited(burning0, tour));
      forall r | 1 <= r < |firefighters|
        ensures firefighters[r].Valid()
      {
        assert firefighters[r] != firefighter;
      }
    }

    /** `dispatchFirefighters(buildings)`: the greedy solver when there is more than one
        firefighter or more than ten buildings, the exact one otherwise, whose outcome
        and walk are `bruteForce`'s whatever the batch holds. A ready batch
        is put out entirely, except that an empty batch with at most one firefighter
        makes `permute` throw. With one firefighter starting at the fire station, the
        distance it walks is the cost of the exact tour, which no ordering undercuts. */
    method DispatchFirefighters(buildings: seq<Node>) returns (outcome: Outcome)
      requires Valid()
      modifies this, city, Roster()
      ensures Valid() && firefighters == old(firefighters)
      ensures forall n :: city.IsBurning(n) ==> old(city.IsBurning(n))
      ensures forall n :: n !in buildings ==> city.IsBurning(n) == old(city.IsBurning(n))
      ensures |firefighters| <= 1 && |buildings| == 0 ==> outcome == Threw(IndexOutOfBounds)
      ensures |firefighters| == 0 && |buildings| > 0 ==> outcome == Threw(IndexOutOfBounds)
      ensures |buildings| == 0 ==> forall r :: 0 <= r < |firefighters| ==>
        && firefighters[r].location == old(firefighters[r].location)
        && firefighters[r].distanceTraveled == old(firefighters[r].distanceTraveled)
      ensures old(Ready(buildings)) && (|firefighters| > 1 || |buildings| >= 1) ==>
        outcome == Completed && forall j :: 0 <= j < |buildings| ==> !city.IsBurning(buildings[j])
      ensures |firefighters| > 1 || |buildings| > MaxPermuted ==>
        var run := GreedyRun(Start(old(Locations()), old(Travelled()), old(city.burning), buildings), buildings, |buildings|);
        outcome == run.outcome && Snap() == run.state
      ensures old(Ready(buildings)) && (|firefighters| > 1 || |buildings| > MaxPermuted) ==>
        var run := GreedyRun(Start(old(Locations()), old(Travelled()), old(city.burning), buildings), buildings, |buildings|);
        && |run.log| == |buildings|
        && (forall k :: 0 <= k < |run.log| ==> run.log[k].firefighterIdx < |firefighters| && run.log[k].buildingIdx < |buildings|)
        && (forall j :: 0 <= j < |buildings| ==> j in Assigned(run.log))
        && (forall r :: 0 <= r < |firefighters| ==>
              var walked := AssignedTo(run.log, r, buildings);
              && firefighters[r].route == old(firefighters[r].route) + walked
              && firefighters[r].location == EndOf(old(firefighters[r].location), walked)
              && firefighters[r].distanceTraveled == old(firefighters[r].distanceTraveled) + RouteLength(old(firefighters[r].location), walked))
      ensures |firefighters| <= 1 && |buildings| <= MaxPermuted ==>
        (outcome == Completed <==> |firefighters| == 1 && |buildings| >= 1)
      ensures |firefighters| <= 1 && |buildings| <= MaxPermuted && outcome.Threw? ==>
        city.burning == old(city.burning) && forall r :: 0 <= r < |firefighters| ==> unchanged(firefighters[r])
      ensures |firefighters| <= 1 && |buildings| <= MaxPermuted && outcome == Completed ==>
        var tour := PathNodes(buildings, ExactTour(city.fireStation, buildings));
        var walked := Visited(old(city.burning), tour);
        && (forall n :: city.IsBurning(n) == (old(city.IsBurning(n)) && n !in buildings))
        && firefighters[0].route == old(firefighters[0].route) + walked
        && firefighters[0].location == EndOf(old(firefighters[0].location), walked)
        && firefighters[0].distanceTraveled
           == old(firefighters[0].distanceTraveled) + RouteLength(old(firefighters[0].location), walked)
      ensures old(Ready(buildings)) && |firefighters| == 1 && 1 <= |buildings| <= MaxPermuted ==>
        var tour := PathNodes(buildings, ExactTour(city.fireStation, buildings));
        && firefighters[0].route == old(firefighters[0].route) + tour
        && firefighters[0].location == EndOf(old(firefighters[0].location), tour)
        && firefighters[0].distanceTraveled
           == old(firefighters[0].distanceTraveled) + RouteLength(old(firefighters[0].location), tour)
      ensures old(Ready(buildings)) && |firefighters| == 1 && 1 <= |buildings| <= MaxPermuted &&
              old(firefighters[0].location) == city.fireStation ==>
        forall q :: IsOrdering(q, |buildings|) && ValidPath(q, |buildings|) ==>
          firefighters[0].distanceTraveled - old(firefighters[0].distanceTraveled)
          <= PathCost(city.fireStation, buildings, q)
    {
      if |firefighters| > 1 || |buildings| > MaxPermuted {
        ghost var log;
        outcome, log := GreedyDispatch(buildings);
        if |buildings| == 0 {
          forall r | 0 <= r < |firefighters|
            ensures AssignedTo(log, r, buildings) == []
          {
            assert log == [];
          }
        }
      } else {
        ghost var ready := Ready(buildings);
        outcome := BruteForce(buildings);
        if ready && |buildings| >= 1 {
          var path := ExactTour(city.fireStation, buildings);
          WalkPutsOutEvery(old(city.burning), buildings, path);
          forall q | IsOrdering(q, |buildings|) && ValidPath(q, |buildings|)
            ensures PathCost(city.fireStation, buildings, path) <= PathCost(city.fireStation, buildings, q)
          {
            ExactTourOptimal(city.fireStation, buildings, q);
          }
        }
      }
    }
  }
}
