/** Concrete runs of the exact solver and the greedy dispatcher on small cities. */
module Scenarios {
  import opened Results
  import opened Geometry
  import opened Moves
  import opened CityModel
  import opened Selection
  import opened Permutations
  import opened Tours
  import opened Greedy
  import opened Dispatch

  /** Both orderings of the two-fire test and their costs. */
  lemma TwoFireOrders()
    ensures AllOrders(2) == [[1, 0], [0, 1]]
  {
    var nums := Indices(2);
    assert nums == [0, 1];
    assert nums[..1] == [0];
    var P := Generated(nums, 1);
    assert P == [[0]];
    assert InsertAt([0], 0, 1) == [1, 0];
    assert InsertAt([0], 1, 1) == [0, 1];
    assert Column(P, 1, 0) == [[1, 0]];
    assert Column(P, 1, 1) == [[0, 1]];
    assert Layers(P, 1, 1) == [[1, 0]];
  }

  /** The two-fire test's ordering that visits (1,1) first costs 2 + 1. */
  lemma TwoFireReversedCost()
    ensures PathCost(Node(0, 0), [Node(0, 1), Node(1, 1)], [1, 0]) == 3
  {
    PairCost(Node(0, 0), [Node(0, 1), Node(1, 1)], 1, 0);
  }

  /** The two-fire test's ordering that visits (0,1) first costs 1 + 1. */
  lemma TwoFireInOrderCost()
    ensures PathCost(Node(0, 0), [Node(0, 1), Node(1, 1)], [0, 1]) == 2
  {
    PairCost(Node(0, 0), [Node(0, 1), Node(1, 1)], 0, 1);
  }

  /** The two-fire test: from (0,0), fires at (0,1) and (1,1) are best visited in
      the given order, for a total distance of 2. */
  lemma TwoFireTour()
    ensures ExactTour(Node(0, 0), [Node(0, 1), Node(1, 1)]) == [0, 1]
    ensures PathCost(Node(0, 0), [Node(0, 1), Node(1, 1)], [0, 1]) == 2
  {
    var station := Node(0, 0);
    var B := [Node(0, 1), Node(1, 1)];
    var orders := AllOrders(2);
    TwoFireOrders();
    TwoFireReversedCost();
    TwoFireInOrderCost();
    assert |orders[..1]| == 1;
    assert Cheapest(station, B, orders) == 1;
  }

  /** The two-firefighter test's buildings: (0,1) and (1,0), both burning. */
  const CrossFires: seq<Node> := [Node(0, 1), Node(1, 0)]
  const CrossBurning: map<Node, bool> := map[Node(0, 1) := true, Node(1, 0) := true]

  /** Both firefighters at the station (0,0), nobody has walked yet. */
  function CrossStart(): (s: Snapshot)
    ensures Shaped(s, 2)
  {
    Start([Node(0, 0), Node(0, 0)], [0, 0], CrossBurning, CrossFires)
  }

  /** Both firefighters are one block from each fire. */
  lemma CrossStartGrid(s0: Snapshot)
    requires s0 == CrossStart()
    ensures s0.grid == [[Dist(1), Dist(1)], [Dist(1), Dist(1)]]
  {
    forall r, j | 0 <= r < 2 && 0 <= j < 2
      ensures s0.grid[r][j] == Dist(1)
    {
      assert s0.locs[r] == Node(0, 0) && Burning(CrossBurning, CrossFires[j]);
    }
    assert s0.grid[0] == [Dist(1), Dist(1)] && s0.grid[1] == [Dist(1), Dist(1)];
  }

  /** First step: every cell is 1, both columns sum to 2, nobody has walked, so
      enumeration order picks firefighter 0 for building 0. */
  lemma CrossFirstChoice()
    ensures Choose([[Dist(1), Dist(1)], [Dist(1), Dist(1)]], 2, [0, 0]) == Some(Move(0, 0))
  {
    var g := [[Dist(1), Dist(1)], [Dist(1), Dist(1)]];
    assert ColumnSum(g, 2, 2, 0) == 2 && ColumnSum(g, 2, 2, 1) == 2;
    forall c | IsCandidate(g, 2, c) && c != Move(0, 0)
      ensures Preferred(g, 2, [0, 0], Move(0, 0), c)
    {
      if c == Move(0, 1) {
      } else if c == Move(1, 0) {
      } else {
        assert c == Move(1, 1);
      }
    }
    assert LexBest(g, 2, [0, 0], Move(0, 0));
    ChooseSpec(g, 2, [0, 0]);
  }

  /** The state after the first step: firefighter 0 stands on (0,1), column 0 is
      blanked, and row 0 now holds the distance 2 from (0,1) to (1,0). */
  lemma CrossFirstState(s0: Snapshot)
    requires s0 == CrossStart()
    ensures var s1 := Commit(s0, CrossFires, Move(0, 0));
      && s1.grid == [[Sentinel, Dist(2)], [Sentinel, Dist(1)]]
      && s1.locs == [Node(0, 1), Node(0, 0)] && s1.travelled == [1, 0]
      && s1.burning == CrossBurning[Node(0, 1) := false]
  {
    CrossStartGrid(s0);
    var burning := CrossBurning[Node(0, 1) := false];
    assert Burning(s0.burning, CrossFires[0]);
    var g1 := Refresh(s0.grid, 0, 0, CrossFires, burning);
    RefreshCell(s0.grid, 0, 0, CrossFires, burning, 0, 0);
    RefreshCell(s0.grid, 0, 0, CrossFires, burning, 0, 1);
    RefreshCell(s0.grid, 0, 0, CrossFires, burning, 1, 0);
    RefreshCell(s0.grid, 0, 0, CrossFires, burning, 1, 1);
    assert g1[0] == [Sentinel, Dist(2)] && g1[1] == [Sentinel, Dist(1)];
  }

  /** Second step: firefighter 1 is 1 away from (1,0), firefighter 0 is 2 away. */
  lemma CrossSecondChoice()
    ensures Choose([[Sentinel, Dist(2)], [Sentinel, Dist(1)]], 2, [1, 0]) == Some(Move(1, 1))
  {
    var g := [[Sentinel, Dist(2)], [Sentinel, Dist(1)]];
    forall c | IsCandidate(g, 2, c) && c != Move(1, 1)
      ensures Preferred(g, 2, [1, 0], Move(1, 1), c)
    {
      assert c == Move(0, 1);
    }
    assert LexBest(g, 2, [1, 0], Move(1, 1));
    ChooseSpec(g, 2, [1, 0]);
  }

  /** After the second step firefighter 1 stands on (1,0), one block from the
      station, and neither building burns. */
  lemma CrossSecondState(s1: Snapshot)
    requires s1.grid == [[Sentinel, Dist(2)], [Sentinel, Dist(1)]]
    requires s1.locs == [Node(0, 1), Node(0, 0)] && s1.travelled == [1, 0]
    requires s1.burning == CrossBurning[Node(0, 1) := false]
    ensures var s2 := Commit(s1, CrossFires, Move(1, 1));
      && s2.locs == [Node(0, 1), Node(1, 0)] && s2.travelled == [1, 1]
      && !Burning(s2.burning, Node(0, 1)) && !Burning(s2.burning, Node(1, 0))
  {
    assert Burning(s1.burning, CrossFires[1]);
  }

  /** `doubleFirefighterDoubleFire`: from the station (0,0), two firefighters and
      fires at (0,1) and (1,0): firefighter 0 takes (0,1) and firefighter 1 takes
      (1,0), one block each, both fires out. */
  lemma CrossRun(s0: Snapshot)
    requires s0 == CrossStart()
    ensures var run := GreedyRun(s0, CrossFires, 2);
      && run.outcome == Completed
      && run.log == [Move(0, 0), Move(1, 1)]
      && run.state.locs == [Node(0, 1), Node(1, 0)]
      && run.state.travelled == [1, 1]
      && !Burning(run.state.burning, Node(0, 1)) && !Burning(run.state.burning, Node(1, 0))
  {
    var s1 := CrossFirstRun(s0);
    CrossSecondRun(s0, s1);
    CrossSecondState(s1);
  }

  /** The first iteration of `doubleFirefighterDoubleFire`: firefighter 0 to (0,1). */
  lemma CrossFirstRun(s0: Snapshot) returns (s1: Snapshot)
    requires s0 == CrossStart()
    ensures GreedyRun(s0, CrossFires, 1) == Run(Completed, s1, [Move(0, 0)])
    ensures s1.grid == [[Sentinel, Dist(2)], [Sentinel, Dist(1)]]
    ensures s1.locs == [Node(0, 1), Node(0, 0)] && s1.travelled == [1, 0]
    ensures s1.burning == CrossBurning[Node(0, 1) := false]
  {
    CrossStartGrid(s0);
    CrossFirstChoice();
    AdvanceCommits(s0, CrossFires, [], Move(0, 0));
    assert Burning(s0.burning, CrossFires[0]);
    s1 := Commit(s0, CrossFires, Move(0, 0));
    CrossFirstState(s0);
  }

  /** The second iteration of `doubleFirefighterDoubleFire`: firefighter 1 to (1,0). */
  lemma CrossSecondRun(s0: Snapshot, s1: Snapshot)
    requires s0 == CrossStart() && GreedyRun(s0, CrossFires, 1) == Run(Completed, s1, [Move(0, 0)])
    requires s1.grid == [[Sentinel, Dist(2)], [Sentinel, Dist(1)]]
    requires s1.locs == [Node(0, 1), Node(0, 0)] && s1.travelled == [1, 0]
    requires s1.burning == CrossBurning[Node(0, 1) := false]
    ensures GreedyRun(s0, CrossFires, 2) == Run(Completed, Commit(s1, CrossFires, Move(1, 1)), [Move(0, 0), Move(1, 1)])
  {
    GreedyRunNext(s0, CrossFires, 2);
    CrossSecondChoice();
    AdvanceCommits(s1, CrossFires, [Move(0, 0)], Move(1, 1));
    assert Burning(s1.burning, CrossFires[1]);
    assert [Move(0, 0)] + [Move(1, 1)] == [Move(0, 0), Move(1, 1)];
  }

  /** Two firefighters and a batch whose only building does not burn: the matrix
      holds nothing but the sentinel, so the first step finds no move and throws. */
  lemma ColdBuildingThrows()
    ensures GreedyRun(Start([Node(0, 0), Node(0, 0)], [0, 0], map[Node(0, 1) := false], [Node(0, 1)]),
                      [Node(0, 1)], 1).outcome == Threw(IndexOutOfBounds)
  {
    var s0 := Start([Node(0, 0), Node(0, 0)], [0, 0], map[Node(0, 1) := false], [Node(0, 1)]);
    assert s0.grid[0][0] == Sentinel && s0.grid[1][0] == Sentinel;
    ChooseSpec(s0.grid, 1, s0.travelled);
  }

  /** The whole `doubleFirefighterDoubleFire` test against the dispatcher: the two
      distances add up to 2, a firefighter stands on each fire, and neither burns. */
  method DoubleFirefighterDoubleFire() returns (total: int, atOne: bool, atTwo: bool, stillBurning: bool)
    ensures total == 2 && atOne && atTwo && !stillBurning
  {
    var city := new City(Node(0, 0), CrossBurning);
    var dispatch := new FireDispatch(city);
    dispatch.SetFirefighters(2);
    assert dispatch.Locations() == [Node(0, 0), Node(0, 0)];
    assert dispatch.Travelled() == [0, 0];
    var outcome := dispatch.DispatchFirefighters(CrossFires);
    CrossRun(CrossStart());
    var a, b := dispatch.firefighters[0], dispatch.firefighters[1];
    assert dispatch.Locations()[0] == a.location && dispatch.Locations()[1] == b.location;
    assert dispatch.Travelled()[0] == a.distanceTraveled && dispatch.Travelled()[1] == b.distanceTraveled;
    total := a.distanceTraveled + b.distanceTraveled;
    var at, bt := a.location, b.location;
    atOne := at == Node(0, 1) || bt == Node(0, 1);
    atTwo := at == Node(1, 0) || bt == Node(1, 0);
    var one, two := city.IsBurning(Node(0, 1)), city.IsBurning(Node(1, 0));
    stillBurning := one || two;
  }

  /** One firefighter and a batch holding one building that does not burn: the exact
      solver completes, the walk skips the cold building, and nobody moves. */
  method LoneColdBuilding() returns (outcome: Outcome, travelled: int, at: Node)
    ensures outcome == Completed && travelled == 0 && at == Node(0, 0)
  {
    var city := new City(Node(0, 0), map[Node(0, 1) := false]);
    var dispatch := new FireDispatch(city);
    dispatch.SetFirefighters(1);
    var B := [Node(0, 1)];
    outcome := dispatch.DispatchFirefighters(B);
    var tour := ExactTour(city.fireStation, B);
    assert tour == [0];
    assert PathNodes(B, tour) == [Node(0, 1)];
    assert Visited(map[Node(0, 1) := false], [Node(0, 1)]) == [];
    travelled := dispatch.firefighters[0].distanceTraveled;
    at := dispatch.firefighters[0].location;
  }

  /** The same dispatcher, two firefighters, and a batch holding one building that
      does not burn: the dispatch ends with `IndexOutOfBounds`. */
  method ColdBuildingDispatch() returns (outcome: Outcome)
    ensures outcome == Threw(IndexOutOfBounds)
  {
    var city := new City(Node(0, 0), map[Node(0, 1) := false]);
    var dispatch := new FireDispatch(city);
    dispatch.SetFirefighters(2);
    assert dispatch.Locations() == [Node(0, 0), Node(0, 0)];
    assert dispatch.Travelled() == [0, 0];
    outcome := dispatch.DispatchFirefighters([Node(0, 1)]);
    ColdBuildingThrows();
  }
}
