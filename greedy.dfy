/** `greedyDispatch` as a function of what it reads and writes: the distance matrix,
    every firefighter's location and distance travelled, and the burning flags. The
    dispatcher's methods are proved to follow it step by step. */
module Greedy {
  import opened Results
  import opened Geometry
  import opened Moves
  import opened CityModel
  import opened Selection

  /** The part of the dispatcher and the city that one greedy step reads or writes. */
  datatype Snapshot = Snapshot(grid: seq<seq<Cell>>, locs: seq<Node>, travelled: seq<int>, burning: map<Node, bool>)

  /** One matrix row and one distance per firefighter, one column per building. */
  predicate Shaped(s: Snapshot, cols: nat)
  {
    |s.grid| == |s.locs| && |s.travelled| == |s.locs| && Rect(s.grid, cols)
  }

  /** The matrix after the first loop of `greedyDispatch`: row `r` holds the distances
      from firefighter `r` to the burning buildings, the sentinel elsewhere. */
  function Filled(locs: seq<Node>, burning: map<Node, bool>, buildings: seq<Node>): (g: seq<seq<Cell>>)
    ensures |g| == |locs| && Rect(g, |buildings|)
  {
    seq(|locs|, r requires 0 <= r < |locs| =>
      seq(|buildings|, j requires 0 <= j < |buildings| => DistanceCell(locs[r], buildings[j], Burning(burning, buildings[j]))))
  }

  /** The state the step loop of `greedyDispatch` starts from. */
  function Start(locs: seq<Node>, travelled: seq<int>, burning: map<Node, bool>, buildings: seq<Node>): (s: Snapshot)
    requires |travelled| == |locs|
    ensures Shaped(s, |buildings|)
  {
    Snapshot(Filled(locs, burning, buildings), locs, travelled, burning)
  }

  /** The matrix after firefighter `f` moved to building `b`: column `b` blanked, row
      `f` recomputed from the building under the new burning flags, the rest kept. */
  function Refresh(grid: seq<seq<Cell>>, f: nat, b: nat, buildings: seq<Node>, burning: map<Node, bool>): (g: seq<seq<Cell>>)
    requires Rect(grid, |buildings|) && b < |buildings|
    ensures |g| == |grid| && Rect(g, |buildings|)
  {
    seq(|grid|, r requires 0 <= r < |grid| =>
      seq(|buildings|, j requires 0 <= j < |buildings| =>
        if j == b then Sentinel
        else if r == f then DistanceCell(buildings[b], buildings[j], Burning(burning, buildings[j]))
        else grid[r][j]))
  }

  lemma RefreshCell(grid: seq<seq<Cell>>, f: nat, b: nat, buildings: seq<Node>, burning: map<Node, bool>, r: nat, j: nat)
    requires Rect(grid, |buildings|) && b < |buildings| && r < |grid| && j < |buildings|
    ensures Refresh(grid, f, b, buildings, burning)[r][j] ==
      if j == b then Sentinel
      else if r == f then DistanceCell(buildings[b], buildings[j], Burning(burning, buildings[j]))
      else grid[r][j]
  {
  }

  /** The `try` block of a greedy step for move `mv`: when the building burns, the
      fire is put out, the firefighter walks there and the matrix is refreshed; when
      it does not (`NoFireFoundException`), nothing changes. */
  function Commit(s: Snapshot, buildings: seq<Node>, mv: Move): (t: Snapshot)
    requires Shaped(s, |buildings|) && mv.firefighterIdx < |s.locs| && mv.buildingIdx < |buildings|
    ensures Shaped(t, |buildings|) && |t.locs| == |s.locs|
  {
    var f, b := mv.firefighterIdx, mv.buildingIdx;
    var site := buildings[b];
    if !Burning(s.burning, site) then s
    else
      var burning := s.burning[site := false];
      Snapshot(Refresh(s.grid, f, b, buildings, burning), s.locs[f := site],
               s.travelled[f := s.travelled[f] + AbsDistance(s.locs[f], site)], burning)
  }

  /** A greedy dispatch so far: how it ended, the state it reached, and the moves
      whose fire it put out, in order. */
  datatype Run = Run(outcome: Outcome, state: Snapshot, log: seq<Move>)

  /** One more iteration of the step loop: a run that has thrown stays as it is; with
      no candidate left, `possibleMoves.get(0)` throws; otherwise the greedy choice
      is committed, and logged when it put a fire out. */
  function Advance(run: Run, buildings: seq<Node>): (next: Run)
    requires Shaped(run.state, |buildings|)
    ensures Shaped(next.state, |buildings|) && |next.state.locs| == |run.state.locs|
  {
    if run.outcome.Threw? then run
    else
      var s := run.state;
      ChooseExists(s.grid, |buildings|, s.travelled);
      match Choose(s.grid, |buildings|, s.travelled)
      case None => Run(Threw(IndexOutOfBounds), s, run.log)
      case Some(mv) =>
        Run(Completed, Commit(s, buildings, mv),
            if Burning(s.burning, buildings[mv.buildingIdx]) then run.log + [mv] else run.log)
  }

  /** A completed run whose greedy choice is `mv` advances by committing `mv`. */
  lemma AdvanceCommits(s: Snapshot, buildings: seq<Node>, log: seq<Move>, mv: Move)
    requires Shaped(s, |buildings|) && Choose(s.grid, |buildings|, s.travelled) == Some(mv)
    requires mv.firefighterIdx < |s.locs| && mv.buildingIdx < |buildings|
    ensures Advance(Run(Completed, s, log), buildings)
            == Run(Completed, Commit(s, buildings, mv),
                   if Burning(s.burning, buildings[mv.buildingIdx]) then log + [mv] else log)
  {
  }

  /** The first `i` iterations of the step loop from `s0`. */
  function GreedyRun(s0: Snapshot, buildings: seq<Node>, i: nat): (run: Run)
    requires Shaped(s0, |buildings|)
    ensures Shaped(run.state, |buildings|) && |run.state.locs| == |s0.locs|
    decreases i, 1
  {
    if i == 0 then Run(Completed, s0, []) else Iteration(s0, buildings, i)
  }

  /** Iteration `i` (counting from 1) of the step loop from `s0`. */
  function Iteration(s0: Snapshot, buildings: seq<Node>, i: nat): (run: Run)
    requires Shaped(s0, |buildings|) && i >= 1
    ensures Shaped(run.state, |buildings|) && |run.state.locs| == |s0.locs|
    decreases i, 0
  {
    Advance(GreedyRun(s0, buildings, i - 1), buildings)
  }

  /** A run of `i` iterations is one more iteration after a run of `i - 1`. */
  lemma GreedyRunNext(s0: Snapshot, buildings: seq<Node>, i: nat)
    requires Shaped(s0, |buildings|) && i >= 1
    ensures GreedyRun(s0, buildings, i) == Advance(GreedyRun(s0, buildings, i - 1), buildings)
  {
    assert GreedyRun(s0, buildings, i) == Iteration(s0, buildings, i);
  }

  /** An iteration only ever puts out a building of the batch. */
  lemma AdvanceBurning(run: Run, buildings: seq<Node>)
    requires Shaped(run.state, |buildings|)
    ensures forall n :: Burning(Advance(run, buildings).state.burning, n) ==> Burning(run.state.burning, n)
    ensures forall n :: n !in buildings ==> Burning(Advance(run, buildings).state.burning, n) == Burning(run.state.burning, n)
  {
    ChooseExists(run.state.grid, |buildings|, run.state.travelled);
  }

  /** A greedy dispatch never sets a fire, and leaves every building outside the
      batch as it found it. */
  lemma {:induction false} GreedyRunBurning(s0: Snapshot, buildings: seq<Node>, n: nat)
    requires Shaped(s0, |buildings|)
    ensures forall x :: Burning(GreedyRun(s0, buildings, n).state.burning, x) ==> Burning(s0.burning, x)
    ensures forall x :: x !in buildings ==> Burning(GreedyRun(s0, buildings, n).state.burning, x) == Burning(s0.burning, x)
    decreases n
  {
    if n > 0 {
      GreedyRunBurning(s0, buildings, n - 1);
      AdvanceBurning(GreedyRun(s0, buildings, n - 1), buildings);
    }
  }

  /** Once a run has thrown, later iterations change nothing. */
  lemma {:induction false} ThrownStays(s0: Snapshot, buildings: seq<Node>, i: nat, n: nat)
    requires Shaped(s0, |buildings|) && i <= n
    requires GreedyRun(s0, buildings, i).outcome.Threw?
    ensures GreedyRun(s0, buildings, n) == GreedyRun(s0, buildings, i)
    decreases n
  {
    if n > i {
      ThrownStays(s0, buildings, i, n - 1);
    }
  }

  /** With no firefighter the matrix has no row, so the first iteration throws. */
  lemma NoFirefighterThrows(s0: Snapshot, buildings: seq<Node>)
    requires Shaped(s0, |buildings|) && |s0.locs| == 0 && |buildings| > 0
    ensures GreedyRun(s0, buildings, |buildings|).outcome == Threw(IndexOutOfBounds)
  {
    GreedyRunNext(s0, buildings, 1);
    ChooseExists(s0.grid, |buildings|, s0.travelled);
    ThrownStays(s0, buildings, 1, |buildings|);
  }

  /** A greedy dispatch throws exactly when some iteration finds every cell of the
      matrix holding the sentinel; it only ever throws `IndexOutOfBounds`. */
  lemma {:induction false} GreedyRunThrows(s0: Snapshot, buildings: seq<Node>, n: nat)
    requires Shaped(s0, |buildings|)
    ensures GreedyRun(s0, buildings, n).outcome == Completed || GreedyRun(s0, buildings, n).outcome == Threw(IndexOutOfBounds)
    ensures GreedyRun(s0, buildings, n).outcome.Threw? <==>
      exists i :: 0 <= i < n && GreedyRun(s0, buildings, i).outcome == Completed
                 && NoCandidate(GreedyRun(s0, buildings, i).state.grid, |buildings|)
    decreases n
  {
    if n > 0 {
      GreedyRunThrows(s0, buildings, n - 1);
      GreedyRunNext(s0, buildings, n);
      var prev := GreedyRun(s0, buildings, n - 1);
      ChooseExists(prev.state.grid, |buildings|, prev.state.travelled);
      if prev.outcome.Threw? {
        var i :| 0 <= i < n - 1 && GreedyRun(s0, buildings, i).outcome == Completed
                 && NoCandidate(GreedyRun(s0, buildings, i).state.grid, |buildings|);
        assert 0 <= i < n;
      } else if GreedyRun(s0, buildings, n).outcome.Threw? {
        assert NoCandidate(prev.state.grid, |buildings|);
      } else {
        forall i | 0 <= i < n && GreedyRun(s0, buildings, i).outcome == Completed
          ensures !NoCandidate(GreedyRun(s0, buildings, i).state.grid, |buildings|)
        {
          if i < n - 1 {
          } else {
            assert GreedyRun(s0, buildings, i) == prev;
          }
        }
      }
    }
  }

  /** An iteration either logs nothing, or logs the greedy choice of a completed run
      whose building was burning. */
  lemma AdvanceLog(run: Run, buildings: seq<Node>)
    requires Shaped(run.state, |buildings|)
    ensures var next := Advance(run, buildings);
      || next.log == run.log
      || (&& run.outcome == Completed
          && ChosenFrom(run, buildings, |run.log|, next.log[|run.log|])
          && next.log == run.log + [next.log[|run.log|]])
  {
    ChooseExists(run.state.grid, |buildings|, run.state.travelled);
  }

  /** Move `mv`, logged as number `k`, was the greedy choice of `before` and put a
      fire out. */
  predicate ChosenFrom(before: Run, buildings: seq<Node>, k: nat, mv: Move)
    requires Shaped(before.state, |buildings|)
  {
    && before.outcome == Completed && |before.log| == k && mv.buildingIdx < |buildings|
    && Choose(before.state.grid, |buildings|, before.state.travelled) == Some(mv)
    && Burning(before.state.burning, buildings[mv.buildingIdx])
  }

  /** Every logged move is the greedy choice of the state reached just before it,
      and that move put out a burning building. */
  lemma {:induction false} LoggedAreChoices(s0: Snapshot, buildings: seq<Node>, n: nat, k: nat)
    requires Shaped(s0, |buildings|)
    requires k < |GreedyRun(s0, buildings, n).log|
    ensures exists i :: 0 <= i < n && ChosenFrom(GreedyRun(s0, buildings, i), buildings, k, GreedyRun(s0, buildings, n).log[k])
    decreases n
  {
    if n > 0 {
      var prev := GreedyRun(s0, buildings, n - 1);
      var run := GreedyRun(s0, buildings, n);
      AdvanceLog(prev, buildings);
      if k < |prev.log| {
        LoggedAreChoices(s0, buildings, n - 1, k);
        assert run.log[k] == prev.log[k];
      } else {
        assert ChosenFrom(prev, buildings, k, run.log[k]);
      }
    }
  }
}
