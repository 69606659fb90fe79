/** The greedy solver's move selection, on a snapshot of the distance matrix:
    candidate moves, `getMins`, and the three tie-break tiers. */
module Selection {
  import opened Results
  import opened Geometry
  import opened Moves

  /** `Integer.MAX_VALUE`, the matrix value that marks a claimed or non-burning building. */
  const IntegerMaxValue: int := 0x7FFF_FFFF

  /** A distance matrix cell: a real distance, or the "claimed / not burning" sentinel. */
  datatype Cell = Sentinel | Dist(d: nat)

  /** The integer the source stores in a cell. */
  function Value(c: Cell): int
  {
    match c
    case Sentinel => IntegerMaxValue
    case Dist(d) => d
  }

  /** The cell `updateDistances` writes for a firefighter at `loc` and a building at `target`. */
  function DistanceCell(loc: Node, target: Node, burning: bool): Cell
  {
    if burning then Dist(AbsDistance(loc, target)) else Sentinel
  }

  /** Every row of the matrix has `cols` cells. */
  predicate Rect(grid: seq<seq<Cell>>, cols: nat)
  {
    forall r :: 0 <= r < |grid| ==> |grid[r]| == cols
  }

  predicate IsCandidate(grid: seq<seq<Cell>>, cols: nat, m: Move)
    requires Rect(grid, cols)
  {
    m.firefighterIdx < |grid| && m.buildingIdx < cols && grid[m.firefighterIdx][m.buildingIdx].Dist?
  }

  predicate NoCandidate(grid: seq<seq<Cell>>, cols: nat)
    requires Rect(grid, cols)
  {
    forall r, j :: 0 <= r < |grid| && 0 <= j < cols ==> grid[r][j] == Sentinel
  }

  /** Strictly increasing in enumeration order. */
  predicate Sorted(ms: seq<Move>)
  {
    forall i, j :: 0 <= i < j < |ms| ==> Before(ms[i], ms[j])
  }

  /** The non-sentinel cells of row `r` among its first `j` columns, left to right. */
  function RowCandidates(grid: seq<seq<Cell>>, cols: nat, r: nat, j: nat): seq<Move>
    requires Rect(grid, cols) && r < |grid| && j <= cols
  {
    if j == 0 then []
    else RowCandidates(grid, cols, r, j - 1) + (if grid[r][j - 1].Dist? then [Move(r, j - 1)] else [])
  }

  /** `getPossibleMoves` over the first `rows` rows: firefighter-major, then building. */
  function Candidates(grid: seq<seq<Cell>>, cols: nat, rows: nat): seq<Move>
    requires Rect(grid, cols) && rows <= |grid|
  {
    if rows == 0 then []
    else Candidates(grid, cols, rows - 1) + RowCandidates(grid, cols, rows - 1, cols)
  }

  lemma {:induction false} RowCandidatesSpec(grid: seq<seq<Cell>>, cols: nat, r: nat, j: nat)
    requires Rect(grid, cols) && r < |grid| && j <= cols
    ensures forall m :: m in RowCandidates(grid, cols, r, j) <==>
      m.firefighterIdx == r && m.buildingIdx < j && grid[r][m.buildingIdx].Dist?
    ensures Sorted(RowCandidates(grid, cols, r, j))
    decreases j
  {
    if j > 0 {
      RowCandidatesSpec(grid, cols, r, j - 1);
      var a := RowCandidates(grid, cols, r, j - 1);
      var t := if grid[r][j - 1].Dist? then [Move(r, j - 1)] else [];
      assert RowCandidates(grid, cols, r, j) == a + t;
      forall m: Move
        ensures m in a + t <==> m.firefighterIdx == r && m.buildingIdx < j && grid[r][m.buildingIdx].Dist?
      {
        assert m in a + t <==> m in a || m in t;
      }
      forall i, k | 0 <= i < k < |a + t|
        ensures Before((a + t)[i], (a + t)[k])
      {
        if k >= |a| {
          assert (a + t)[i] == a[i] && a[i] in a;
        } else {
          assert (a + t)[i] == a[i] && (a + t)[k] == a[k];
        }
      }
    }
  }

  /** The candidates are exactly the non-sentinel cells, in row-major order. */
  lemma {:induction false} CandidatesSpec(grid: seq<seq<Cell>>, cols: nat, rows: nat)
    requires Rect(grid, cols) && rows <= |grid|
    ensures forall m :: m in Candidates(grid, cols, rows) <==>
      m.firefighterIdx < rows && IsCandidate(grid, cols, m)
    ensures Sorted(Candidates(grid, cols, rows))
    decreases rows
  {
    if rows > 0 {
      CandidatesSpec(grid, cols, rows - 1);
      RowCandidatesSpec(grid, cols, rows - 1, cols);
      var a := Candidates(grid, cols, rows - 1);
      var b := RowCandidates(grid, cols, rows - 1, cols);
      forall i, j | 0 <= i < j < |a + b|
        ensures Before((a + b)[i], (a + b)[j])
      {
        if j >= |a| && i < |a| {
          assert a[i] in a && b[j - |a|] in b;
        }
      }
    }
  }

  /** The least value of a non-empty list. */
  function MinOf(vs: seq<int>): int
    requires |vs| > 0
  {
    if |vs| == 1 then vs[0]
    else
      var m := MinOf(vs[..|vs| - 1]);
      if vs[|vs| - 1] < m then vs[|vs| - 1] else m
  }

  lemma {:induction false} MinOfIsMin(vs: seq<int>)
    requires |vs| > 0
    ensures forall i :: 0 <= i < |vs| ==> MinOf(vs) <= vs[i]
    ensures exists i :: 0 <= i < |vs| && vs[i] == MinOf(vs)
    decreases |vs|
  {
    if |vs| > 1 {
      var init := vs[..|vs| - 1];
      MinOfIsMin(init);
      var i :| 0 <= i < |init| && init[i] == MinOf(init);
      assert vs[i] == init[i];
      if vs[|vs| - 1] < MinOf(init) {
        assert vs[|vs| - 1] == MinOf(vs);
      }
    } else {
      assert vs[0] == MinOf(vs);
    }
  }

  /** The moves whose value is `v`, in their original order. */
  function KeepAt(moves: seq<Move>, values: seq<int>, v: int): seq<Move>
    requires |moves| == |values|
  {
    if moves == [] then []
    else
      var n := |moves| - 1;
      KeepAt(moves[..n], values[..n], v) + (if values[n] == v then [moves[n]] else [])
  }

  /** The moves whose value is least, in their original order. */
  function Minimal(moves: seq<Move>, values: seq<int>): seq<Move>
    requires |moves| == |values|
  {
    if values == [] then [] else KeepAt(moves, values, MinOf(values))
  }

  lemma {:induction false} KeepAtSpec(moves: seq<Move>, values: seq<int>, v: int)
    requires |moves| == |values|
    ensures forall x :: x in KeepAt(moves, values, v) <==>
      exists i :: 0 <= i < |moves| && moves[i] == x && values[i] == v
    ensures Sorted(moves) ==> Sorted(KeepAt(moves, values, v))
    decreases |moves|
  {
    if moves != [] {
      var n := |moves| - 1;
      KeepAtSpec(moves[..n], values[..n], v);
      forall x | x in KeepAt(moves, values, v)
        ensures exists i :: 0 <= i < |moves| && moves[i] == x && values[i] == v
      {
        if x in KeepAt(moves[..n], values[..n], v) {
          var i :| 0 <= i < n && moves[..n][i] == x && values[..n][i] == v;
          assert moves[i] == x && values[i] == v;
        } else {
          assert moves[n] == x && values[n] == v;
        }
      }
      forall x | exists i :: 0 <= i < |moves| && moves[i] == x && values[i] == v
        ensures x in KeepAt(moves, values, v)
      {
        var i :| 0 <= i < |moves| && moves[i] == x && values[i] == v;
        if i < n {
          assert moves[..n][i] == x && values[..n][i] == v;
        }
      }
      if Sorted(moves) {
        var front := KeepAt(moves[..n], values[..n], v);
        forall y | y in front
          ensures Before(y, moves[n])
        {
          var i :| 0 <= i < n && moves[..n][i] == y && values[..n][i] == v;
        }
      }
    }
  }

  /** `getMins(moves, values)`: a running minimum that starts at "none yet"; a
      smaller value restarts the kept list, an equal value extends it. */
  method GetMins(moves: seq<Move>, values: seq<int>) returns (mins: seq<Move>)
    requires |moves| == |values|
    ensures mins == Minimal(moves, values)
  {
    var minVal: Option<int> := None;
    mins := [];
    var i := 0;
    while i < |values|
      invariant 0 <= i <= |values|
      invariant i == 0 ==> minVal == None && mins == []
      invariant i > 0 ==> minVal == Some(MinOf(values[..i]))
      invariant i > 0 ==> mins == KeepAt(moves[..i], values[..i], MinOf(values[..i]))
    {
      var v := values[i];
      assert moves[..i + 1][..i] == moves[..i] && values[..i + 1][..i] == values[..i];
      if minVal.None? || v < minVal.value {
        if i > 0 {
          MinOfIsMin(values[..i]);
          KeepAtNone(moves[..i], values[..i], v);
        } else {
          assert moves[..0] == [];
        }
        minVal := Some(v);
        mins := [moves[i]];
      } else if v == minVal.value {
        mins := mins + [moves[i]];
      }
      i := i + 1;
    }
    assert moves[..|moves|] == moves && values[..|values|] == values;
  }

  lemma {:induction false} KeepAtNone(moves: seq<Move>, values: seq<int>, v: int)
    requires |moves| == |values|
    requires forall i :: 0 <= i < |values| ==> values[i] != v
    ensures KeepAt(moves, values, v) == []
    decreases |moves|
  {
    if moves != [] {
      KeepAtNone(moves[..|moves| - 1], values[..|values| - 1], v);
    }
  }

  /** What `getMins` keeps: exactly the moves of least value, in their original
      order, and at least one whenever it is given one. */
  lemma MinimalSpec(moves: seq<Move>, values: seq<int>)
    requires |moves| == |values|
    ensures forall x :: x in Minimal(moves, values) <==>
      exists i :: 0 <= i < |moves| && moves[i] == x && (forall k :: 0 <= k < |values| ==> values[i] <= values[k])
    ensures |Minimal(moves, values)| > 0 <==> |moves| > 0
    ensures Sorted(moves) ==> Sorted(Minimal(moves, values))
  {
    if values != [] {
      var m := MinOf(values);
      MinOfIsMin(values);
      KeepAtSpec(moves, values, m);
      var i :| 0 <= i < |values| && values[i] == m;
      assert moves[i] in Minimal(moves, values);
      forall x | exists i :: 0 <= i < |moves| && moves[i] == x && (forall k :: 0 <= k < |values| ==> values[i] <= values[k])
        ensures x in Minimal(moves, values)
      {
        var j :| 0 <= j < |moves| && moves[j] == x && (forall k :: 0 <= k < |values| ==> values[j] <= values[k]);
        assert values[j] <= values[i];
      }
    }
  }

  /** `getMins` on at most one move returns it unchanged, so the source's
      "more than one move" guards do not change the outcome. */
  lemma MinimalOfShort(moves: seq<Move>, values: seq<int>)
    requires |moves| == |values| <= 1
    ensures Minimal(moves, values) == moves
  {
    if |moves| == 1 {
      assert moves[..0] == [] && values[..0] == [];
      assert MinOf(values) == values[0];
      assert KeepAt(moves[..0], values[..0], values[0]) == [];
      assert moves == [moves[0]];
    }
  }

  /** The three tie-break tiers, in the order the greedy solver applies them. */
  datatype Tier = ByDistance | ByColumnSum | ByTravel

  /** Sum over the first `rows` rows of column `b`: every firefighter's distance to building `b`. */
  function ColumnSum(grid: seq<seq<Cell>>, cols: nat, rows: nat, b: nat): int
    requires Rect(grid, cols) && rows <= |grid| && b < cols
  {
    if rows == 0 then 0 else ColumnSum(grid, cols, rows - 1, b) + Value(grid[rows - 1][b])
  }

  /** The value a tier minimises for move `m`: its matrix distance, the negated sum of
      its building's column (so the largest sum wins), or its firefighter's distance so far. */
  function Key(tier: Tier, grid: seq<seq<Cell>>, cols: nat, travelled: seq<int>, m: Move): int
    requires Rect(grid, cols)
  {
    match tier
    case ByDistance =>
      if m.firefighterIdx < |grid| && m.buildingIdx < cols then Value(grid[m.firefighterIdx][m.buildingIdx]) else 0
    case ByColumnSum =>
      if m.buildingIdx < cols then -ColumnSum(grid, cols, |grid|, m.buildingIdx) else 0
    case ByTravel =>
      if m.firefighterIdx < |travelled| then travelled[m.firefighterIdx] else 0
  }

  /** `moveToDist`, `moveToColumnSum`, `moveToDistTraveled`: one tier's values, move by move. */
  function Keys(tier: Tier, grid: seq<seq<Cell>>, cols: nat, travelled: seq<int>, moves: seq<Move>): (r: seq<int>)
    requires Rect(grid, cols)
    ensures |r| == |moves|
  {
    seq(|moves|, k requires 0 <= k < |moves| => Key(tier, grid, cols, travelled, moves[k]))
  }

  /** One tier: `getMins` of the moves against that tier's values. */
  function Narrow(tier: Tier, grid: seq<seq<Cell>>, cols: nat, travelled: seq<int>, moves: seq<Move>): seq<Move>
    requires Rect(grid, cols)
  {
    Minimal(moves, Keys(tier, grid, cols, travelled, moves))
  }

  /** A tier keeps exactly the moves whose key no other move undercuts, in order. */
  lemma NarrowSpec(tier: Tier, grid: seq<seq<Cell>>, cols: nat, travelled: seq<int>, moves: seq<Move>)
    requires Rect(grid, cols)
    ensures forall x :: x in Narrow(tier, grid, cols, travelled, moves) <==>
      x in moves && forall y :: y in moves ==> Key(tier, grid, cols, travelled, x) <= Key(tier, grid, cols, travelled, y)
    ensures |Narrow(tier, grid, cols, travelled, moves)| > 0 <==> |moves| > 0
    ensures Sorted(moves) ==> Sorted(Narrow(tier, grid, cols, travelled, moves))
  {
    var ks := Keys(tier, grid, cols, travelled, moves);
    MinimalSpec(moves, ks);
    forall x | x in moves && forall y :: y in moves ==> Key(tier, grid, cols, travelled, x) <= Key(tier, grid, cols, travelled, y)
      ensures x in Narrow(tier, grid, cols, travelled, moves)
    {
      var i :| 0 <= i < |moves| && moves[i] == x;
      forall k | 0 <= k < |ks|
        ensures ks[i] <= ks[k]
      {
        assert moves[k] in moves;
      }
    }
    forall x | x in Narrow(tier, grid, cols, travelled, moves)
      ensures x in moves && forall y :: y in moves ==> Key(tier, grid, cols, travelled, x) <= Key(tier, grid, cols, travelled, y)
    {
      var i :| 0 <= i < |moves| && moves[i] == x && (forall k :: 0 <= k < |ks| ==> ks[i] <= ks[k]);
      forall y | y in moves
        ensures Key(tier, grid, cols, travelled, x) <= Key(tier, grid, cols, travelled, y)
      {
        var k :| 0 <= k < |moves| && moves[k] == y;
        assert ks[i] <= ks[k];
      }
    }
  }

  /** The move one greedy iteration commits: the candidates, narrowed by distance,
      then by largest column sum, then by least distance travelled; the first
      survivor, or none when no candidate exists. */
  function Choose(grid: seq<seq<Cell>>, cols: nat, travelled: seq<int>): Option<Move>
    requires Rect(grid, cols)
  {
    var c0 := Candidates(grid, cols, |grid|);
    var c1 := Narrow(ByDistance, grid, cols, travelled, c0);
    var c2 := Narrow(ByColumnSum, grid, cols, travelled, c1);
    var c3 := Narrow(ByTravel, grid, cols, travelled, c2);
    if c3 == [] then None else Some(c3[0])
  }

  /** `a` is preferred to `c`: lexicographically smaller in (distance, negated column
      sum, distance travelled), and earlier in enumeration order on a full tie. */
  predicate Preferred(grid: seq<seq<Cell>>, cols: nat, travelled: seq<int>, a: Move, c: Move)
    requires Rect(grid, cols)
  {
    var da, dc := Key(ByDistance, grid, cols, travelled, a), Key(ByDistance, grid, cols, travelled, c);
    var sa, sc := Key(ByColumnSum, grid, cols, travelled, a), Key(ByColumnSum, grid, cols, travelled, c);
    var ta, tc := Key(ByTravel, grid, cols, travelled, a), Key(ByTravel, grid, cols, travelled, c);
    da < dc || (da == dc && (sa < sc || (sa == sc && (ta < tc || (ta == tc && Before(a, c))))))
  }

  /** `mv` is a candidate preferred to every other candidate. */
  ghost predicate LexBest(grid: seq<seq<Cell>>, cols: nat, travelled: seq<int>, mv: Move)
    requires Rect(grid, cols)
  {
    IsCandidate(grid, cols, mv)
    && forall c :: IsCandidate(grid, cols, c) && c != mv ==> Preferred(grid, cols, travelled, mv, c)
  }

  /** The greedy choice is the candidate preferred to all others, and there is a
      choice exactly when some cell is not the sentinel. */
  lemma ChooseSpec(grid: seq<seq<Cell>>, cols: nat, travelled: seq<int>)
    requires Rect(grid, cols)
    ensures Choose(grid, cols, travelled).None? <==> NoCandidate(grid, cols)
    ensures Choose(grid, cols, travelled).Some? ==> LexBest(grid, cols, travelled, Choose(grid, cols, travelled).value)
    ensures forall mv :: LexBest(grid, cols, travelled, mv) ==> Choose(grid, cols, travelled) == Some(mv)
  {
    ChooseExists(grid, cols, travelled);
    var choice := Choose(grid, cols, travelled);
    if choice.Some? {
      var mv := choice.value;
      forall c | IsCandidate(grid, cols, c) && c != mv
        ensures Preferred(grid, cols, travelled, mv, c)
      {
        ChosenPreferred(grid, cols, travelled, c);
      }
      assert LexBest(grid, cols, travelled, mv);
      forall mv' | LexBest(grid, cols, travelled, mv') && mv' != mv
        ensures false
      {
        PreferredAsymmetric(grid, cols, travelled, mv, mv');
      }
    }
  }

  /** The greedy choice is a candidate, and exists exactly when a candidate does. */
  lemma ChooseExists(grid: seq<seq<Cell>>, cols: nat, travelled: seq<int>)
    requires Rect(grid, cols)
    ensures Choose(grid, cols, travelled).None? <==> NoCandidate(grid, cols)
    ensures Choose(grid, cols, travelled).Some? ==> IsCandidate(grid, cols, Choose(grid, cols, travelled).value)
  {
    var c0 := Candidates(grid, cols, |grid|);
    var c1 := Narrow(ByDistance, grid, cols, travelled, c0);
    var c2 := Narrow(ByColumnSum, grid, cols, travelled, c1);
    var c3 := Narrow(ByTravel, grid, cols, travelled, c2);
    CandidatesSpec(grid, cols, |grid|);
    NarrowSpec(ByDistance, grid, cols, travelled, c0);
    NarrowSpec(ByColumnSum, grid, cols, travelled, c1);
    NarrowSpec(ByTravel, grid, cols, travelled, c2);
    if !NoCandidate(grid, cols) {
      var r, j :| 0 <= r < |grid| && 0 <= j < cols && grid[r][j] != Sentinel;
      assert Move(r, j) in c0;
    }
    if c3 != [] {
      assert c3[0] in c3;
    }
  }

  /** The greedy choice is preferred to each other candidate: it wins on the first
      tier where the two differ, or comes first when they tie on all three. */
  lemma ChosenPreferred(grid: seq<seq<Cell>>, cols: nat, travelled: seq<int>, c: Move)
    requires Rect(grid, cols)
    requires Choose(grid, cols, travelled).Some?
    requires IsCandidate(grid, cols, c) && c != Choose(grid, cols, travelled).value
    ensures Preferred(grid, cols, travelled, Choose(grid, cols, travelled).value, c)
  {
    var c0 := Candidates(grid, cols, |grid|);
    var c1 := Narrow(ByDistance, grid, cols, travelled, c0);
    var c2 := Narrow(ByColumnSum, grid, cols, travelled, c1);
    var c3 := Narrow(ByTravel, grid, cols, travelled, c2);
    CandidatesSpec(grid, cols, |grid|);
    NarrowSpec(ByDistance, grid, cols, travelled, c0);
    NarrowSpec(ByColumnSum, grid, cols, travelled, c1);
    NarrowSpec(ByTravel, grid, cols, travelled, c2);
    var mv := c3[0];
    assert mv in c3;
    assert c in c0;
    if c in c3 {
      var i :| 0 <= i < |c3| && c3[i] == c;
      assert Before(c3[0], c3[i]);
    }
  }

  lemma PreferredAsymmetric(grid: seq<seq<Cell>>, cols: nat, travelled: seq<int>, a: Move, c: Move)
    requires Rect(grid, cols)
    ensures !(Preferred(grid, cols, travelled, a, c) && Preferred(grid, cols, travelled, c, a))
  {
  }
}
