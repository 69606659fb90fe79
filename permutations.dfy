/** `permute`: every ordering of an index array, built by repeated insertion. */
module Permutations {
  import opened Results

  /** The largest input `permute` accepts. */
  const MaxPermuted: nat := 10

  function Factorial(n: nat): (r: nat)
    ensures r >= 1
  {
    if n == 0 then 1 else n * Factorial(n - 1)
  }

  /** No entry of `s` occurs twice. */
  predicate Distinct<T(==)>(s: seq<T>)
  {
    forall i, j :: 0 <= i < j < |s| ==> s[i] != s[j]
  }

  /** `newPerm.add(j, x)`: `p` with `x` inserted before position `j`. */
  function InsertAt(p: seq<int>, j: nat, x: int): seq<int>
    requires j <= |p|
  {
    p[..j] + [x] + p[j..]
  }

  /** One pass of the innermost loop: `x` inserted at position `j` of every list of `P`, in order. */
  function Column(P: seq<seq<int>>, x: int, j: nat): (r: seq<seq<int>>)
    requires forall p :: p in P ==> j <= |p|
    ensures |r| == |P|
  {
    seq(|P|, k requires 0 <= k < |P| => InsertAt(P[k], j, x))
  }

  /** The passes for positions 0 .. c-1, position-major as the middle loop runs them. */
  function Layers(P: seq<seq<int>>, x: int, c: nat): seq<seq<int>>
    requires forall p :: p in P ==> c <= |p| + 1
  {
    if c == 0 then [] else Layers(P, x, c - 1) + Column(P, x, c - 1)
  }

  /** `c` passes over `P` produce `c` lists per list of `P`. */
  lemma {:induction false} LayersCount(P: seq<seq<int>>, x: int, c: nat)
    requires forall p :: p in P ==> c <= |p| + 1
    ensures |Layers(P, x, c)| == c * |P|
    decreases c
  {
    if c > 0 {
      LayersCount(P, x, c - 1);
      assert |Layers(P, x, c)| == (c - 1) * |P| + |P|;
    }
  }

  /** Every list of a layer is an earlier list with `x` inserted somewhere. */
  lemma {:induction false} LayersMember(P: seq<seq<int>>, x: int, c: nat, q: seq<int>)
    requires forall p :: p in P ==> c <= |p| + 1
    requires q in Layers(P, x, c)
    ensures exists k, j :: 0 <= k < |P| && 0 <= j < c && q == InsertAt(P[k], j, x)
    decreases c
  {
    var prev := Layers(P, x, c - 1);
    if q in prev {
      LayersMember(P, x, c - 1, q);
    } else {
      var col := Column(P, x, c - 1);
      assert q in col;
      var k :| 0 <= k < |P| && col[k] == q;
      assert q == InsertAt(P[k], c - 1, x);
    }
  }

  /** Inserting into lists of one length gives lists one longer. */
  lemma LayersLengths(P: seq<seq<int>>, x: int, c: nat, len: nat)
    requires forall p :: p in P ==> |p| == len
    requires c <= len + 1
    ensures forall q :: q in Layers(P, x, c) ==> |q| == len + 1
  {
    forall q | q in Layers(P, x, c)
      ensures |q| == len + 1
    {
      LayersMember(P, x, c, q);
    }
  }

  /** The lists `permute` holds after handling the first `i` numbers of `nums`. */
  function Generated(nums: seq<int>, i: nat): (r: seq<seq<int>>)
    requires 1 <= i <= |nums|
    ensures forall p :: p in r ==> |p| == i
  {
    if i == 1 then [[nums[0]]]
    else
      var P := Generated(nums, i - 1);
      LayersLengths(P, nums[i - 1], i, i - 1);
      Layers(P, nums[i - 1], i)
  }

  /** Inserting a number absent from both lists gives equal results only when it
      goes to the same position of the same list. */
  lemma InsertAtInjective(p: seq<int>, j: nat, p': seq<int>, j': nat, x: int)
    requires j <= |p| && j' <= |p'| && x !in p && x !in p'
    ensures InsertAt(p, j, x) == InsertAt(p', j', x) ==> j == j' && p == p'
  {
    var q, q' := InsertAt(p, j, x), InsertAt(p', j', x);
    assert q[j] == x && q'[j'] == x;
    assert forall t :: 0 <= t < j ==> q[t] == p[t];
    assert forall t :: 0 <= t < j' ==> q'[t] == p'[t];
    assert p == q[..j] + q[j + 1..];
    assert p' == q'[..j'] + q'[j' + 1..];
  }

  /** Two distinct lists with nothing in common concatenate to a distinct list. */
  lemma AppendDistinct<T>(A: seq<T>, C: seq<T>)
    requires Distinct(A) && Distinct(C)
    requires forall q :: q in A ==> q !in C
    ensures Distinct(A + C)
  {
    forall a, b | 0 <= a < b < |A + C|
      ensures (A + C)[a] != (A + C)[b]
    {
      if b < |A| {
        assert (A + C)[a] == A[a] && (A + C)[b] == A[b];
      } else if a < |A| {
        assert (A + C)[a] == A[a] && A[a] in A && (A + C)[b] == C[b - |A|];
      } else {
        assert (A + C)[a] == C[a - |A|] && (A + C)[b] == C[b - |A|];
      }
    }
  }

  /** One pass over distinct lists gives distinct lists. */
  lemma ColumnDistinct(P: seq<seq<int>>, x: int, j: nat)
    requires forall p :: p in P ==> j <= |p| && x !in p
    requires Distinct(P)
    ensures Distinct(Column(P, x, j))
  {
    forall a, b | 0 <= a < b < |P|
      ensures Column(P, x, j)[a] != Column(P, x, j)[b]
    {
      assert P[a] in P && P[b] in P;
      InsertAtInjective(P[a], j, P[b], j, x);
    }
  }

  /** The passes for positions 0 .. c-1 never produce a list of pass `c`. */
  lemma LayerApart(P: seq<seq<int>>, x: int, c: nat, q: seq<int>, k: nat)
    requires forall p :: p in P ==> c + 1 <= |p| + 1 && x !in p
    requires q in Layers(P, x, c) && k < |P|
    ensures q != InsertAt(P[k], c, x)
  {
    LayersMember(P, x, c, q);
    var k', j :| 0 <= k' < |P| && 0 <= j < c && q == InsertAt(P[k'], j, x);
    assert P[k] in P && P[k'] in P;
    InsertAtInjective(P[k'], j, P[k], c, x);
  }

  /** Pass `c` shares no list with the passes before it. */
  lemma ColumnApart(P: seq<seq<int>>, x: int, c: nat)
    requires forall p :: p in P ==> c + 1 <= |p| + 1 && x !in p
    ensures forall q :: q in Layers(P, x, c) ==> q !in Column(P, x, c)
  {
    var C := Column(P, x, c);
    forall q | q in Layers(P, x, c)
      ensures q !in C
    {
      forall k | 0 <= k < |P|
        ensures C[k] != q
      {
        LayerApart(P, x, c, q, k);
      }
    }
  }

  /** Inserting a new number at positions 0 .. c-1 of distinct lists gives distinct lists. */
  lemma {:induction false} LayersDistinct(P: seq<seq<int>>, x: int, c: nat)
    requires forall p :: p in P ==> c <= |p| + 1 && x !in p
    requires Distinct(P)
    ensures Distinct(Layers(P, x, c))
    decreases c
  {
    if c > 0 {
      LayersDistinct(P, x, c - 1);
      var A, C := Layers(P, x, c - 1), Column(P, x, c - 1);
      ColumnDistinct(P, x, c - 1);
      ColumnApart(P, x, c - 1);
      AppendDistinct(A, C);
    }
  }

  /** From distinct numbers, `permute` builds no ordering twice. */
  lemma {:induction false} GeneratedOnce(nums: seq<int>, i: nat)
    requires 1 <= i <= |nums| && Distinct(nums)
    ensures Distinct(Generated(nums, i))
    decreases i
  {
    if i > 1 {
      GeneratedOnce(nums, i - 1);
      GeneratedArePermutations(nums, i - 1);
      var P, x := Generated(nums, i - 1), nums[i - 1];
      forall p | p in P
        ensures i <= |p| + 1 && x !in p
      {
        assert forall t :: 0 <= t < i - 1 ==> nums[..i - 1][t] == nums[t] != x;
        assert x !in multiset(nums[..i - 1]);
      }
      LayersDistinct(P, x, i);
    }
  }

  lemma GeneratedStep(nums: seq<int>, i: nat)
    requires 2 <= i <= |nums|
    ensures forall p :: p in Generated(nums, i - 1) ==> i <= |p| + 1
    ensures Generated(nums, i) == Layers(Generated(nums, i - 1), nums[i - 1], i)
  {
  }

  /** `permute(nums)`: more than ten numbers are refused before any work; an empty
      array fails on reading `nums[0]`; otherwise the result is every insertion order. */
  method Permute(nums: seq<int>) returns (r: Result<seq<seq<int>>>)
    ensures |nums| > MaxPermuted ==> r == Failure(IllegalArgument)
    ensures |nums| == 0 ==> r == Failure(IndexOutOfBounds)
    ensures 1 <= |nums| <= MaxPermuted ==> r == Success(Generated(nums, |nums|))
  {
    if |nums| > MaxPermuted {
      return Failure(IllegalArgument);
    }
    if |nums| == 0 {
      return Failure(IndexOutOfBounds);
    }
    var permutations := [[nums[0]]];
    var i := 1;
    while i < |nums|
      invariant 1 <= i <= |nums|
      invariant permutations == Generated(nums, i)
    {
      permutations := InsertEverywhere(permutations, nums[i], i);
      i := i + 1;
    }
    return Success(permutations);
  }

  /** The middle and innermost loops of `permute` for one new number `x`: for each
      position `j` from 0 to `len`, every list of `P` with `x` inserted at `j`. */
  method InsertEverywhere(P: seq<seq<int>>, x: int, len: nat) returns (r: seq<seq<int>>)
    requires forall p :: p in P ==> |p| == len
    ensures r == Layers(P, x, len + 1)
  {
    r := [];
    var j := 0;
    while j <= len
      invariant 0 <= j <= len + 1
      invariant r == Layers(P, x, j)
    {
      ghost var done := r;
      var k := 0;
      while k < |P|
        invariant 0 <= k <= |P|
        invariant r == done + Column(P[..k], x, j)
      {
        ColumnSnoc(P, x, j, k);
        SnocAssociates(done, Column(P[..k], x, j), InsertAt(P[k], j, x));
        r := r + [InsertAt(P[k], j, x)];
        k := k + 1;
      }
      assert P[..k] == P;
      LayersStep(P, x, j);
      j := j + 1;
    }
  }

  lemma LayersStep(P: seq<seq<int>>, x: int, c: nat)
    requires forall p :: p in P ==> c + 1 <= |p| + 1
    ensures Layers(P, x, c + 1) == Layers(P, x, c) + Column(P, x, c)
  {
  }

  lemma SnocAssociates<T>(a: seq<T>, b: seq<T>, y: T)
    ensures (a + b) + [y] == a + (b + [y])
  {
  }

  /** The innermost loop's step: one more list handled appends one insertion. */
  lemma ColumnSnoc(P: seq<seq<int>>, x: int, j: nat, k: nat)
    requires forall p :: p in P ==> j <= |p|
    requires k < |P|
    ensures Column(P[..k + 1], x, j) == Column(P[..k], x, j) + [InsertAt(P[k], j, x)]
  {
    var lhs := Column(P[..k + 1], x, j);
    var rhs := Column(P[..k], x, j) + [InsertAt(P[k], j, x)];
    assert |lhs| == |rhs|;
    forall t | 0 <= t < |lhs|
      ensures lhs[t] == rhs[t]
    {
      assert P[..k + 1][t] == P[t];
      if t < k {
        assert P[..k][t] == P[t];
      }
    }
  }

  lemma InsertAtMultiset(p: seq<int>, j: nat, x: int)
    requires j <= |p|
    ensures multiset(InsertAt(p, j, x)) == multiset(p) + multiset{x}
  {
    assert p == p[..j] + p[j..];
  }

  /** Every insertion position of every earlier list is produced. */
  lemma {:induction false} LayersContains(P: seq<seq<int>>, x: int, c: nat, k: nat, j: nat)
    requires forall p :: p in P ==> c <= |p| + 1
    requires k < |P| && j < c
    ensures InsertAt(P[k], j, x) in Layers(P, x, c)
    decreases c
  {
    if j == c - 1 {
      assert Column(P, x, j)[k] == InsertAt(P[k], j, x);
    } else {
      LayersContains(P, x, c - 1, k, j);
    }
  }

  /** `permute` returns exactly i! lists for i numbers. */
  lemma {:induction false} GeneratedCount(nums: seq<int>, i: nat)
    requires 1 <= i <= |nums|
    ensures |Generated(nums, i)| == Factorial(i)
    decreases i
  {
    if i > 1 {
      GeneratedCount(nums, i - 1);
      var P := Generated(nums, i - 1);
      LayersCount(P, nums[i - 1], i);
      assert |Generated(nums, i)| == i * |P|;
    }
  }

  /** Inserting `x` into reorderings of `base` gives reorderings of `base` plus `x`. */
  lemma LayersPermutations(P: seq<seq<int>>, x: int, c: nat, base: multiset<int>)
    requires forall p :: p in P ==> c <= |p| + 1 && multiset(p) == base
    ensures forall q :: q in Layers(P, x, c) ==> multiset(q) == base + multiset{x}
  {
    forall q | q in Layers(P, x, c)
      ensures multiset(q) == base + multiset{x}
    {
      LayersMember(P, x, c, q);
      var k, j :| 0 <= k < |P| && 0 <= j < c && q == InsertAt(P[k], j, x);
      InsertAtMultiset(P[k], j, x);
    }
  }

  /** Every list `permute` returns is a reordering of its input. */
  lemma {:induction false} GeneratedArePermutations(nums: seq<int>, i: nat)
    requires 1 <= i <= |nums|
    ensures forall p :: p in Generated(nums, i) ==> multiset(p) == multiset(nums[..i])
    decreases i
  {
    if i == 1 {
      assert nums[..1] == [nums[0]];
    } else {
      GeneratedArePermutations(nums, i - 1);
      var x := nums[i - 1];
      assert nums[..i] == nums[..i - 1] + [x];
      assert multiset(nums[..i]) == multiset(nums[..i - 1]) + multiset{x};
      LayersPermutations(Generated(nums, i - 1), x, i, multiset(nums[..i - 1]));
    }
  }

  lemma MultisetCancel(a: multiset<int>, m: multiset<int>, x: int)
    requires a == m + multiset{x}
    ensures a - multiset{x} == m
  {
  }

  /** Removing the element at `t` undoes inserting it there. */
  lemma RemoveAt(q: seq<int>, t: nat)
    requires t < |q|
    ensures multiset(q[..t] + q[t + 1..]) == multiset(q) - multiset{q[t]}
    ensures InsertAt(q[..t] + q[t + 1..], t, q[t]) == q
  {
    var rest := q[..t] + q[t + 1..];
    assert q == q[..t] + [q[t]] + q[t + 1..];
    assert rest[..t] == q[..t] && rest[t..] == q[t + 1..];
  }

  /** Every reordering of its input is among the lists `permute` returns. */
  lemma {:induction false} GeneratedComplete(nums: seq<int>, i: nat, q: seq<int>)
    requires 1 <= i <= |nums|
    requires multiset(q) == multiset(nums[..i])
    ensures q in Generated(nums, i)
    decreases i
  {
    if i == 1 {
      assert |q| == |multiset(q)| == 1;
      assert nums[..1] == [nums[0]];
      assert q[0] in multiset(q);
      assert q == [nums[0]];
    } else {
      var t, rest := TakeOutLast(nums, i, q);
      GeneratedComplete(nums, i - 1, rest);
      var P := Generated(nums, i - 1);
      var k :| 0 <= k < |P| && P[k] == rest;
      GeneratedStep(nums, i);
      LayersContains(P, nums[i - 1], i, k, t);
    }
  }

  /** A reordering of `nums[..i]` is a reordering of `nums[..i - 1]` with `nums[i - 1]` inserted. */
  lemma TakeOutLast(nums: seq<int>, i: nat, q: seq<int>) returns (t: nat, rest: seq<int>)
    requires 2 <= i <= |nums|
    requires multiset(q) == multiset(nums[..i])
    ensures t < i && t <= |rest|
    ensures multiset(rest) == multiset(nums[..i - 1])
    ensures InsertAt(rest, t, nums[i - 1]) == q
  {
    var x := nums[i - 1];
    assert |q| == |multiset(q)| == i;
    assert nums[..i] == nums[..i - 1] + [x];
    assert multiset(q) == multiset(nums[..i - 1]) + multiset{x};
    assert x in multiset(q);
    t :| 0 <= t < |q| && q[t] == x;
    rest := q[..t] + q[t + 1..];
    RemoveAt(q, t);
    MultisetCancel(multiset(q), multiset(nums[..i - 1]), x);
  }
}
