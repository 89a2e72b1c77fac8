/** Finite sums of real numbers. */
module Sums {
  function Sum(s: seq<real>): real {
    if s == [] then 0.0 else s[0] + Sum(s[1..])
  }

  lemma {:induction false} SumConcat(a: seq<real>, b: seq<real>)
    ensures Sum(a + b) == Sum(a) + Sum(b)
  {
    if a == [] {
      assert a + b == b;
    } else {
      SumConcat(a[1..], b);
      assert (a + b)[1..] == a[1..] + b;
    }
  }

  lemma SumAppend(a: seq<real>, x: real)
    ensures Sum(a + [x]) == Sum(a) + x
  {
    SumConcat(a, [x]);
    assert Sum([x]) == x + Sum([]);
  }

  lemma SumSplit(s: seq<real>, i: nat)
    requires i <= |s|
    ensures Sum(s) == Sum(s[..i]) + Sum(s[i..])
  {
    SumConcat(s[..i], s[i..]);
    assert s[..i] + s[i..] == s;
  }

  lemma SumPrefixStep(s: seq<real>, i: nat)
    requires i < |s|
    ensures Sum(s[..i + 1]) == Sum(s[..i]) + s[i]
  {
    SumAppend(s[..i], s[i]);
    assert s[..i] + [s[i]] == s[..i + 1];
  }

  lemma {:induction false} SumUpdate(s: seq<real>, i: nat, x: real)
    requires i < |s|
    ensures Sum(s[i := x]) == Sum(s) - s[i] + x
  {
    if i == 0 {
      assert s[0 := x][1..] == s[1..];
    } else {
      SumUpdate(s[1..], i - 1, x);
      assert s[i := x][1..] == s[1..][i - 1 := x];
    }
  }

  lemma {:induction false} SumIsNonNegative(s: seq<real>)
    requires forall i :: 0 <= i < |s| ==> s[i] >= 0.0
    ensures Sum(s) >= 0.0
    ensures Sum(s) == 0.0 ==> forall i :: 0 <= i < |s| ==> s[i] == 0.0
    ensures forall i :: 0 <= i < |s| ==> s[i] <= Sum(s)
  {
    if s == [] {
    } else {
      SumIsNonNegative(s[1..]);
      forall i | 0 <= i < |s|
        ensures s[i] <= Sum(s) && (Sum(s) == 0.0 ==> s[i] == 0.0)
      {
        if i > 0 { assert s[i] == s[1..][i - 1]; }
      }
    }
  }

  lemma {:induction false} SumOfZeros(s: seq<real>)
    requires forall i :: 0 <= i < |s| ==> s[i] == 0.0
    ensures Sum(s) == 0.0
  {
    if s == [] {
    } else {
      SumOfZeros(s[1..]);
    }
  }

  lemma {:induction false} SumDifference(a: seq<real>, b: seq<real>, c: seq<real>)
    requires |a| == |b| == |c|
    requires forall i :: 0 <= i < |a| ==> c[i] == a[i] - b[i]
    ensures Sum(c) == Sum(a) - Sum(b)
  {
    if a == [] {
    } else {
      SumDifference(a[1..], b[1..], c[1..]);
    }
  }

  /** The sum of the weights at the listed positions. */
  function SumAlong(weights: seq<real>, positions: seq<nat>): real
    requires forall k :: 0 <= k < |positions| ==> positions[k] < |weights|
  {
    if positions == [] then 0.0 else weights[positions[0]] + SumAlong(weights, positions[1..])
  }

  lemma {:induction false} SumAlongFrame(a: seq<real>, b: seq<real>, positions: seq<nat>)
    requires forall k :: 0 <= k < |positions| ==> positions[k] < |a| && positions[k] < |b|
    requires forall k :: 0 <= k < |positions| ==> a[positions[k]] == b[positions[k]]
    ensures SumAlong(a, positions) == SumAlong(b, positions)
  {
    if positions == [] {
    } else {
      SumAlongFrame(a, b, positions[1..]);
    }
  }

  /** Distinct positions that cover every nonzero weight give the whole sum, in whatever order. */
  lemma {:induction false} SumAlongIsSum(weights: seq<real>, positions: seq<nat>)
    requires forall k :: 0 <= k < |positions| ==> positions[k] < |weights|
    requires forall j, k :: 0 <= j < k < |positions| ==> positions[j] != positions[k]
    requires forall i :: 0 <= i < |weights| && i !in positions ==> weights[i] == 0.0
    ensures SumAlong(weights, positions) == Sum(weights)
    decreases |positions|
  {
    if positions == [] {
      SumOfZeros(weights);
    } else {
      var first, rest := positions[0], positions[1..];
      var zeroed := weights[first := 0.0];
      assert positions == [first] + rest;
      forall k | 0 <= k < |rest|
        ensures rest[k] != first && rest[k] < |weights|
      {
        assert rest[k] == positions[k + 1];
      }
      forall j, k | 0 <= j < k < |rest|
        ensures rest[j] != rest[k]
      {
        assert rest[j] == positions[j + 1] && rest[k] == positions[k + 1];
      }
      SumAlongFrame(weights, zeroed, rest);
      SumAlongIsSum(zeroed, rest);
      SumUpdate(weights, first, 0.0);
    }
  }

  /** The weights at the given positions, zero elsewhere. */
  ghost function Masked(weights: seq<real>, positions: set<nat>): (s: seq<real>)
    ensures |s| == |weights| && forall i :: 0 <= i < |s| ==> s[i] == if i in positions then weights[i] else 0.0
  {
    seq(|weights|, i requires 0 <= i < |weights| => if i in positions then weights[i] else 0.0)
  }

  /** Distinct positions add up to the sum of the weights they mask. */
  lemma SumAlongIsMasked(weights: seq<real>, positions: seq<nat>)
    requires forall k :: 0 <= k < |positions| ==> positions[k] < |weights|
    requires forall j, k :: 0 <= j < k < |positions| ==> positions[j] != positions[k]
    ensures SumAlong(weights, positions) == Sum(Masked(weights, set p | p in positions))
  {
    var masked := Masked(weights, set p | p in positions);
    forall k | 0 <= k < |positions|
      ensures weights[positions[k]] == masked[positions[k]]
    {
      assert positions[k] in positions;
    }
    SumAlongFrame(weights, masked, positions);
    SumAlongIsSum(masked, positions);
  }

  /** Two masks that agree on every weight but one differ by that weight. */
  lemma MasksDifferAt(weights: seq<real>, a: set<nat>, b: set<nat>, p: nat)
    requires p < |weights|
    requires forall i :: 0 <= i < |weights| && i != p && weights[i] != 0.0 ==> (i in a <==> i in b)
    ensures Sum(Masked(weights, a)) - (if p in a then weights[p] else 0.0) == Sum(Masked(weights, b)) - (if p in b then weights[p] else 0.0)
  {
    assert Masked(weights, a)[p := 0.0] == Masked(weights, b)[p := 0.0];
    SumUpdate(Masked(weights, a), p, 0.0);
    SumUpdate(Masked(weights, b), p, 0.0);
  }

  function Minimum(x: real, y: real): real {
    if x <= y then x else y
  }

  function Maximum(x: real, y: real): real {
    if x <= y then y else x
  }

  /** x limited to the range from 0 to upper. */
  function Clip(x: real, upper: real): real {
    if x <= 0.0 then 0.0 else if x >= upper then upper else x
  }
}
