/**
 * The parts of the random-number library the engine relies on, with the
 * randomness itself supplied from outside:
 *
 * - building a weighted index from a weight vector, which can fail;
 * - drawing an index from it: a uniform value below the total weight is
 *   mapped to the index whose cumulative-weight interval contains it;
 * - shuffling a vector in place by the Fisher-Yates walk.
 *
 * Uniform values are given, not generated: a draw is any natural number,
 * reduced modulo the range it must fall in.
 */
module Random {
  import opened Wrappers

  /** Why a weight vector cannot be sampled. */
  datatype WeightedError = NoItem | InvalidWeight | AllWeightsZero

  function Sum(ws: seq<int>): int {
    if ws == [] then 0 else ws[0] + Sum(ws[1..])
  }

  predicate NonNegative(ws: seq<int>) {
    forall i :: 0 <= i < |ws| ==> ws[i] >= 0
  }

  lemma {:induction false} SumNonNegative(ws: seq<int>)
    requires NonNegative(ws)
    ensures Sum(ws) >= 0
  {
    if ws != [] {
      SumNonNegative(ws[1..]);
    }
  }

  /** A weight vector can be sampled iff it is non-empty, has no negative weight and a positive total. */
  predicate Samplable(ws: seq<int>) {
    |ws| > 0 && NonNegative(ws) && Sum(ws) > 0
  }

  /**
   * Building the weighted index: an empty vector has no item, a negative
   * weight is invalid, and an all-zero vector cannot be sampled.
   */
  function CheckWeights(ws: seq<int>): (r: Option<WeightedError>)
    ensures r.None? <==> Samplable(ws)
    ensures r == Some(NoItem) <==> ws == []
    ensures r == Some(InvalidWeight) <==> ws != [] && !NonNegative(ws)
    ensures r == Some(AllWeightsZero) <==> ws != [] && NonNegative(ws) && Sum(ws) == 0
  {
    if ws == [] then Some(NoItem)
    else if exists i :: 0 <= i < |ws| && ws[i] < 0 then Some(InvalidWeight)
    else
      SumNonNegative(ws);
      if Sum(ws) == 0 then Some(AllWeightsZero) else None
  }

  lemma PrefixStep(ws: seq<int>, i: nat)
    requires i < |ws|
    ensures Sum(ws[..i + 1]) == ws[0] + Sum(ws[1..][..i])
  {
    assert ws[..i + 1][1..] == ws[1..][..i];
  }

  /**
   * The index whose cumulative interval holds `u`: the weights before it sum
   * to at most `u`, and adding its own weight passes `u`, so its weight is
   * positive and a zero-weight index is never chosen.
   */
  function Pick(ws: seq<int>, u: int): (i: nat)
    requires NonNegative(ws) && 0 <= u < Sum(ws)
    ensures i < |ws| && ws[i] > 0
    ensures Sum(ws[..i]) <= u < Sum(ws[..i + 1])
  {
    assert ws[..0] == [] && ws[..1] == [ws[0]];
    assert Sum([ws[0]]) == ws[0] + Sum([]);
    if u < ws[0] then 0
    else
      var j := Pick(ws[1..], u - ws[0]);
      PrefixStep(ws, j);
      PrefixStep(ws, j + 1);
      j + 1
  }

  /** Cumulative sums never decrease. */
  lemma {:induction false} PrefixMonotone(ws: seq<int>, i: nat, j: nat)
    requires NonNegative(ws) && i <= j <= |ws|
    ensures Sum(ws[..i]) <= Sum(ws[..j])
    decreases j - i
  {
    if i < j {
      PrefixMonotone(ws, i, j - 1);
      PrefixAppend(ws, j - 1);
    }
  }

  lemma {:induction false} PrefixAppend(ws: seq<int>, i: nat)
    requires i < |ws|
    ensures Sum(ws[..i + 1]) == Sum(ws[..i]) + ws[i]
    decreases i
  {
    if i == 0 {
      assert ws[..1] == [ws[0]] && ws[..0] == [];
    } else {
      PrefixStep(ws, i);
      PrefixStep(ws, i - 1);
      PrefixAppend(ws[1..], i - 1);
    }
  }

  /**
   * Every positive-weight index is drawn by some value: the value at the
   * start of its interval. With `Pick`'s own contract, the indices that can
   * be drawn are exactly those of positive weight.
   */
  lemma PickReaches(ws: seq<int>, i: nat)
    requires NonNegative(ws) && i < |ws| && ws[i] > 0
    ensures 0 <= Sum(ws[..i]) < Sum(ws)
    ensures Pick(ws, Sum(ws[..i])) == i
  {
    var u := Sum(ws[..i]);
    PrefixAppend(ws, i);
    PrefixMonotone(ws, 0, i);
    PrefixMonotone(ws, i + 1, |ws|);
    assert ws[..0] == [] && ws[..|ws|] == ws;
    var k := Pick(ws, u);
    if k < i {
      PrefixMonotone(ws, k + 1, i);
    } else if k > i {
      PrefixMonotone(ws, i + 1, k);
    }
  }

  /** One draw from a samplable weight vector: the uniform value `draw % Sum(ws)`, mapped by `Pick`. */
  function Sample(ws: seq<int>, draw: nat): (i: nat)
    requires Samplable(ws)
    ensures i < |ws| && ws[i] > 0
  {
    Pick(ws, draw % Sum(ws))
  }

  /**
   * Fisher-Yates, as the library's `shuffle` walks: for i from the last
   * position down to 1, swap position i with a position j <= i drawn from
   * `coins`. The result is a permutation of the input.
   */
  method Shuffle<T>(s: seq<T>, coins: nat -> nat, pos: nat) returns (r: seq<T>, next: nat)
    ensures |r| == |s| && multiset(r) == multiset(s)
    ensures next == pos + (if |s| == 0 then 0 else |s| - 1)
  {
    r, next := s, pos;
    var i := |s|;
    while i > 1
      invariant 0 <= i <= |s|
      invariant |r| == |s| && multiset(r) == multiset(s)
      invariant |s| == 0 ==> i == 0 && next == pos
      invariant |s| > 0 ==> 1 <= i && next == pos + |s| - i
      decreases i
    {
      var j := coins(next) % i;
      Swapped(r, i - 1, j);
      r := r[i - 1 := r[j]][j := r[i - 1]];
      next := next + 1;
      i := i - 1;
    }
  }

  /** Exchanging two positions keeps the multiset. */
  lemma Swapped<T>(s: seq<T>, i: nat, j: nat)
    requires i < |s| && j < |s|
    ensures multiset(s[i := s[j]][j := s[i]]) == multiset(s)
  {
    if i != j {
      var t := s[i := s[j]];
      assert multiset(t) == multiset(s) - multiset{s[i]} + multiset{s[j]};
      assert t[j] == s[j];
    }
  }
}
