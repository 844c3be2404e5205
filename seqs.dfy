/** Positional removal from a vector, and subsequences, as `Vec::remove` and `retain` produce them. */
module Seqs {

  /** `Vec::remove(i)`: the element at `i` taken out, the rest kept in order. */
  function RemoveAt<T>(s: seq<T>, i: nat): (r: seq<T>)
    requires i < |s|
    ensures |r| == |s| - 1
    ensures forall k :: 0 <= k < i ==> r[k] == s[k]
    ensures forall k :: i <= k < |r| ==> r[k] == s[k + 1]
  {
    s[..i] + s[i + 1..]
  }

  /** Removing an element loses exactly that element. */
  lemma RemoveAtMultiset<T>(s: seq<T>, i: nat)
    requires i < |s|
    ensures multiset(RemoveAt(s, i)) + multiset{s[i]} == multiset(s)
  {
    assert s == s[..i] + [s[i]] + s[i + 1..];
  }

  /** `sub` is `s` restricted to the strictly increasing positions `idx`. */
  ghost predicate SubsequenceBy<T>(sub: seq<T>, s: seq<T>, idx: seq<nat>) {
    && |idx| == |sub|
    && (forall k :: 0 <= k < |idx| ==> idx[k] < |s| && sub[k] == s[idx[k]])
    && (forall j, k :: 0 <= j < k < |idx| ==> idx[j] < idx[k])
  }

  function Positions(n: nat): (r: seq<nat>)
    ensures |r| == n && forall k :: 0 <= k < n ==> r[k] == k
  {
    seq(n, k => k)
  }

  lemma SubsequenceOfItself<T>(s: seq<T>)
    ensures SubsequenceBy(s, s, Positions(|s|))
  {
  }

  /** Removing from a subsequence leaves a subsequence of the same original. */
  lemma RemoveAtSubsequence<T>(sub: seq<T>, s: seq<T>, idx: seq<nat>, i: nat)
    requires SubsequenceBy(sub, s, idx) && i < |sub|
    ensures SubsequenceBy(RemoveAt(sub, i), s, RemoveAt(idx, i))
  {
    var r := RemoveAt(idx, i);
    forall j, k | 0 <= j < k < |r| ensures r[j] < r[k] {
      var j' := if j < i then j else j + 1;
      var k' := if k < i then k else k + 1;
      assert r[j] == idx[j'] && r[k] == idx[k'];
    }
  }

  /** A subset has no more elements than its superset. */
  /** Concatenation is associative. */
  lemma AppendAssoc<T>(a: seq<T>, b: seq<T>, c: seq<T>)
    ensures (a + b) + c == a + (b + c)
  {
  }

  lemma {:induction false} SubsetSize<T>(a: set<T>, b: set<T>)
    requires a <= b
    ensures |a| <= |b|
    decreases |a|
  {
    if a != {} {
      var x :| x in a;
      SubsetSize(a - {x}, b - {x});
    }
  }

  /** A sequence has no more distinct elements than positions. */
  lemma {:induction false} ElementsSize<T>(s: seq<T>)
    ensures |set x | x in s| <= |s|
  {
    if s != [] {
      var init := s[..|s| - 1];
      ElementsSize(init);
      assert (set x | x in s) == (set x | x in init) + {s[|s| - 1]};
    }
  }
}
