/**
 * The Fisher-Yates shuffle that randomises the order of a topic's words
 * before a quiz.  The random index chosen in round `i` is supplied as
 * `draws[i]`, which lies in `[0, i]` as `floor(random() * (i + 1))` does.
 */
module Shuffle {

  /** The random draws are usable: one per position, round `i` picks at most `i`. */
  predicate DrawsFit(draws: seq<nat>, n: nat)
  {
    |draws| == n && forall i :: 0 <= i < |draws| ==> draws[i] <= i
  }

  /** Exchange the elements at `i` and `j` (the two may coincide). */
  function Swap<T>(s: seq<T>, i: nat, j: nat): (r: seq<T>)
    requires i < |s| && j < |s|
    ensures |r| == |s| && r[i] == s[j] && r[j] == s[i]
    ensures forall k :: 0 <= k < |s| && k != i && k != j ==> r[k] == s[k]
    ensures multiset(r) == multiset(s)
  {
    s[i := s[j]][j := s[i]]
  }

  /**
   * The rounds `i, i - 1, ..., 1` of the shuffle applied to `s`: round `k`
   * exchanges position `k` with position `draws[k]`.
   */
  function ShuffleRounds<T>(s: seq<T>, draws: seq<nat>, i: int): (r: seq<T>)
    requires i < |s| && DrawsFit(draws, |s|)
    ensures |r| == |s|
    ensures multiset(r) == multiset(s)
    decreases i
  {
    if i <= 0 then s else ShuffleRounds(Swap(s, i, draws[i]), draws, i - 1)
  }

  /** The whole shuffle: rounds from the last position down to 1. */
  function Shuffled<T>(s: seq<T>, draws: seq<nat>): (r: seq<T>)
    requires DrawsFit(draws, |s|)
    ensures |r| == |s|
    ensures multiset(r) == multiset(s)
  {
    ShuffleRounds(s, draws, |s| - 1)
  }

  /**
   * `shuffleArray`: copy the input into a fresh array and swap in place,
   * walking `i` down from the last index to 1.  The result is a
   * permutation of the input, and the input (a value) is not touched.
   */
  method ShuffleArray<T>(input: seq<T>, draws: seq<nat>) returns (shuffled: seq<T>)
    requires DrawsFit(draws, |input|)
    ensures shuffled == Shuffled(input, draws)
    ensures |shuffled| == |input|
    ensures multiset(shuffled) == multiset(input)
  {
    var a := new T[|input|](k requires 0 <= k < |input| => input[k]);
    assert a[..] == input;
    var i := |input| - 1;
    while i > 0
      invariant -1 <= i < a.Length
      invariant a.Length == |input|
      invariant ShuffleRounds(a[..], draws, i) == Shuffled(input, draws)
      decreases i
    {
      var j := draws[i];
      ghost var before := a[..];
      var t := a[i];
      a[i] := a[j];
      a[j] := t;
      assert a[..] == Swap(before, i, j);
      i := i - 1;
    }
    shuffled := a[..];
  }
}
