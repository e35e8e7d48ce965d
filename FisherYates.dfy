/** The Durstenfeld (Fisher–Yates) shuffle that both games run on their
    deck. The random draw `Math.floor(Math.random() * (i + 1))` is replaced by
    a caller-supplied sequence of swap indices: `js[i]` is the index drawn at
    the step that handles position `i`. */
module FisherYates {

  /** `js` supplies one draw per position of an `n`-element array, each in the
      range the source's draw can produce, `0 <= js[i] <= i`. (The step for
      position 0 never runs; its only possible draw is 0.) */
  predicate IsSwapSequence(js: seq<nat>, n: nat)
  {
    |js| == n && forall i :: 0 <= i < n ==> js[i] <= i
  }

  /** Exchange the elements at positions `i` and `j`. */
  function Swap<T>(s: seq<T>, i: nat, j: nat): (r: seq<T>)
    requires i < |s| && j < |s|
    ensures |r| == |s| && r[i] == s[j] && r[j] == s[i]
    ensures forall k :: 0 <= k < |s| && k != i && k != j ==> r[k] == s[k]
  {
    s[i := s[j]][j := s[i]]
  }

  /** The loop run from position `i` down to position 1. */
  function Steps<T>(s: seq<T>, js: seq<nat>, i: int): (r: seq<T>)
    requires IsSwapSequence(js, |s|) && i < |s|
    ensures |r| == |s|
    ensures i <= 0 ==> r == s
    decreases i
  {
    if i <= 0 then s else Steps(Swap(s, i, js[i]), js, i - 1)
  }

  /** The whole shuffle: the loop starts at the last position. */
  function Shuffled<T>(s: seq<T>, js: seq<nat>): (r: seq<T>)
    requires IsSwapSequence(js, |s|)
    ensures |r| == |s|
    ensures |s| <= 1 ==> r == s
  {
    Steps(s, js, |s| - 1)
  }

  lemma {:induction false} StepsPermutes<T>(s: seq<T>, js: seq<nat>, i: int)
    requires IsSwapSequence(js, |s|) && i < |s|
    ensures |Steps(s, js, i)| == |s|
    ensures multiset(Steps(s, js, i)) == multiset(s)
    decreases i
  {
    if i > 0 {
      StepsPermutes(Swap(s, i, js[i]), js, i - 1);
    }
  }

  /** Every run of the shuffle yields a permutation of its input: the same
      length and the same multiset of elements. */
  lemma ShuffledPermutes<T>(s: seq<T>, js: seq<nat>)
    requires IsSwapSequence(js, |s|)
    ensures |Shuffled(s, js)| == |s|
    ensures multiset(Shuffled(s, js)) == multiset(s)
  {
    StepsPermutes(s, js, |s| - 1);
  }

  /** The in-place shuffle. It swaps `a[i]` with `a[js[i]]` for `i` from
      `a.Length - 1` down to 1 and returns the same array it was given. */
  method Shuffle<T>(a: array<T>, js: seq<nat>) returns (r: array<T>)
    requires IsSwapSequence(js, a.Length)
    modifies a
    ensures r == a
    ensures a[..] == Shuffled(old(a[..]), js)
    ensures multiset(a[..]) == multiset(old(a[..]))
  {
    var i := a.Length - 1;
    while i > 0
      invariant -1 <= i < a.Length
      invariant a.Length > 0 ==> 0 <= i
      invariant Steps(a[..], js, i) == Shuffled(old(a[..]), js)
      decreases i
    {
      var j := js[i];
      assert a[..][i := a[j]][j := a[i]] == Swap(a[..], i, j);
      a[i], a[j] := a[j], a[i];
      i := i - 1;
    }
    ShuffledPermutes(old(a[..]), js);
    r := a;
  }
}
