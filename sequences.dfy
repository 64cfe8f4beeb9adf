/**
 * The two vector idioms that `GameObject` and `World` (spark.hpp) share: `std::find_if` with a
 * lambda that compares one field of each element against a value, and removal by swapping
 * the found element with the last one and popping the back.
 */
module Sequences {
  import opened Wrappers

  /** No two elements of `s` have the same `key`. */
  ghost predicate DistinctBy<T>(s: seq<T>, key: T -> nat)
  {
    forall i, j :: 0 <= i < j < |s| ==> key(s[i]) != key(s[j])
  }

  /** Some element of `s` has key `k`. */
  ghost predicate HasKey<T>(s: seq<T>, key: T -> nat, k: nat)
  {
    exists i :: 0 <= i < |s| && key(s[i]) == k
  }

  /**
   * `std::find_if(s.begin(), s.end(), [&](x) { return key(x) == k; })`, as an index: the first
   * position whose element has key `k`, or `None` when no element has it.
   */
  function IndexOf<T>(s: seq<T>, key: T -> nat, k: nat): (r: Option<nat>)
    ensures r.Some? ==> r.value < |s| && key(s[r.value]) == k
    ensures r.Some? ==> forall i :: 0 <= i < r.value ==> key(s[i]) != k
    ensures r.None? <==> !HasKey(s, key, k)
    decreases |s|
  {
    if s == [] then None
    else if key(s[0]) == k then Some(0)
    else match IndexOf(s[1..], key, k)
      case None =>
        assert forall i :: 1 <= i < |s| ==> s[i] == s[1..][i - 1];
        None
      case Some(j) =>
        assert s[j + 1] == s[1..][j];
        Some(j + 1)
  }

  /** `std::swap(s[i], s.back()); s.pop_back();` */
  function SwapPop<T>(s: seq<T>, i: nat): (r: seq<T>)
    requires i < |s|
  {
    s[i := s[|s| - 1]][..|s| - 1]
  }

  /**
   * Swap-and-pop removes exactly the element at `i`: the others stay, the last one takes its
   * place, and the multiset of elements loses that one element and nothing else.
   */
  lemma {:induction false} SwapPopRemovesOne<T>(s: seq<T>, i: nat)
    requires i < |s|
    ensures |SwapPop(s, i)| == |s| - 1
    ensures forall k :: 0 <= k < |s| - 1 && k != i ==> SwapPop(s, i)[k] == s[k]
    ensures i < |s| - 1 ==> SwapPop(s, i)[i] == s[|s| - 1]
    ensures multiset(SwapPop(s, i)) + multiset{s[i]} == multiset(s)
  {
    var n := |s| - 1;
    if i == n {
      assert SwapPop(s, i) == s[..n];
      assert s == s[..n] + [s[n]];
    } else {
      assert SwapPop(s, i) == s[..i] + [s[n]] + s[i + 1..n];
      assert s == s[..i] + [s[i]] + s[i + 1..n] + [s[n]];
    }
  }

  /**
   * When keys are distinct, swap-and-pop keeps them distinct, and afterwards no element has the
   * removed element's key: every other key is still there.
   */
  lemma {:induction false} SwapPopDistinct<T>(s: seq<T>, i: nat, key: T -> nat)
    requires i < |s| && DistinctBy(s, key)
    ensures DistinctBy(SwapPop(s, i), key)
    ensures !HasKey(SwapPop(s, i), key, key(s[i]))
    ensures forall j :: 0 <= j < |s| && j != i ==> HasKey(SwapPop(s, i), key, key(s[j]))
  {
    SwapPopRemovesOne(s, i);
    var r := SwapPop(s, i);
    var n := |s| - 1;
    // where each element of the result came from
    assert forall k :: 0 <= k < n ==> r[k] == s[if k == i then n else k];
    forall j | 0 <= j < |s| && j != i
      ensures HasKey(r, key, key(s[j]))
    {
      if j == n {
        assert r[i] == s[j];
      } else {
        assert r[j] == s[j];
      }
    }
  }

  /** Appending is associative. */
  lemma {:induction false} AppendAssociates<T>(a: seq<T>, b: seq<T>, c: seq<T>)
    ensures a + b + c == a + (b + c)
  {
  }

  /** The empty sequence is a unit of appending. */
  lemma {:induction false} AppendNil<T>(a: seq<T>)
    ensures a + [] == a && [] + a == a
  {
  }

  /** A non-empty sequence is its first element followed by the rest. */
  lemma {:induction false} HeadTail<T>(s: seq<T>)
    requires s != []
    ensures s == [s[0]] + s[1..]
  { }
}
