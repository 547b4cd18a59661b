/** The random-choice helpers of VNUtils; the random numbers are nondeterministic choices. */
module RandomUtils {
  import opened Wrappers

  function Swap<T>(s: seq<T>, i: nat, j: nat): (r: seq<T>)
    requires i < |s| && j < |s|
    ensures |r| == |s| && r[i] == s[j] && r[j] == s[i]
    ensures forall k :: 0 <= k < |s| && k != i && k != j ==> r[k] == s[k]
    ensures multiset(r) == multiset(s)
  {
    s[i := s[j]][j := s[i]]
  }

  /** The random indices of a Fisher–Yates pass over n elements: the k-th pick swaps
      position n - 1 - k with a position no greater. */
  predicate ValidPicks(n: nat, picks: seq<int>) {
    |picks| < n && forall k :: 0 <= k < |picks| ==> 0 <= picks[k] <= n - 1 - k
  }

  /** The list after the swaps the picks choose. */
  function Shuffled<T>(s: seq<T>, picks: seq<int>): (r: seq<T>)
    requires ValidPicks(|s|, picks)
    ensures |r| == |s|
  {
    if |picks| == 0 then s
    else
      var m := |picks|;
      var prev := Shuffled(s, picks[..m - 1]);
      Swap(prev, |s| - m, picks[m - 1])
  }

  /** Whatever the picks, the shuffle is a permutation. */
  lemma {:induction false} ShuffledIsPermutation<T>(s: seq<T>, picks: seq<int>)
    requires ValidPicks(|s|, picks)
    ensures multiset(Shuffled(s, picks)) == multiset(s)
  {
    if |picks| > 0 {
      ShuffledIsPermutation(s, picks[..|picks| - 1]);
    }
  }

  /** VNUtils.ShuffleList: Fisher–Yates in place; picks records the random indices. */
  method ShuffleList<T>(list: array<T>) returns (ghost picks: seq<int>)
    modifies list
    ensures ValidPicks(list.Length, picks) || list.Length == 0
    ensures |picks| == if list.Length == 0 then 0 else list.Length - 1
    ensures list.Length > 0 ==> list[..] == Shuffled(old(list[..]), picks)
    ensures multiset(list[..]) == multiset(old(list[..]))
  {
    picks := [];
    var i := list.Length - 1;
    while i > 0
      invariant -1 <= i < list.Length
      invariant list.Length > 0 ==> |picks| == list.Length - 1 - i
      invariant list.Length == 0 ==> picks == []
      invariant list.Length > 0 ==> ValidPicks(list.Length, picks)
      invariant list.Length > 0 ==> list[..] == Shuffled(old(list[..]), picks)
      invariant multiset(list[..]) == multiset(old(list[..]))
    {
      var j :| 0 <= j <= i;
      ghost var before := list[..];
      var temp := list[i];
      list[i] := list[j];
      list[j] := temp;
      assert list[..] == Swap(before, i, j);
      ghost var prev := picks;
      picks := picks + [j];
      assert picks[..|picks| - 1] == prev;
      i := i - 1;
    }
  }

  /** VNUtils.GetRandomElement: the default value (None) for a null or empty list, otherwise
      some element of it. */
  method GetRandomElement<T>(list: Option<seq<T>>) returns (r: Option<T>)
    ensures r.None? <==> list.None? || |list.value| == 0
    ensures r.Some? ==> r.value in list.value
  {
    if list.None? || |list.value| == 0 {
      return None;
    }
    var k :| 0 <= k < |list.value|;
    return Some(list.value[k]);
  }
}
