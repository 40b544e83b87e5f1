/**
 * Sorting the table by depth, deepest first, in place. The library sort the program
 * calls is replaced by an insertion sort; only what any correct sort guarantees is
 * stated (the order of records of equal depth is left open, as it is for the library).
 */
module SeaSort {
  import opened Seas
  import SeaQueries

  /** Depth never increases from one record to the next. */
  predicate SortedByDepth(s: seq<Sea>) {
    forall i :: 0 < i < |s| ==> s[i - 1].depth >= s[i].depth
  }

  /** Sorts seas[..seaCount] by depth, descending, leaving the rest of the array alone. */
  method SortSeasByDepth(seas: array<Sea>, seaCount: int)
    requires 0 <= seaCount <= seas.Length
    modifies seas
    ensures SortedByDepth(seas[..seaCount])
    ensures multiset(seas[..seaCount]) == multiset(old(seas[..seaCount]))
    ensures seas[seaCount..] == old(seas[seaCount..])
  {
    var i := 0;
    while i < seaCount
      invariant 0 <= i <= seaCount
      invariant SortedByDepth(seas[..i])
      invariant multiset(seas[..]) == multiset(old(seas[..]))
      invariant forall k :: seaCount <= k < seas.Length ==> seas[k] == old(seas[k])
    {
      InsertDown(seas, i);
      i := i + 1;
    }
    assert seas[seaCount..] == old(seas[seaCount..]);
    assert seas[..] == seas[..seaCount] + seas[seaCount..];
    assert old(seas[..]) == old(seas[..seaCount]) + old(seas[seaCount..]);
    assert multiset(seas[..]) == multiset(seas[..seaCount]) + multiset(seas[seaCount..]);
    assert multiset(old(seas[..])) == multiset(old(seas[..seaCount])) + multiset(old(seas[seaCount..]));
    assert multiset(seas[..seaCount]) == multiset(seas[..]) - multiset(seas[seaCount..]);
    assert multiset(old(seas[..seaCount])) == multiset(old(seas[..])) - multiset(old(seas[seaCount..]));
  }

  /** One insertion step: moves seas[i] down into the sorted prefix seas[..i]. */
  method InsertDown(seas: array<Sea>, i: nat)
    requires i < seas.Length
    requires SortedByDepth(seas[..i])
    modifies seas
    ensures SortedByDepth(seas[..i + 1])
    ensures multiset(seas[..]) == multiset(old(seas[..]))
    ensures forall k :: i < k < seas.Length ==> seas[k] == old(seas[k])
  {
    var j := i;
    while j > 0 && seas[j - 1].depth < seas[j].depth
      invariant 0 <= j <= i
      invariant forall k :: 0 < k <= i && k != j ==> seas[k - 1].depth >= seas[k].depth
      invariant 0 < j < i ==> seas[j - 1].depth >= seas[j + 1].depth
      invariant multiset(seas[..]) == multiset(old(seas[..]))
      invariant forall k :: i < k < seas.Length ==> seas[k] == old(seas[k])
    {
      SwapAdjacent(seas, j);
      j := j - 1;
    }
  }

  /** Exchanges seas[j - 1] and seas[j]. */
  method SwapAdjacent(seas: array<Sea>, j: nat)
    requires 0 < j < seas.Length
    modifies seas
    ensures seas[j - 1] == old(seas[j]) && seas[j] == old(seas[j - 1])
    ensures forall k :: 0 <= k < seas.Length && k != j - 1 && k != j ==> seas[k] == old(seas[k])
    ensures multiset(seas[..]) == multiset(old(seas[..]))
  {
    seas[j - 1], seas[j] := seas[j], seas[j - 1];
  }

  /** Sorted by adjacent pairs means sorted for every pair of positions. */
  lemma {:induction false} SortedByDepthPairwise(s: seq<Sea>, i: nat, j: nat)
    requires SortedByDepth(s)
    requires i <= j < |s|
    ensures s[i].depth >= s[j].depth
  {
    if i < j {
      SortedByDepthPairwise(s, i, j - 1);
    }
  }

  /** After the sort, the deepest-sea query picks the first record. */
  lemma DeepestFirstAfterSort(s: seq<Sea>)
    requires |s| > 0 && SortedByDepth(s)
    ensures SeaQueries.IsFirstDeepest(s, 0)
  {
    forall j | 0 <= j < |s|
      ensures s[j].depth <= s[0].depth
    {
      SortedByDepthPairwise(s, 0, j);
    }
  }

  /** Sorting neither adds nor drops records, so the average depth is unchanged. */
  lemma {:induction false} SumDepthsPermutation(s: seq<Sea>, t: seq<Sea>)
    requires multiset(s) == multiset(t)
    ensures SeaQueries.SumDepths(s) == SeaQueries.SumDepths(t)
    decreases |s|
  {
    if s != [] {
      var x := s[|s| - 1];
      assert x in multiset(t);
      var k :| 0 <= k < |t| && t[k] == x;
      var t' := t[..k] + t[k + 1..];
      assert t == t[..k] + [x] + t[k + 1..];
      assert s == s[..|s| - 1] + [x];
      assert multiset(t) == multiset(t[..k]) + multiset([x]) + multiset(t[k + 1..]);
      assert multiset(s) == multiset(s[..|s| - 1]) + multiset([x]);
      assert multiset(t') == multiset(t[..k]) + multiset(t[k + 1..]);
      assert multiset(s[..|s| - 1]) == multiset(s) - multiset([x]);
      assert multiset(t') == multiset(t) - multiset([x]);
      SumDepthsPermutation(s[..|s| - 1], t');
      SumDepthsRemove(t, k);
    }
  }

  /** Removing the record at k takes its depth off the sum. */
  lemma {:induction false} SumDepthsRemove(t: seq<Sea>, k: nat)
    requires k < |t|
    ensures SeaQueries.SumDepths(t) == SeaQueries.SumDepths(t[..k] + t[k + 1..]) + t[k].depth
  {
    var last := |t| - 1;
    if k < last {
      var init := t[..last];
      SumDepthsRemove(init, k);
      assert init[..k] + init[k + 1..] == (t[..k] + t[k + 1..])[..|t| - 2];
      assert (t[..k] + t[k + 1..])[|t| - 2] == t[last];
    } else {
      assert t[..k] + t[k + 1..] == t[..last];
    }
  }
}
