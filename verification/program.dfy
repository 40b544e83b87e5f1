/**
 * The report the program prints once the table is filled: the table is sorted by depth
 * in place, then searched by salinity (default tolerance), then the deepest and least
 * salty seas, the average depth and the seas deeper than average are looked up on the
 * sorted table. The printing itself is not modelled; each step's result is returned.
 */
module SeaProgram {
  import opened Seas
  import opened SeaQueries
  import opened SeaSort

  method Report(seas: array<Sea>, seaCount: int, targetSalinity: real)
    returns (bySalinity: seq<Sea>, deepest: int, leastSalty: int, average: real, deeper: seq<Sea>)
    requires 0 <= seaCount <= seas.Length
    modifies seas
    ensures SortedByDepth(seas[..seaCount])
    ensures multiset(seas[..seaCount]) == multiset(old(seas[..seaCount]))
    ensures seas[seaCount..] == old(seas[seaCount..])
    ensures forall x :: x in bySalinity <==> x in old(seas[..seaCount])
                                             && Abs(x.salinity - targetSalinity) <= DefaultTolerance
    ensures deepest == if seaCount == 0 then -1 else 0
    ensures bySalinity == Select(seas[..seaCount], SalinityNear(targetSalinity, DefaultTolerance))
    ensures seaCount > 0 ==> IsFirstLeastSalty(seas[..seaCount], leastSalty)
    ensures average == MeanDepth(old(seas[..seaCount]))
    ensures deeper == Select(seas[..seaCount], DeeperThan(average))
    ensures seaCount == 1 ==> deeper == []
  {
    SortSeasByDepth(seas, seaCount);
    ghost var sorted := seas[..seaCount];
    assert forall x :: x in sorted <==> x in old(seas[..seaCount]) by {
      forall x ensures x in sorted <==> x in old(seas[..seaCount]) {
        assert x in sorted <==> x in multiset(sorted);
      }
    }
    var found: bool;
    bySalinity, found := FindSeasBySalinity(seas, seaCount, targetSalinity, DefaultTolerance);
    deepest := FindDeepestSeaIndex(seas, seaCount);
    if seaCount > 0 {
      DeepestFirstAfterSort(sorted);
      FirstDeepestUnique(sorted, deepest, 0);
    }
    leastSalty := FindLeastSaltySeaIndex(seas, seaCount);
    average, deeper, found := SeasDeeperThanAverage(seas, seaCount);
    SumDepthsPermutation(sorted, old(seas[..seaCount]));
    assert |sorted| == |multiset(sorted)| == |old(seas[..seaCount])|;
    if seaCount == 1 {
      assert AllSameDepth(sorted);
    }
  }
}
