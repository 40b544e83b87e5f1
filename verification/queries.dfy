/**
 * Read-only queries over the table: the array `seas` together with the count of
 * entries in use, as the program passes them around. A count of zero or less means an
 * empty table.
 */
module SeaQueries {
  import opened Seas

  // ---------------------------------------------------------------------------
  // Deepest and least salty record

  /** k is the first index holding the greatest depth of s. */
  predicate IsFirstDeepest(s: seq<Sea>, k: int) {
    0 <= k < |s|
    && (forall j :: 0 <= j < |s| ==> s[j].depth <= s[k].depth)
    && (forall j :: 0 <= j < k ==> s[j].depth < s[k].depth)
  }

  /** k is the first index holding the smallest salinity of s. */
  predicate IsFirstLeastSalty(s: seq<Sea>, k: int) {
    0 <= k < |s|
    && (forall j :: 0 <= j < |s| ==> s[k].salinity <= s[j].salinity)
    && (forall j :: 0 <= j < k ==> s[k].salinity < s[j].salinity)
  }

  /** Index of the deepest sea, the first one on ties; -1 for an empty table. */
  method FindDeepestSeaIndex(seas: array<Sea>, seaCount: int) returns (r: int)
    requires seaCount <= seas.Length
    ensures seaCount <= 0 ==> r == -1
    ensures seaCount > 0 ==> IsFirstDeepest(seas[..seaCount], r)
  {
    if seaCount <= 0 {
      return -1;
    }
    var maxIndex := 0;
    for i := 1 to seaCount
      invariant IsFirstDeepest(seas[..i], maxIndex)
    {
      if seas[i].depth > seas[maxIndex].depth {
        maxIndex := i;
      }
    }
    return maxIndex;
  }

  /** Index of the least salty sea, the first one on ties; -1 for an empty table. */
  method FindLeastSaltySeaIndex(seas: array<Sea>, seaCount: int) returns (r: int)
    requires seaCount <= seas.Length
    ensures seaCount <= 0 ==> r == -1
    ensures seaCount > 0 ==> IsFirstLeastSalty(seas[..seaCount], r)
  {
    if seaCount <= 0 {
      return -1;
    }
    var minIndex := 0;
    for i := 1 to seaCount
      invariant IsFirstLeastSalty(seas[..i], minIndex)
    {
      if seas[i].salinity < seas[minIndex].salinity {
        minIndex := i;
      }
    }
    return minIndex;
  }

  /** The two conditions of IsFirstDeepest pin the index down: at most one index meets them. */
  lemma FirstDeepestUnique(s: seq<Sea>, k1: int, k2: int)
    requires IsFirstDeepest(s, k1) && IsFirstDeepest(s, k2)
    ensures k1 == k2
  {
    assert s[k1].depth == s[k2].depth;
  }

  /** Likewise for the least salty record. */
  lemma FirstLeastSaltyUnique(s: seq<Sea>, k1: int, k2: int)
    requires IsFirstLeastSalty(s, k1) && IsFirstLeastSalty(s, k2)
    ensures k1 == k2
  {
    assert s[k1].salinity == s[k2].salinity;
  }

  /** Every non-empty table has a first deepest record. */
  lemma {:induction false} DeepestExists(s: seq<Sea>) returns (k: nat)
    requires |s| > 0
    ensures IsFirstDeepest(s, k)
  {
    if |s| == 1 {
      k := 0;
    } else {
      var init := s[..|s| - 1];
      k := DeepestExists(init);
      assert forall j :: 0 <= j < |init| ==> init[j] == s[j];
      if s[|s| - 1].depth > s[k].depth {
        k := |s| - 1;
      }
    }
  }

  // ---------------------------------------------------------------------------
  // Average depth

  /** Sum of the depths, accumulated front to back. */
  function SumDepths(s: seq<Sea>): real {
    if s == [] then 0.0 else SumDepths(s[..|s| - 1]) + s[|s| - 1].depth
  }

  /** Arithmetic mean of the depths; 0 for an empty table. */
  function MeanDepth(s: seq<Sea>): real {
    if |s| == 0 then 0.0 else SumDepths(s) / (|s| as real)
  }

  /** Average depth of the first seaCount seas; 0 when the table is empty. */
  method CalculateAverageDepth(seas: array<Sea>, seaCount: int) returns (average: real)
    requires seaCount <= seas.Length
    ensures seaCount <= 0 ==> average == 0.0
    ensures seaCount > 0 ==> average * (seaCount as real) == SumDepths(seas[..seaCount])
    ensures seaCount > 0 ==> average == MeanDepth(seas[..seaCount])
  {
    if seaCount <= 0 {
      return 0.0;
    }
    var sum := 0.0;
    for i := 0 to seaCount
      invariant sum == SumDepths(seas[..i])
    {
      assert seas[..i + 1][..i] == seas[..i];
      sum := sum + seas[i].depth;
    }
    assert seas[..seaCount] == seas[..seaCount][..seaCount];
    return sum / (seaCount as real);
  }

  /** When every depth is at most m, the sum is at most |s| * m. */
  lemma {:induction false} SumDepthsBelow(s: seq<Sea>, m: real)
    requires forall i :: 0 <= i < |s| ==> s[i].depth <= m
    ensures SumDepths(s) <= (|s| as real) * m
  {
    if s != [] {
      var init := s[..|s| - 1];
      assert forall i :: 0 <= i < |init| ==> init[i] == s[i];
      SumDepthsBelow(init, m);
      SplitProduct(|init|, m);
    }
  }

  /** ... and strictly less when some depth is below m. */
  lemma {:induction false} SumDepthsStrictlyBelow(s: seq<Sea>, m: real, k: nat)
    requires forall i :: 0 <= i < |s| ==> s[i].depth <= m
    requires k < |s| && s[k].depth < m
    ensures SumDepths(s) < (|s| as real) * m
  {
    var init := s[..|s| - 1];
    assert forall i :: 0 <= i < |init| ==> init[i] == s[i];
    SplitProduct(|init|, m);
    if k == |init| {
      SumDepthsBelow(init, m);
    } else {
      SumDepthsStrictlyBelow(init, m, k);
    }
  }

  /** (n + 1) * m == n * m + m, the one step of arithmetic the sums need. */
  lemma SplitProduct(n: nat, m: real)
    ensures ((n + 1) as real) * m == (n as real) * m + m
  {
  }

  /** When every depth is at least m, the sum is at least |s| * m. */
  lemma {:induction false} SumDepthsAbove(s: seq<Sea>, m: real)
    requires forall i :: 0 <= i < |s| ==> m <= s[i].depth
    ensures (|s| as real) * m <= SumDepths(s)
  {
    if s != [] {
      var init := s[..|s| - 1];
      assert forall i :: 0 <= i < |init| ==> init[i] == s[i];
      SumDepthsAbove(init, m);
      SplitProduct(|init|, m);
    }
  }

  /** The mean lies in any range that holds every depth (so a valid table's mean is within [0, 12000]). */
  lemma MeanWithinRange(s: seq<Sea>, lo: real, hi: real)
    requires |s| > 0
    requires forall i :: 0 <= i < |s| ==> lo <= s[i].depth <= hi
    ensures lo <= MeanDepth(s) <= hi
  {
    SumDepthsBelow(s, hi);
    SumDepthsAbove(s, lo);
    var n := |s| as real;
    assert MeanDepth(s) * n == SumDepths(s);
  }

  // ---------------------------------------------------------------------------
  // Filters: the salinity search and the "deeper than average" listing

  /** The two selections the program prints. */
  datatype Criterion =
    | SalinityNear(target: real, tolerance: real)  // |salinity - target| <= tolerance
    | DeeperThan(level: real)                       // depth > level

  predicate Keeps(c: Criterion, x: Sea) {
    match c
    case SalinityNear(target, tolerance) => Abs(x.salinity - target) <= tolerance
    case DeeperThan(level) => x.depth > level
  }

  /** The records of s that c keeps, in table order. */
  function Select(s: seq<Sea>, c: Criterion): seq<Sea> {
    if s == [] then []
    else Select(s[..|s| - 1], c) + (if Keeps(c, s[|s| - 1]) then [s[|s| - 1]] else [])
  }

  /** Selection keeps exactly the qualifying records, each as often as it occurs. */
  lemma {:induction false} SelectMultiplicity(s: seq<Sea>, c: Criterion, x: Sea)
    ensures multiset(Select(s, c))[x] == if Keeps(c, x) then multiset(s)[x] else 0
  {
    if s != [] {
      var init := s[..|s| - 1];
      assert s == init + [s[|s| - 1]];
      SelectMultiplicity(init, c, x);
    }
  }

  /** Hence: a record is selected iff it is in the table and qualifies. */
  lemma SelectMembership(s: seq<Sea>, c: Criterion, x: Sea)
    ensures x in Select(s, c) <==> x in s && Keeps(c, x)
  {
    SelectMultiplicity(s, c, x);
    assert x in Select(s, c) <==> multiset(Select(s, c))[x] > 0;
    assert x in s <==> multiset(s)[x] > 0;
  }

  /** Selection preserves table order: selecting from a concatenation concatenates the selections. */
  lemma {:induction false} SelectAppend(a: seq<Sea>, b: seq<Sea>, c: Criterion)
    ensures Select(a + b, c) == Select(a, c) + Select(b, c)
  {
    if b != [] {
      var initB := b[..|b| - 1];
      assert (a + b)[..|a + b| - 1] == a + initB;
      SelectAppend(a, initB, c);
    } else {
      assert a + b == a;
    }
  }

  /** Nothing is selected iff no record qualifies. */
  lemma {:induction false} SelectEmptyIff(s: seq<Sea>, c: Criterion)
    ensures Select(s, c) == [] <==> forall i :: 0 <= i < |s| ==> !Keeps(c, s[i])
  {
    if s != [] {
      var init := s[..|s| - 1];
      SelectEmptyIff(init, c);
      assert forall i :: 0 <= i < |init| ==> init[i] == s[i];
    }
  }

  /**
   * The printing loop shared by the salinity search and the deeper-than-average listing:
   * `selected` is what it prints, `found` whether it printed anything.
   */
  method CollectMatching(seas: array<Sea>, seaCount: int, c: Criterion) returns (selected: seq<Sea>, found: bool)
    requires seaCount <= seas.Length
    ensures seaCount <= 0 ==> selected == []
    ensures seaCount > 0 ==> selected == Select(seas[..seaCount], c)
    ensures found <==> exists i :: 0 <= i < seaCount && Keeps(c, seas[i])
  {
    selected, found := [], false;
    var i := 0;
    while i < seaCount
      invariant 0 <= i <= (if seaCount < 0 then 0 else seaCount)
      invariant selected == Select(seas[..i], c)
      invariant found <==> exists k :: 0 <= k < i && Keeps(c, seas[k])
    {
      assert seas[..i + 1][..i] == seas[..i];
      if Keeps(c, seas[i]) {
        selected := selected + [seas[i]];
        found := true;
      }
      i := i + 1;
    }
  }

  /** The records whose salinity is within `tolerance` of `target`, and whether there are any. */
  method FindSeasBySalinity(seas: array<Sea>, seaCount: int, target: real, tolerance: real)
    returns (matches: seq<Sea>, found: bool)
    requires seaCount <= seas.Length
    ensures forall x :: x in matches <==> x in seas[..if seaCount <= 0 then 0 else seaCount]
                                           && Abs(x.salinity - target) <= tolerance
    ensures seaCount > 0 ==> matches == Select(seas[..seaCount], SalinityNear(target, tolerance))
    ensures found <==> exists i :: 0 <= i < seaCount && Abs(seas[i].salinity - target) <= tolerance
    ensures found <==> matches != []
  {
    matches, found := CollectMatching(seas, seaCount, SalinityNear(target, tolerance));
    var live := seas[..if seaCount <= 0 then 0 else seaCount];
    forall x ensures x in matches <==> x in live && Abs(x.salinity - target) <= tolerance {
      SelectMembership(live, SalinityNear(target, tolerance), x);
    }
    SelectEmptyIff(live, SalinityNear(target, tolerance));
  }

  /**
   * The statistics step of the program: the average depth, then every record strictly
   * deeper than it, and whether there is any.
   */
  method SeasDeeperThanAverage(seas: array<Sea>, seaCount: int)
    returns (average: real, deeper: seq<Sea>, found: bool)
    requires seaCount <= seas.Length
    ensures seaCount <= 0 ==> average == 0.0 && deeper == [] && !found
    ensures seaCount > 0 ==> average == MeanDepth(seas[..seaCount])
    ensures seaCount > 0 ==> deeper == Select(seas[..seaCount], DeeperThan(average))
    ensures found <==> exists i :: 0 <= i < seaCount && seas[i].depth > average
    ensures seaCount > 0 ==> (found <==> !AllSameDepth(seas[..seaCount]))
  {
    average := CalculateAverageDepth(seas, seaCount);
    deeper, found := CollectMatching(seas, seaCount, DeeperThan(average));
    if seaCount > 0 {
      AboveAverageEmptyIff(seas[..seaCount]);
      SelectEmptyIff(seas[..seaCount], DeeperThan(average));
    }
  }

  /** Every record has the depth of the first. */
  predicate AllSameDepth(s: seq<Sea>) {
    forall i :: 0 <= i < |s| ==> s[i].depth == s[0].depth
  }

  /** When all depths are equal, the mean is that depth. */
  lemma MeanOfEqualDepths(s: seq<Sea>)
    requires |s| > 0 && AllSameDepth(s)
    ensures MeanDepth(s) == s[0].depth
  {
    var d, n := s[0].depth, |s| as real;
    SumDepthsBelow(s, d);
    SumDepthsAbove(s, d);
    assert SumDepths(s) == n * d;
  }

  /** When the depths are not all equal, some record is strictly deeper than the mean. */
  lemma SomeDeeperThanMean(s: seq<Sea>) returns (k: nat)
    requires |s| > 0 && !AllSameDepth(s)
    ensures k < |s| && s[k].depth > MeanDepth(s)
  {
    var mean := MeanDepth(s);
    assert mean * (|s| as real) == SumDepths(s);
    if forall i :: 0 <= i < |s| ==> s[i].depth <= mean {
      var i :| 0 <= i < |s| && s[i].depth != s[0].depth;
      var j := if s[i].depth < mean then i else 0;
      SumDepthsStrictlyBelow(s, mean, j);
      assert false;
    }
    k :| 0 <= k < |s| && s[k].depth > mean;
  }

  /**
   * Nothing is strictly deeper than the mean iff all depths are equal; in particular a
   * single-record table never has a record deeper than average.
   */
  lemma AboveAverageEmptyIff(s: seq<Sea>)
    requires |s| > 0
    ensures Select(s, DeeperThan(MeanDepth(s))) == [] <==> AllSameDepth(s)
  {
    SelectEmptyIff(s, DeeperThan(MeanDepth(s)));
    if AllSameDepth(s) {
      MeanOfEqualDepths(s);
    } else {
      var k := SomeDeeperThanMean(s);
    }
  }
}
