/**
 * The water-jug puzzle: a row of buckets with fixed capacities, and the
 * amount of water in each. A move empties a bucket, fills it to capacity,
 * or pours one bucket into another until the first is empty or the second
 * is full. The goal is some bucket holding exactly `amount`.
 */
module WaterPuzzle {
  import opened Solving

  /** A configuration: the wanted amount, the capacities, the all-empty start levels and the current levels. */
  datatype WaterConfig = WaterConfig(amount: int, bucketSizes: seq<int>, start: seq<int>, current: seq<int>)

  /** One level per bucket, as the constructor sets up and every move keeps. */
  ghost predicate Valid(c: WaterConfig)
  {
    |c.current| == |c.bucketSizes|
  }

  /** Every level lies between empty and the bucket's capacity. */
  ghost predicate InBounds(c: WaterConfig)
  {
    Valid(c) && forall k :: 0 <= k < |c.current| ==> 0 <= c.current[k] <= c.bucketSizes[k]
  }

  /** The public constructor: every bucket starts empty. */
  method NewWater(amount: int, bucketSizes: seq<int>) returns (c: WaterConfig)
    ensures Valid(c) && c.amount == amount && c.bucketSizes == bucketSizes
    ensures forall k :: 0 <= k < |c.current| ==> c.current[k] == 0
    ensures c.start == c.current
  {
    var start := [];
    for i := 0 to |bucketSizes|
      invariant |start| == i
      invariant forall k :: 0 <= k < i ==> start[k] == 0
    {
      start := start + [0];
    }
    c := WaterConfig(amount, bucketSizes, start, start);
  }

  /** Empties bucket `i`. */
  function Dump(c: WaterConfig, i: nat): (r: WaterConfig)
    requires i < |c.current|
    ensures |r.current| == |c.current| && r.current[i] == 0
    ensures forall k :: 0 <= k < |c.current| && k != i ==> r.current[k] == c.current[k]
  {
    c.(current := c.current[i := 0])
  }

  /** Fills bucket `i` to its capacity. */
  function Fill(c: WaterConfig, i: nat): (r: WaterConfig)
    requires Valid(c) && i < |c.current|
    ensures |r.current| == |c.current| && r.current[i] == c.bucketSizes[i]
    ensures forall k :: 0 <= k < |c.current| && k != i ==> r.current[k] == c.current[k]
  {
    c.(current := c.current[i := c.bucketSizes[i]])
  }

  function Min(a: int, b: int): int
  {
    if a <= b then a else b
  }

  /**
   * Pours bucket `i` into bucket `j`: when both together fit in `j`, `j`
   * takes it all and `i` is emptied; otherwise `j` is filled and `i` keeps
   * the overflow.
   */
  function Pour(c: WaterConfig, i: nat, j: nat): (r: WaterConfig)
    requires Valid(c) && i < |c.current| && j < |c.current| && i != j
    ensures |r.current| == |c.current|
    ensures r.current[j] == Min(c.current[i] + c.current[j], c.bucketSizes[j])
    ensures r.current[i] == c.current[i] + c.current[j] - r.current[j]
    ensures forall k :: 0 <= k < |c.current| && k != i && k != j ==> r.current[k] == c.current[k]
  {
    var poured := c.current[j] + c.current[i];
    if poured <= c.bucketSizes[j] then
      c.(current := c.current[j := poured][i := 0])
    else
      c.(current := c.current[j := c.bucketSizes[j]][i := poured - c.bucketSizes[j]])
  }

  /** The pours out of bucket `i` into the buckets before `k`, in order, skipping `i` itself. */
  function PoursUpTo(c: WaterConfig, i: nat, k: nat): seq<WaterConfig>
    requires Valid(c) && i < |c.current| && k <= |c.current|
  {
    if k == 0 then []
    else if k - 1 == i then PoursUpTo(c, i, k - 1)
    else PoursUpTo(c, i, k - 1) + [Pour(c, i, k - 1)]
  }

  /** The neighbours produced for bucket `i`: dump, fill, then the pours out of it. */
  function Round(c: WaterConfig, i: nat): seq<WaterConfig>
    requires Valid(c) && i < |c.current|
  {
    [Dump(c, i), Fill(c, i)] + PoursUpTo(c, i, |c.current|)
  }

  /** The neighbours produced for the buckets before `k`. */
  function NeighborsUpTo(c: WaterConfig, k: nat): seq<WaterConfig>
    requires Valid(c) && k <= |c.current|
  {
    if k == 0 then [] else NeighborsUpTo(c, k - 1) + Round(c, k - 1)
  }

  /**
   * All neighbours, in the order the source lists them. With `n` buckets
   * there are `n * (n + 1)`: per bucket a dump, a fill and `n - 1` pours.
   */
  function Neighbors(c: WaterConfig): (r: seq<WaterConfig>)
    requires Valid(c)
    ensures |r| == |c.current| * (|c.current| + 1)
  {
    NeighborsUpToCount(c, |c.current|);
    NeighborsUpTo(c, |c.current|)
  }

  /** The neighbour listing: for each bucket a dump, a fill and a pour into every other bucket. */
  method GetNeighbors(c: WaterConfig) returns (configs: seq<WaterConfig>)
    requires Valid(c)
    ensures configs == Neighbors(c)
  {
    configs := [];
    for i := 0 to |c.bucketSizes|
      invariant configs == NeighborsUpTo(c, i)
    {
      configs := configs + [Dump(c, i)];
      configs := configs + [Fill(c, i)];
      ghost var before := configs;
      assert before + PoursUpTo(c, i, 0) == before;
      for j := 0 to |c.bucketSizes|
        invariant configs == before + PoursUpTo(c, i, j)
      {
        if i != j {
          configs := configs + [Pour(c, i, j)];
          assert PoursUpTo(c, i, j + 1) == PoursUpTo(c, i, j) + [Pour(c, i, j)];
        }
      }
      assert before == NeighborsUpTo(c, i) + [Dump(c, i), Fill(c, i)];
      assert NeighborsUpTo(c, i + 1) == NeighborsUpTo(c, i) + Round(c, i);
    }
  }

  lemma {:induction false} PoursCount(c: WaterConfig, i: nat, k: nat)
    requires Valid(c) && i < |c.current| && k <= |c.current|
    ensures |PoursUpTo(c, i, k)| == if i < k then k - 1 else k
  {
    if k > 0 {
      PoursCount(c, i, k - 1);
    }
  }

  lemma {:induction false} NeighborsUpToCount(c: WaterConfig, k: nat)
    requires Valid(c) && k <= |c.current|
    ensures |NeighborsUpTo(c, k)| == k * (|c.current| + 1)
  {
    if k > 0 {
      var n := |c.current|;
      NeighborsUpToCount(c, k - 1);
      PoursCount(c, k - 1, n);
      assert |Round(c, k - 1)| == n + 1;
      assert k * (n + 1) == (k - 1) * (n + 1) + (n + 1);
    }
  }

  /** The total amount of water. */
  function Total(s: seq<int>): int
  {
    if s == [] then 0 else Total(s[..|s| - 1]) + s[|s| - 1]
  }

  lemma {:induction false} TotalUpdate(s: seq<int>, k: nat, v: int)
    requires k < |s|
    ensures Total(s[k := v]) == Total(s) - s[k] + v
  {
    var t := s[k := v];
    if k < |s| - 1 {
      assert t[..|t| - 1] == s[..|s| - 1][k := v];
      TotalUpdate(s[..|s| - 1], k, v);
    } else {
      assert t[..|t| - 1] == s[..|s| - 1];
    }
  }

  /** Pouring conserves the total amount of water. */
  lemma PourConserves(c: WaterConfig, i: nat, j: nat)
    requires Valid(c) && i < |c.current| && j < |c.current| && i != j
    ensures Total(Pour(c, i, j).current) == Total(c.current)
  {
    var poured := c.current[j] + c.current[i];
    var v := if poured <= c.bucketSizes[j] then poured else c.bucketSizes[j];
    TotalUpdate(c.current, j, v);
    TotalUpdate(c.current[j := v], i, poured - v);
    assert Pour(c, i, j).current == c.current[j := v][i := poured - v];
  }

  /** Every neighbour keeps the puzzle (amount, capacities, start) and its shape. */
  ghost predicate SamePuzzle(c: WaterConfig, d: WaterConfig)
  {
    d.amount == c.amount && d.bucketSizes == c.bucketSizes && d.start == c.start && Valid(d)
  }

  lemma {:induction false} PoursKeepBounds(c: WaterConfig, i: nat, k: nat)
    requires InBounds(c) && i < |c.current| && k <= |c.current|
    ensures forall d :: d in PoursUpTo(c, i, k) ==> InBounds(d) && SamePuzzle(c, d)
  {
    if k > 0 {
      PoursKeepBounds(c, i, k - 1);
    }
  }

  lemma {:induction false} NeighborsUpToKeepBounds(c: WaterConfig, k: nat)
    requires InBounds(c) && k <= |c.current|
    ensures forall d :: d in NeighborsUpTo(c, k) ==> InBounds(d) && SamePuzzle(c, d)
  {
    if k > 0 {
      NeighborsUpToKeepBounds(c, k - 1);
      PoursKeepBounds(c, k - 1, |c.current|);
    }
  }

  /** When every level is within its bucket's capacity, so is every level of every neighbour. */
  lemma NeighborsKeepBounds(c: WaterConfig)
    requires InBounds(c)
    ensures forall d :: d in Neighbors(c) ==> InBounds(d) && SamePuzzle(c, d)
  {
    NeighborsUpToKeepBounds(c, |c.current|);
  }

  /** Some bucket holds exactly the wanted amount. */
  predicate HasAmount(c: WaterConfig)
  {
    exists k :: 0 <= k < |c.current| && c.current[k] == c.amount
  }

  /** The goal test: scans the buckets and stops at the first one holding the wanted amount. */
  method IsGoal(c: WaterConfig) returns (b: bool)
    ensures b <==> exists k :: 0 <= k < |c.current| && c.current[k] == c.amount
  {
    for k := 0 to |c.current|
      invariant forall m :: 0 <= m < k ==> c.current[m] != c.amount
    {
      if c.current[k] == c.amount {
        return true;
      }
    }
    return false;
  }

  /** `List.hashCode` of the levels: 31 times the hash of the prefix, plus the last level. */
  function ListHash(s: seq<int>): int
  {
    if s == [] then 1 else 31 * ListHash(s[..|s| - 1]) + s[|s| - 1]
  }

  /** The sum of each level times its one-based position. */
  function WeightedSum(s: seq<int>): int
  {
    if s == [] then 0 else WeightedSum(s[..|s| - 1]) + s[|s| - 1] * |s|
  }

  /** The source's hash code of a configuration (its 32-bit wrap-around is not modelled). */
  function Hash(c: WaterConfig): int
  {
    ListHash(c.current) + WeightedSum(c.current)
  }

  /** The hash-code loop: accumulates the weighted sum, then adds the list's hash code. */
  method HashCode(c: WaterConfig) returns (h: int)
    ensures h == Hash(c)
  {
    var sum := 0;
    for i := 0 to |c.current|
      invariant sum == WeightedSum(c.current[..i])
    {
      assert c.current[..i + 1][..i] == c.current[..i];
      sum := c.current[i] * (i + 1) + sum;
    }
    assert c.current[..|c.current|] == c.current;
    h := ListHash(c.current) + sum;
  }

  /** The source's `equals`: two configurations are equal when their hash codes are. */
  predicate HashEquals(a: WaterConfig, b: WaterConfig)
  {
    Hash(a) == Hash(b)
  }

  /**
   * With capacities 3 and 32 and both buckets empty, filling the first bucket
   * and filling the second give different configurations with equal hash
   * codes, so the source's `equals` takes them for the same configuration.
   * Filling the first comes earlier among the neighbours, so the solver's
   * predecessor map, which finds keys through `equals`, never records the
   * second.
   */
  lemma HashCollision()
    ensures var c := WaterConfig(32, [3, 32], [0, 0], [0, 0]);
      && InBounds(c)
      && |Neighbors(c)| == 6 && Neighbors(c)[1] == Fill(c, 0) && Neighbors(c)[4] == Fill(c, 1)
      && Fill(c, 0).current == [3, 0] && Fill(c, 1).current == [0, 32]
      && Fill(c, 0) != Fill(c, 1) && HashEquals(Fill(c, 0), Fill(c, 1))
      && HasAmount(Fill(c, 1))
  {
    var c := WaterConfig(32, [3, 32], [0, 0], [0, 0]);
    assert PoursUpTo(c, 0, 2) == [Pour(c, 0, 1)];
    assert PoursUpTo(c, 1, 2) == [Pour(c, 1, 0)];
    assert NeighborsUpTo(c, 1) == [Dump(c, 0), Fill(c, 0), Pour(c, 0, 1)];
    assert Neighbors(c) == NeighborsUpTo(c, 1) + [Dump(c, 1), Fill(c, 1), Pour(c, 1, 0)];
    var a, b := Fill(c, 0).current, Fill(c, 1).current;
    assert a == [3, 0] && b == [0, 32];
    assert a[..1] == [3] && [3][..0] == [] && b[..1] == [0] && [0][..0] == [];
    assert Hash(Fill(c, 0)) == 1057 == Hash(Fill(c, 1));
    assert b[1] == 32;
  }

  /**
   * Structural equality, which the model uses in place of the hash
   * comparison: within one puzzle, two configurations are equal exactly when
   * their levels are.
   */
  predicate Equals(a: WaterConfig, b: WaterConfig)
  {
    a == b
  }

  lemma EqualsWithinPuzzle(a: WaterConfig, b: WaterConfig)
    requires a.amount == b.amount && a.bucketSizes == b.bucketSizes && a.start == b.start
    ensures Equals(a, b) <==> a.current == b.current
  {
  }
}
