/**
 * The clock puzzle: a dial of `hours` hours, 1 at the top, and a hand on
 * `current`. A move turns the hand one hour back or forward, wrapping
 * around at 1 and `hours`. The goal is to bring the hand to `end`.
 */
module ClockPuzzle {
  import opened Solving

  /**
   * A configuration: the dial size, the start and end hours, the dial itself
   * (the list of hours built by the constructor) and the current hour.
   */
  datatype ClockConfig = ClockConfig(hours: int, start: int, end: int, clock: seq<int>, current: int)

  /** The dial the constructor builds for `hours`: it appends 1, 2, ..., hours in turn. */
  function Dial(hours: int): (d: seq<int>)
    ensures |d| == if hours < 0 then 0 else hours
    ensures forall k :: 0 <= k < |d| ==> d[k] == k + 1
    decreases hours
  {
    if hours <= 0 then [] else Dial(hours - 1) + [hours]
  }

  /** A configuration whose dial is the one its constructor builds. */
  ghost predicate Valid(c: ClockConfig)
  {
    c.clock == Dial(c.hours)
  }

  /** The public constructor: the hand starts on `start`. */
  function NewClock(hours: int, start: int, end: int): (c: ClockConfig)
    ensures Valid(c)
    ensures c.hours == hours && c.start == start && c.end == end && c.current == start
    ensures forall k :: 0 <= k < hours ==> k < |c.clock| && c.clock[k] == k + 1
  {
    ClockConfig(hours, start, end, Dial(hours), start)
  }

  /** `ArrayList.get`: `None` stands for the `IndexOutOfBoundsException` an index off the list throws. */
  function Get(s: seq<int>, k: int): (r: Option<int>)
    ensures r.Some? <==> 0 <= k < |s|
    ensures r.Some? ==> r.value == s[k]
  {
    if 0 <= k < |s| then Some(s[k]) else None
  }

  /**
   * The two neighbours, looked up on the dial as the source does: the hour
   * before `current` (the last hour when `current` is 1), then the hour after
   * it (the first hour when `current` is `hours`). `None` when a lookup
   * falls off the dial, where the source throws.
   */
  function Neighbors(c: ClockConfig): (r: Option<seq<ClockConfig>>)
    ensures r.Some? ==> |r.value| == 2 && forall d :: d in r.value ==> d == c.(current := d.current)
  {
    var first := if c.current == 1 then Get(c.clock, c.hours - 1) else Get(c.clock, c.current - 2);
    var second := if c.current == c.hours then Get(c.clock, 0) else Get(c.clock, c.current);
    if first.None? || second.None? then None
    else Some([c.(current := first.value), c.(current := second.value)])
  }

  /** The hour one step counter-clockwise, by arithmetic. */
  function Before(current: int, hours: int): int
  {
    if current == 1 then hours else current - 1
  }

  /** The hour one step clockwise, by arithmetic. */
  function After(current: int, hours: int): int
  {
    if current == hours then 1 else current + 1
  }

  /**
   * On a dial built by the constructor, the lookups succeed exactly when the
   * hand is on the dial, and then give the two wrapped neighbours, in that
   * order, with everything but the hand kept.
   */
  lemma NeighborsOnDial(c: ClockConfig)
    requires Valid(c)
    ensures Neighbors(c).Some? <==> 1 <= c.current <= c.hours
    ensures Neighbors(c).Some? ==>
      Neighbors(c).value == [c.(current := Before(c.current, c.hours)), c.(current := After(c.current, c.hours))]
  {
  }

  /** Both neighbours of an hour on the dial are on the dial. */
  lemma NeighborsStayOnDial(c: ClockConfig)
    requires Valid(c) && 1 <= c.current <= c.hours
    ensures Neighbors(c).Some? && |Neighbors(c).value| == 2
    ensures forall d :: d in Neighbors(c).value ==>
      Valid(d) && d.hours == c.hours && d.start == c.start && d.end == c.end && 1 <= d.current <= c.hours
  {
    NeighborsOnDial(c);
  }

  /** The goal test: no clockwise step is left to take. */
  predicate IsGoal(c: ClockConfig): (b: bool)
    ensures 1 <= c.current <= c.hours && 1 <= c.end <= c.hours ==> (b <==> Distance(c.current, c.end, c.hours) == 0)
  {
    c.current == c.end
  }

  /** The source's hash code (its 32-bit wrap-around is not modelled). */
  function Hash(c: ClockConfig): int
  {
    c.current + c.hours + c.start + c.end
  }

  /** The source's `equals`: two configurations are equal when their hash codes are. */
  predicate HashEquals(a: ClockConfig, b: ClockConfig)
  {
    Hash(a) == Hash(b)
  }

  /**
   * Within one puzzle (same dial, start and end) the hash comparison agrees
   * with structural equality, which is what the model uses as equality.
   */
  lemma HashEqualsWithinPuzzle(a: ClockConfig, b: ClockConfig)
    requires Valid(a) && Valid(b)
    requires a.hours == b.hours && a.start == b.start && a.end == b.end
    ensures HashEquals(a, b) <==> a == b
    ensures HashEquals(a, b) <==> a.current == b.current
  {
  }

  /**
   * The configuration interface seen by the solver: the hour before, then
   * the hour after, for a hand on the dial; no neighbours where the source
   * would throw.
   */
  function Next(c: ClockConfig): (n: seq<ClockConfig>)
    ensures Valid(c) && 1 <= c.current <= c.hours ==>
      n == [c.(current := Before(c.current, c.hours)), c.(current := After(c.current, c.hours))]
    ensures Valid(c) && !(1 <= c.current <= c.hours) ==> n == []
  {
    if Neighbors(c).Some? then Neighbors(c).value else []
  }

  /** The configurations of one puzzle with the hand on the dial. */
  function Universe(c: ClockConfig): (u: set<ClockConfig>)
    ensures forall d :: d in u <==> d == c.(current := d.current) && 1 <= d.current <= c.hours
  {
    set k | 1 <= k <= c.hours :: c.(current := k)
  }

  /** The solver's bound for a clock puzzle holds: its universe is closed under moves. */
  lemma UniverseClosed(c: ClockConfig)
    requires Valid(c)
    ensures Closed(Next, Universe(c))
  {
    forall d, i | d in Universe(c) && 0 <= i < |Next(d)|
      ensures Next(d)[i] in Universe(c)
    {
      NeighborsOnDial(d);
    }
  }

  /** The number of clockwise steps from `current` to `end`. */
  function Distance(current: int, end: int, hours: int): int
  {
    if current <= end then end - current else end - current + hours
  }

  /** Turning the hand clockwise from `c` until it reaches `end`. */
  function ClockwiseWalk(c: ClockConfig): seq<ClockConfig>
    requires 1 <= c.current <= c.hours && 1 <= c.end <= c.hours
    decreases Distance(c.current, c.end, c.hours)
  {
    if c.current == c.end then [c]
    else [c] + ClockwiseWalk(c.(current := After(c.current, c.hours)))
  }

  /**
   * Every clock puzzle whose start and end are on the dial has a solution:
   * the clockwise walk from the start to the end.
   */
  lemma {:induction false} Solvable(c: ClockConfig)
    requires Valid(c) && 1 <= c.current <= c.hours && 1 <= c.end <= c.hours
    ensures IsSolution(Next, IsGoal, c, ClockwiseWalk(c))
    decreases Distance(c.current, c.end, c.hours)
  {
    if c.current != c.end {
      var d := c.(current := After(c.current, c.hours));
      Solvable(d);
      NeighborsOnDial(c);
      var w := ClockwiseWalk(d);
      assert ClockwiseWalk(c) == [c] + w;
      assert d == Next(c)[1];
      forall i | 0 <= i < |[c] + w| - 1
        ensures ([c] + w)[i + 1] in Next(([c] + w)[i])
      {
        if i > 0 {
          assert ([c] + w)[i] == w[i - 1] && ([c] + w)[i + 1] == w[i];
        }
      }
    }
  }
}
