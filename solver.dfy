/**
 * The generic breadth-first search solver.
 *
 * A puzzle configuration type `C` plugs in through the two operations of the
 * configuration interface: `next`, which lists the configurations one legal
 * move away, and `isGoal`. The solver keeps a FIFO queue, a predecessor map
 * that both deduplicates configurations and records the configuration each
 * one was discovered from, and a counter of generated configurations.
 */
module Solving {

  datatype Option<T> = None | Some(value: T)

  /** Every element after the first is a neighbour of the element before it. */
  ghost predicate IsWalk<C>(next: C -> seq<C>, w: seq<C>)
  {
    forall i :: 0 <= i < |w| - 1 ==> w[i + 1] in next(w[i])
  }

  /** A walk that starts at `start` and ends in a goal configuration. */
  ghost predicate IsSolution<C>(next: C -> seq<C>, isGoal: C -> bool, start: C, w: seq<C>)
  {
    |w| > 0 && w[0] == start && isGoal(w[|w| - 1]) && IsWalk(next, w)
  }

  /** `universe` holds every neighbour of each of its members. */
  ghost predicate Closed<C>(next: C -> seq<C>, universe: set<C>)
  {
    forall c, i :: c in universe && 0 <= i < |next(c)| ==> next(c)[i] in universe
  }

  ghost predicate Distinct<C>(s: seq<C>)
  {
    forall i, j :: 0 <= i < j < |s| ==> s[i] != s[j]
  }

  /** The number of neighbours generated by expanding each of `xs` once. */
  ghost function Generated<C>(next: C -> seq<C>, xs: seq<C>): nat
  {
    if xs == [] then 0 else Generated(next, xs[..|xs| - 1]) + |next(xs[|xs| - 1])|
  }

  lemma GeneratedAppend<C>(next: C -> seq<C>, xs: seq<C>, x: C)
    ensures Generated(next, xs + [x]) == Generated(next, xs) + |next(x)|
  {
    assert (xs + [x])[..|xs|] == xs;
  }

  /**
   * The predecessor links, together with the depth of every discovered
   * configuration: each configuration other than `start` points to the
   * configuration it was discovered from, which is one level closer to
   * `start` and lists it among its neighbours.
   */
  ghost predicate Linked<C>(next: C -> seq<C>, start: C, pred: map<C, Option<C>>, depth: map<C, nat>)
  {
    && pred.Keys == depth.Keys
    && start in pred && pred[start] == None && depth[start] == 0
    && forall k {:trigger pred[k]} :: k in pred && k != start ==>
         && pred[k].Some?
         && pred[k].value in pred
         && depth[k] == depth[pred[k].value] + 1
         && k in next(pred[k].value)
  }

  /** `x` is no goal and all its neighbours are discovered, at most one level below it. */
  ghost predicate Expanded<C>(next: C -> seq<C>, isGoal: C -> bool, depth: map<C, nat>, x: C)
    requires x in depth
  {
    && !isGoal(x)
    && forall i :: 0 <= i < |next(x)| ==> next(x)[i] in depth && depth[next(x)[i]] <= depth[x] + 1
  }

  /**
   * When every discovered configuration shallower than `bound` is expanded,
   * each element of a walk from `start` within `bound` steps has been
   * discovered no deeper than its position in the walk.
   */
  lemma {:induction false} WalkStaysDiscovered<C>(
    next: C -> seq<C>, isGoal: C -> bool, depth: map<C, nat>, bound: nat, w: seq<C>, i: nat)
    requires IsWalk(next, w) && |w| > 0 && w[0] in depth && depth[w[0]] == 0
    requires forall x :: x in depth && depth[x] < bound ==> Expanded(next, isGoal, depth, x)
    requires i < |w| && i <= bound
    ensures w[i] in depth && depth[w[i]] <= i
  {
    if i > 0 {
      WalkStaysDiscovered(next, isGoal, depth, bound, w, i - 1);
      assert Expanded(next, isGoal, depth, w[i - 1]);
      var k :| 0 <= k < |next(w[i - 1])| && next(w[i - 1])[k] == w[i];
    }
  }

  /**
   * Breadth-first optimality: when every discovered configuration shallower
   * than `bound` has been expanded (and so is no goal), no solution from
   * `start` has fewer than `bound` moves.
   */
  lemma NoShorterSolution<C>(
    next: C -> seq<C>, isGoal: C -> bool, start: C, depth: map<C, nat>, bound: nat, w: seq<C>)
    requires start in depth && depth[start] == 0
    requires forall x :: x in depth && depth[x] < bound ==> Expanded(next, isGoal, depth, x)
    requires IsSolution(next, isGoal, start, w)
    ensures bound <= |w| - 1
  {
    if |w| - 1 < bound {
      WalkStaysDiscovered(next, isGoal, depth, bound, w, |w| - 1);
    }
  }

  /** Every solution from `start` lists at least `n` configurations. */
  ghost predicate NoneShorter<C(!new)>(next: C -> seq<C>, isGoal: C -> bool, start: C, n: nat)
  {
    forall w :: IsSolution(next, isGoal, start, w) ==> n <= |w|
  }

  /** No walk from `start` ends in a goal. */
  ghost predicate Unsolvable<C(!new)>(next: C -> seq<C>, isGoal: C -> bool, start: C)
  {
    forall w :: IsWalk(next, w) && |w| > 0 && w[0] == start ==> !isGoal(w[|w| - 1])
  }

  /**
   * The discovery bookkeeping: consistent predecessor links inside the
   * universe, and `order` listing every discovered configuration exactly
   * once, `index` giving each one's position in it.
   */
  ghost predicate Discovered<C>(next: C -> seq<C>, start: C, universe: set<C>,
                                pred: map<C, Option<C>>, depth: map<C, nat>, index: map<C, nat>, order: seq<C>)
  {
    && Linked(next, start, pred, depth)
    && pred.Keys <= universe
    && index.Keys == pred.Keys
    && (forall x :: x in index ==> index[x] < |order| && order[index[x]] == x)
    && (forall i :: 0 <= i < |order| ==> order[i] in index && index[order[i]] == i)
    && |pred| == |order|
  }

  /** The queue is ordered by depth and spans at most two consecutive levels. */
  ghost predicate Layered<C>(depth: map<C, nat>, queue: seq<C>)
  {
    && (forall i :: 0 <= i < |queue| ==> queue[i] in depth)
    && (forall i, j :: 0 <= i <= j < |queue| ==> depth[queue[i]] <= depth[queue[j]])
    && (forall i :: 0 <= i < |queue| ==> depth[queue[i]] <= depth[queue[0]] + 1)
  }

  /**
   * The invariant of the search loop: the discovery bookkeeping; first in,
   * first out (`order` is the expanded configurations followed by the queue);
   * every expanded configuration expanded; and the queue layered, with
   * nothing expanded below its head.
   */
  ghost predicate Searching<C>(next: C -> seq<C>, isGoal: C -> bool, start: C, universe: set<C>,
                               pred: map<C, Option<C>>, depth: map<C, nat>, index: map<C, nat>,
                               order: seq<C>, expanded: seq<C>, queue: seq<C>)
  {
    && Discovered(next, start, universe, pred, depth, index, order)
    && |order| > 0 && order[0] == start
    && order == expanded + queue
    && (forall i :: 0 <= i < |expanded| ==> expanded[i] in depth && Expanded(next, isGoal, depth, expanded[i]))
    && Layered(depth, queue)
    && (|queue| > 0 ==> forall i :: 0 <= i < |expanded| ==> depth[expanded[i]] <= depth[queue[0]])
  }

  /** The old entries of the three maps are kept, and the new maps share their keys. */
  ghost predicate Kept<C>(pred: map<C, Option<C>>, depth: map<C, nat>, index: map<C, nat>,
                          pred': map<C, Option<C>>, depth': map<C, nat>, index': map<C, nat>)
  {
    && pred'.Keys == depth'.Keys && index'.Keys == pred'.Keys
    && (forall x :: x in pred ==> x in pred' && pred'[x] == pred[x])
    && (forall x :: x in depth ==> x in depth' && depth'[x] == depth[x])
    && (forall x :: x in index ==> x in index' && index'[x] == index[x])
  }

  /**
   * The keys of `index'` missing from `pred` are exactly the elements of
   * `added`, and `index'` places them, in order, after the first `n` positions.
   */
  ghost predicate Indexed<C>(n: nat, pred: map<C, Option<C>>, index': map<C, nat>, added: seq<C>)
  {
    && (forall x :: x in index' && x !in pred ==> n <= index'[x] < n + |added| && added[index'[x] - n] == x)
    && (forall i :: 0 <= i < |added| ==> added[i] !in pred && added[i] in index' && index'[added[i]] == n + i)
  }

  /** Every element of `added` is a neighbour of `current`, linked to it and at depth `d`. */
  ghost predicate LinkedTo<C>(next: C -> seq<C>, current: C, d: nat,
                              pred': map<C, Option<C>>, depth': map<C, nat>, added: seq<C>)
  {
    forall i :: 0 <= i < |added| ==>
      && added[i] in pred' && pred'[added[i]] == Some(current)
      && added[i] in depth' && depth'[added[i]] == d
      && added[i] in next(current)
  }

  lemma KeptStep<C>(pred: map<C, Option<C>>, depth: map<C, nat>, index: map<C, nat>,
                    pred': map<C, Option<C>>, depth': map<C, nat>, index': map<C, nat>,
                    y: C, p: Option<C>, d: nat, k: nat)
    requires y !in pred' && Kept(pred, depth, index, pred', depth', index')
    ensures Kept(pred, depth, index, pred'[y := p], depth'[y := d], index'[y := k])
  {
  }

  lemma IndexedStep<C>(n: nat, pred: map<C, Option<C>>, index': map<C, nat>, added: seq<C>, y: C)
    requires y !in pred && y !in index' && Indexed(n, pred, index', added)
    ensures Indexed(n, pred, index'[y := n + |added|], added + [y])
  {
    var a, x := added + [y], index'[y := n + |added|];
    forall z | z in x && z !in pred
      ensures n <= x[z] < n + |a| && a[x[z] - n] == z
    {
      if z != y {
        assert a[x[z] - n] == added[x[z] - n];
      }
    }
    forall i | 0 <= i < |a|
      ensures a[i] !in pred && a[i] in x && x[a[i]] == n + i
    {
      if i < |added| {
        assert a[i] == added[i];
      }
    }
  }

  lemma LinkedToStep<C>(next: C -> seq<C>, current: C, d: nat,
                        pred': map<C, Option<C>>, depth': map<C, nat>, added: seq<C>, y: C)
    requires y in next(current) && LinkedTo(next, current, d, pred', depth', added)
    ensures LinkedTo(next, current, d, pred'[y := Some(current)], depth'[y := d], added + [y])
  {
    var a := added + [y];
    forall i | 0 <= i < |a|
      ensures a[i] in next(current)
    {
      if i < |added| {
        assert a[i] == added[i];
      }
    }
  }

  lemma Associative<C>(a: seq<C>, b: seq<C>, c: seq<C>)
    ensures (a + b) + c == a + (b + c)
  {
  }

  lemma HeadTail<C>(s: seq<C>)
    requires |s| > 0
    ensures s == [s[0]] + s[1..]
  {
  }

  ghost function Elements<C>(s: seq<C>): (r: set<C>)
    ensures forall x :: x in r ==> x in s
    ensures forall i :: 0 <= i < |s| ==> s[i] in r
  {
    set x | x in s
  }

  lemma {:induction false} DistinctCard<C>(s: seq<C>)
    requires Distinct(s)
    ensures |Elements(s)| == |s|
  {
    if s != [] {
      var t := s[..|s| - 1];
      assert Distinct(t);
      DistinctCard(t);
      assert Elements(s) == Elements(t) + {s[|s| - 1]};
      assert s[|s| - 1] !in t;
    }
  }

  lemma DisjointSplit<C>(a: set<C>, b: set<C>, s: set<C>)
    requires a == b + s && b !! s
    ensures |a| == |b| + |s|
  {
  }

  /** A sequence with a position map has no repetitions. */
  lemma IndexedDistinct<C>(s: seq<C>, index: map<C, nat>)
    requires forall i :: 0 <= i < |s| ==> s[i] in index && index[s[i]] == i
    ensures Distinct(s)
  {
  }

  /**
   * Recording the distinct new configurations `added`, all inside the
   * universe, grows the set of discovered configurations and shrinks the
   * undiscovered part of the universe by as many.
   */
  lemma Shrink<C>(universe: set<C>, keys: set<C>, keys': set<C>, added: seq<C>)
    requires keys <= keys'
    requires forall x :: x in keys' ==> x in keys || x in added
    requires forall i :: 0 <= i < |added| ==> added[i] !in keys && added[i] in keys' && added[i] in universe
    requires Distinct(added)
    ensures |keys'| == |keys| + |added|
    ensures |universe - keys'| == |universe - keys| - |added|
  {
    var s := Elements(added);
    DistinctCard(added);
    assert keys' == keys + s;
    DisjointSplit(keys', keys, s);
    assert universe - keys == (universe - keys') + s;
    DisjointSplit(universe - keys, universe - keys', s);
  }

  /** Appending the configurations found by one expansion keeps the discovery bookkeeping consistent. */
  lemma FreshDiscovered<C>(next: C -> seq<C>, start: C, universe: set<C>,
                           pred: map<C, Option<C>>, depth: map<C, nat>, index: map<C, nat>, order: seq<C>,
                           current: C,
                           pred': map<C, Option<C>>, depth': map<C, nat>, index': map<C, nat>, added: seq<C>)
    requires Discovered(next, start, universe, pred, depth, index, order)
    requires current in pred
    requires Kept(pred, depth, index, pred', depth', index') && Indexed(|order|, pred, index', added)
    requires LinkedTo(next, current, depth[current] + 1, pred', depth', added)
    requires forall i :: 0 <= i < |added| ==> added[i] in universe
    ensures Discovered(next, start, universe, pred', depth', index', order + added)
    ensures |universe - pred'.Keys| == |universe - pred.Keys| - |added|
  {
    var o := order + added;
    var n := |order|;
    assert Linked(next, start, pred', depth') by {
      forall k | k in pred' && k != start
        ensures pred'[k].Some? && pred'[k].value in pred'
        ensures depth'[k] == depth'[pred'[k].value] + 1 && k in next(pred'[k].value)
      {
        if k !in pred {
          assert added[index'[k] - n] == k;
        }
      }
    }
    forall x | x in index'
      ensures index'[x] < |o| && o[index'[x]] == x
    {
      if x !in pred {
        assert o[index'[x]] == added[index'[x] - n];
      }
    }
    forall i | 0 <= i < |o|
      ensures o[i] in index' && index'[o[i]] == i
    {
      if i >= n {
        assert o[i] == added[i - n];
      }
    }
    forall x | x in pred'
      ensures x in pred || x in added
    {
      if x !in pred {
        assert added[index'[x] - n] == x;
      }
    }
    assert Distinct(added) by {
      forall i, j | 0 <= i < j < |added|
        ensures added[i] != added[j]
      {
        assert index'[added[i]] != index'[added[j]];
      }
    }
    Shrink(universe, pred.Keys, pred'.Keys, added);
  }

  /** Dequeuing `current` and enqueuing its new neighbours one level deeper keeps the queue layered. */
  lemma LayeredAdvance<C>(depth: map<C, nat>, depth': map<C, nat>, expanded: seq<C>, current: C, queue: seq<C>, added: seq<C>)
    requires current in depth && Layered(depth, [current] + queue)
    requires forall i :: 0 <= i < |expanded| ==> expanded[i] in depth && depth[expanded[i]] <= depth[current]
    requires forall x :: x in depth ==> x in depth' && depth'[x] == depth[x]
    requires forall i :: 0 <= i < |added| ==> added[i] in depth' && depth'[added[i]] == depth[current] + 1
    ensures Layered(depth', queue + added)
    ensures |queue + added| > 0 ==>
      forall i :: 0 <= i < |expanded + [current]| ==>
        depth'[(expanded + [current])[i]] <= depth'[(queue + added)[0]]
  {
    var q := queue + added;
    var d := depth[current];
    forall i | 0 <= i < |queue|
      ensures queue[i] in depth && d <= depth[queue[i]] <= d + 1
    {
      assert ([current] + queue)[i + 1] == queue[i];
    }
    forall i | 0 <= i < |q|
      ensures q[i] in depth' && d <= depth'[q[i]] <= d + 1
      ensures i < |queue| ==> depth'[q[i]] == depth[queue[i]]
      ensures i >= |queue| ==> depth'[q[i]] == d + 1
    {
      if i >= |queue| {
        assert q[i] == added[i - |queue|];
      }
    }
    forall i, j | 0 <= i <= j < |q|
      ensures depth'[q[i]] <= depth'[q[j]]
    {
      if j < |queue| {
        assert ([current] + queue)[i + 1] == queue[i];
        assert ([current] + queue)[j + 1] == queue[j];
      }
    }
    forall i | 0 <= i < |expanded + [current]|
      ensures (expanded + [current])[i] in depth && depth[(expanded + [current])[i]] <= d
    {
      if i < |expanded| {
        assert (expanded + [current])[i] == expanded[i];
      }
    }
  }

  /**
   * Just after `current` is dequeued, every discovered configuration lies at
   * most one level below it.
   */
  lemma DepthBound<C>(next: C -> seq<C>, isGoal: C -> bool, start: C, universe: set<C>,
                      pred: map<C, Option<C>>, depth: map<C, nat>, index: map<C, nat>, order: seq<C>,
                      expanded: seq<C>, current: C, queue: seq<C>)
    requires Searching(next, isGoal, start, universe, pred, depth, index, order, expanded, [current] + queue)
    ensures current in depth
    ensures forall i :: 0 <= i < |expanded| ==> expanded[i] in depth && depth[expanded[i]] <= depth[current]
    ensures forall x :: x in depth ==> depth[x] <= depth[current] + 1
  {
    var q := [current] + queue;
    assert q[0] == current;
    forall x | x in depth
      ensures depth[x] <= depth[current] + 1
    {
      var i := index[x];
      if i >= |expanded| {
        assert order[i] == q[i - |expanded|];
      } else {
        assert order[i] == expanded[i];
      }
    }
  }

  /** The head of the queue is discovered, inside the universe. */
  lemma HeadDiscovered<C>(next: C -> seq<C>, isGoal: C -> bool, start: C, universe: set<C>,
                          pred: map<C, Option<C>>, depth: map<C, nat>, index: map<C, nat>, order: seq<C>,
                          expanded: seq<C>, queue: seq<C>)
    requires Searching(next, isGoal, start, universe, pred, depth, index, order, expanded, queue)
    requires |queue| > 0
    ensures queue[0] in pred && queue[0] in universe
  {
    assert order[|expanded|] == queue[0];
  }

  /** One round of the search loop keeps its invariant and shrinks its measure. */
  lemma Step<C>(next: C -> seq<C>, isGoal: C -> bool, start: C, universe: set<C>,
                pred: map<C, Option<C>>, depth: map<C, nat>, index: map<C, nat>, order: seq<C>, expanded: seq<C>,
                current: C, queue: seq<C>,
                pred': map<C, Option<C>>, depth': map<C, nat>, index': map<C, nat>, added: seq<C>)
    requires Searching(next, isGoal, start, universe, pred, depth, index, order, expanded, [current] + queue)
    requires !isGoal(current) && current in depth
    requires Kept(pred, depth, index, pred', depth', index') && Indexed(|order|, pred, index', added)
    requires LinkedTo(next, current, depth[current] + 1, pred', depth', added)
    requires forall i :: 0 <= i < |next(current)| ==> next(current)[i] in pred'
    requires forall i :: 0 <= i < |added| ==> added[i] in universe
    ensures Searching(next, isGoal, start, universe, pred', depth', index', order + added,
                      expanded + [current], queue + added)
    ensures 2 * |universe - pred'.Keys| + |queue + added| < 2 * |universe - pred.Keys| + |[current] + queue|
  {
    var e := expanded + [current];
    DepthBound(next, isGoal, start, universe, pred, depth, index, order, expanded, current, queue);
    Associative(expanded, [current], queue);
    Associative(e, queue, added);
    FreshDiscovered(next, start, universe, pred, depth, index, order, current, pred', depth', index', added);
    forall i | 0 <= i < |e|
      ensures e[i] in depth' && Expanded(next, isGoal, depth', e[i])
    {
      if i < |expanded| {
        assert e[i] == expanded[i];
        assert Expanded(next, isGoal, depth, expanded[i]);
      } else {
        forall k | 0 <= k < |next(current)|
          ensures next(current)[k] in depth' && depth'[next(current)[k]] <= depth'[current] + 1
        {
          var y := next(current)[k];
          if y !in pred {
            assert added[index'[y] - |order|] == y;
          }
        }
      }
    }
    LayeredAdvance(depth, depth', expanded, current, queue, added);
  }

  /**
   * When the head of the queue is dequeued, every discovered configuration
   * shallower than it has already been expanded, so no solution is shorter
   * than its depth.
   */
  lemma Frontier<C(!new)>(next: C -> seq<C>, isGoal: C -> bool, start: C, universe: set<C>,
                    pred: map<C, Option<C>>, depth: map<C, nat>, index: map<C, nat>, order: seq<C>,
                    expanded: seq<C>, queue: seq<C>)
    requires Searching(next, isGoal, start, universe, pred, depth, index, order, expanded, queue)
    requires |queue| > 0
    ensures queue[0] in depth
    ensures NoneShorter(next, isGoal, start, depth[queue[0]] + 1)
  {
    forall x | x in depth && depth[x] < depth[queue[0]]
      ensures Expanded(next, isGoal, depth, x)
    {
      var i := index[x];
      if i < |expanded| {
        assert order[i] == expanded[i];
      }
    }
    forall w | IsSolution(next, isGoal, start, w)
      ensures depth[queue[0]] <= |w| - 1
    {
      NoShorterSolution(next, isGoal, start, depth, depth[queue[0]], w);
    }
  }

  /**
   * Once the queue is empty, every discovered configuration has been
   * expanded, and so no walk from `start` reaches a goal.
   */
  lemma Exhausted<C(!new)>(next: C -> seq<C>, isGoal: C -> bool, start: C, universe: set<C>,
                     pred: map<C, Option<C>>, depth: map<C, nat>, index: map<C, nat>, order: seq<C>,
                     expanded: seq<C>)
    requires Searching(next, isGoal, start, universe, pred, depth, index, order, expanded, [])
    ensures expanded == order
    ensures Unsolvable(next, isGoal, start)
  {
    assert order == expanded;
    forall x | x in depth
      ensures Expanded(next, isGoal, depth, x)
    {
      assert order[index[x]] == x;
    }
    forall w | IsWalk(next, w) && |w| > 0 && w[0] == start
      ensures !isGoal(w[|w| - 1])
    {
      if isGoal(w[|w| - 1]) {
        NoShorterSolution(next, isGoal, start, depth, |w|, w);
      }
    }
  }

  /**
   * A path in which every configuration after the first is recorded with
   * the one before it as predecessor is a walk.
   */
  lemma LinkedPathIsWalk<C>(next: C -> seq<C>, start: C, pred: map<C, Option<C>>, depth: map<C, nat>, path: seq<C>)
    requires Linked(next, start, pred, depth)
    requires forall i :: 0 < i < |path| ==> path[i] in pred && pred[path[i]] == Some(path[i - 1])
    ensures IsWalk(next, path)
  {
    forall m | 0 <= m < |path| - 1
      ensures path[m + 1] in next(path[m])
    {
      assert pred[path[m + 1]] == Some(path[m]);
    }
  }

  /** Entry `k - 1` of the backward chain has entry `k` as its predecessor. */
  ghost predicate ChainLink<C>(pred: map<C, Option<C>>, tmp: map<int, C>, k: int)
  {
    k - 1 in tmp && k in tmp && tmp[k - 1] in pred && pred[tmp[k - 1]] == Some(tmp[k])
  }

  /**
   * Read forwards, the backward chain links each configuration of the path
   * to the one before it in the predecessor map.
   */
  lemma ReversedChainIsLinked<C>(pred: map<C, Option<C>>, tmp: map<int, C>, num: int, solution: C, path: seq<C>)
    requires 1 <= num && forall k :: 1 <= k < num ==> k in tmp
    requires forall k :: 1 < k < num ==> ChainLink(pred, tmp, k)
    requires num > 1 ==> solution in pred && pred[solution] == Some(tmp[1])
    requires |path| == num && path[num - 1] == solution
    requires forall m :: 0 <= m < num - 1 ==> path[m] == tmp[num - 1 - m]
    ensures forall i :: 0 < i < |path| ==> path[i] in pred && pred[path[i]] == Some(path[i - 1])
  {
    forall i | 0 < i < |path|
      ensures path[i] in pred && pred[path[i]] == Some(path[i - 1])
    {
      assert path[i - 1] == tmp[num - i];
      if i < num - 1 {
        assert path[i] == tmp[num - 1 - i];
        assert ChainLink(pred, tmp, num - i);
      }
    }
  }

  /** What the search leaves behind, read off its invariant for the result of `Solve`. */
  lemma Bookkeeping<C>(next: C -> seq<C>, isGoal: C -> bool, start: C, universe: set<C>,
                       pred: map<C, Option<C>>, depth: map<C, nat>, index: map<C, nat>,
                       order: seq<C>, expanded: seq<C>, pending: seq<C>)
    requires Searching(next, isGoal, start, universe, pred, depth, index, order, expanded, pending)
    ensures Distinct(order) && |pred| == |order|
    ensures forall x :: x in pred ==> x in order
    ensures forall i :: 0 <= i < |order| ==> order[i] in pred
    ensures pred[start] == None
    ensures forall k :: k in pred && k != start ==> pred[k].Some? && k in next(pred[k].value)
    ensures |expanded| <= |order| && expanded == order[..|expanded|]
    ensures forall i :: 0 <= i < |expanded| ==>
      !isGoal(expanded[i]) && forall k :: 0 <= k < |next(expanded[i])| ==> next(expanded[i])[k] in pred
  {
    IndexedDistinct(order, index);
    forall x | x in pred
      ensures x in order
    {
      assert order[index[x]] == x;
    }
    forall i | 0 <= i < |expanded|
      ensures !isGoal(expanded[i]) && forall k :: 0 <= k < |next(expanded[i])| ==> next(expanded[i])[k] in pred
    {
      assert Expanded(next, isGoal, depth, expanded[i]);
    }
  }

  /**
   * What the search loop leaves behind for `Solve`: the predecessor links and
   * the discovery order, every expanded configuration a non-goal whose
   * neighbours are all discovered, and either a dequeued goal `found` that
   * no solution beats, or an exhausted queue and no solution at all.
   */
  ghost predicate Outcome<C(!new)>(next: C -> seq<C>, isGoal: C -> bool, start: C,
                                  pred: map<C, Option<C>>, depth: map<C, nat>, order: seq<C>, expanded: seq<C>,
                                  goalFound: bool, found: C, queue: seq<C>)
  {
    && Linked(next, start, pred, depth)
    && Distinct(order) && |order| > 0 && order[0] == start && |pred| == |order|
    && (forall x :: x in pred ==> x in order)
    && (forall i :: 0 <= i < |order| ==> order[i] in pred)
    && |expanded| <= |order| && expanded == order[..|expanded|]
    && (forall i :: 0 <= i < |expanded| ==>
          !isGoal(expanded[i]) && forall k :: 0 <= k < |next(expanded[i])| ==> next(expanded[i])[k] in pred)
    && (goalFound ==> found in depth && isGoal(found) && NoneShorter(next, isGoal, start, depth[found] + 1))
    && (goalFound ==> |expanded| < |order| && order[|expanded|] == found)
    && (!goalFound ==> |queue| == 0 && found == start && expanded == order && Unsolvable(next, isGoal, start))
    && (isGoal(start) ==> goalFound && found == start)
  }

  /** The search loop's invariant, at either of its exits, gives its outcome. */
  lemma Finish<C(!new)>(next: C -> seq<C>, isGoal: C -> bool, start: C, universe: set<C>,
                        pred: map<C, Option<C>>, depth: map<C, nat>, index: map<C, nat>,
                        order: seq<C>, expanded: seq<C>, goalFound: bool, found: C, queue: seq<C>, pending: seq<C>)
    requires Searching(next, isGoal, start, universe, pred, depth, index, order, expanded, pending)
    requires pending == if goalFound then [found] + queue else queue
    requires goalFound ==> isGoal(found)
    requires !goalFound ==> |queue| == 0 && found == start
    requires isGoal(start) ==> expanded == []
    ensures Outcome(next, isGoal, start, pred, depth, order, expanded, goalFound, found, queue)
  {
    Bookkeeping(next, isGoal, start, universe, pred, depth, index, order, expanded, pending);
    if goalFound {
      Frontier(next, isGoal, start, universe, pred, depth, index, order, expanded, pending);
      assert order[|expanded|] == pending[0];
    } else {
      Exhausted(next, isGoal, start, universe, pred, depth, index, order, expanded);
    }
    if isGoal(start) {
      assert order[0] == pending[0];
    }
  }

  lemma InUniverse<C>(next: C -> seq<C>, universe: set<C>, current: C, n: C)
    requires Closed(next, universe) && current in universe && n in next(current)
    ensures n in universe
  {
    var i :| 0 <= i < |next(current)| && next(current)[i] == n;
  }

  class Solver<C(==,!new)> {
    /** Number of configurations generated, duplicates included; never reset. */
    var totalConfigs: int
    /** Discovered configurations, each mapped to the one it was discovered from. */
    var predecessorMap: map<C, Option<C>>

    constructor ()
      ensures totalConfigs == 0 && predecessorMap == map[]
    {
      totalConfigs := 0;
      predecessorMap := map[];
    }

    function TotalConfigs(): int
      reads this
    {
      totalConfigs
    }

    function UniqueConfigs(): nat
      reads this
    {
      |predecessorMap|
    }

    /**
     * Breadth-first search from `start`. The result is `None` when the queue
     * empties without a goal ever being dequeued, and otherwise the path from
     * `start` to the first goal dequeued. `universe` is a finite set of
     * configurations closed under `next`: it bounds the search.
     * The ghost results describe the run: `order` lists the configurations in
     * the order they were discovered (and enqueued), `expanded` those that were
     * dequeued and expanded, in order.
     */
    method Solve(start: C, next: C -> seq<C>, isGoal: C -> bool, ghost universe: set<C>)
      returns (solution: Option<seq<C>>, ghost order: seq<C>, ghost expanded: seq<C>)
      requires start in universe && Closed(next, universe)
      modifies this
      // counters: one for the start, one per generated neighbour, duplicates included
      ensures TotalConfigs() == old(TotalConfigs()) + 1 + Generated(next, expanded)
      ensures UniqueConfigs() <= TotalConfigs() - old(TotalConfigs())
      // the predecessor map holds exactly the discovered configurations, each once
      ensures Distinct(order) && |order| > 0 && order[0] == start && UniqueConfigs() == |order|
      ensures forall x :: x in predecessorMap ==> x in order
      ensures forall i :: 0 <= i < |order| ==> order[i] in predecessorMap
      ensures predecessorMap[start] == None
      ensures forall k :: k in predecessorMap && k != start ==>
                predecessorMap[k].Some? && k in next(predecessorMap[k].value)
      // first in, first out: configurations are expanded in discovery order
      ensures |expanded| <= |order| && expanded == order[..|expanded|]
      ensures forall i :: 0 <= i < |expanded| ==>
                !isGoal(expanded[i]) &&
                forall k :: 0 <= k < |next(expanded[i])| ==> next(expanded[i])[k] in predecessorMap
      // the outcome
      ensures solution.Some? ==> IsSolution(next, isGoal, start, solution.value)
      ensures solution.Some? ==> NoneShorter(next, isGoal, start, |solution.value|)
      ensures solution.None? ==> expanded == order
      ensures solution.None? ==> Unsolvable(next, isGoal, start)
      ensures isGoal(start) ==> solution == Some([start])
      // the path is the predecessor chain of the first goal dequeued
      ensures solution.Some? ==> |expanded| < |order| && solution.value[|solution.value| - 1] == order[|expanded|]
      ensures solution.Some? ==> forall i :: 0 < i < |solution.value| ==>
                solution.value[i] in predecessorMap && predecessorMap[solution.value[i]] == Some(solution.value[i - 1])
    {
      var pred, queue, found;
      ghost var depth, goalFound;
      pred, queue, found, depth, order, expanded, goalFound := Search(start, next, isGoal, universe);
      // The Java code stores the fresh map in the field before the search and
      // fills it through a local alias; here the field is assigned once the search stops.
      predecessorMap := pred;
      if |queue| == 0 {
        if isGoal(found) {
          var path := Backtrack(found, next, start, depth);
          solution := Some(path);
        } else {
          solution := None;
        }
      } else {
        var path := Backtrack(found, next, start, depth);
        solution := Some(path);
      }
      if isGoal(start) {
        assert solution.value == [start];
      }
    }

    /**
     * The search loop of `Solve`: dequeues configurations until a goal is
     * dequeued (`goalFound`, and `found` is that goal) or the queue runs empty
     * (`found` stays `start`).
     */
    method Search(start: C, next: C -> seq<C>, isGoal: C -> bool, ghost universe: set<C>)
      returns (pred: map<C, Option<C>>, queue: seq<C>, found: C,
               ghost depth: map<C, nat>, ghost order: seq<C>, ghost expanded: seq<C>, ghost goalFound: bool)
      requires start in universe && Closed(next, universe)
      modifies this`totalConfigs
      ensures totalConfigs == old(totalConfigs) + 1 + Generated(next, expanded)
      ensures |order| <= totalConfigs - old(totalConfigs)
      ensures Outcome(next, isGoal, start, pred, depth, order, expanded, goalFound, found, queue)
    {
      ghost var total0 := totalConfigs;
      pred := map[start := None];
      totalConfigs := totalConfigs + 1;
      queue := [start];
      found := start;
      ghost var index := map[start := 0];
      depth := map[start := 0];
      order, expanded := [start], [];
      goalFound := false;

      while |queue| > 0
        invariant Searching(next, isGoal, start, universe, pred, depth, index, order, expanded, queue)
        invariant totalConfigs == total0 + 1 + Generated(next, expanded)
        invariant |order| <= totalConfigs - total0
        invariant found == start && !goalFound
        decreases 2 * |universe - pred.Keys| + |queue|
      {
        ghost var whole := queue;
        HeadTail(queue);
        var current := queue[0];
        queue := queue[1..];
        if !isGoal(current) {
          GeneratedAppend(next, expanded, current);
          pred, queue, depth, index, order, expanded :=
            Advance(current, next, isGoal, start, universe, pred, queue, depth, index, order, expanded);
        } else {
          found := current;
          goalFound := true;
          Finish(next, isGoal, start, universe, pred, depth, index, order, expanded, goalFound, found, queue, whole);
          return;
        }
      }
      Finish(next, isGoal, start, universe, pred, depth, index, order, expanded, goalFound, found, queue, queue);
    }

    /**
     * One round of the search loop for a dequeued configuration `current`
     * that is not a goal: it is expanded, and the loop invariant carries
     * over to the grown predecessor map and queue.
     */
    method Advance(current: C, next: C -> seq<C>, isGoal: C -> bool, start: C, ghost universe: set<C>,
                   pred: map<C, Option<C>>, queue: seq<C>, ghost depth: map<C, nat>, ghost index: map<C, nat>,
                   ghost order: seq<C>, ghost expanded: seq<C>)
      returns (pred': map<C, Option<C>>, queue': seq<C>, ghost depth': map<C, nat>, ghost index': map<C, nat>,
               ghost order': seq<C>, ghost expanded': seq<C>)
      requires Closed(next, universe) && !isGoal(current)
      requires Searching(next, isGoal, start, universe, pred, depth, index, order, expanded, [current] + queue)
      modifies this`totalConfigs
      ensures Searching(next, isGoal, start, universe, pred', depth', index', order', expanded', queue')
      ensures expanded' == expanded + [current]
      ensures totalConfigs == old(totalConfigs) + |next(current)|
      ensures |order'| <= |order| + |next(current)|
      ensures 2 * |universe - pred'.Keys| + |queue'| < 2 * |universe - pred.Keys| + |[current] + queue|
    {
      ghost var added;
      HeadDiscovered(next, isGoal, start, universe, pred, depth, index, order, expanded, [current] + queue);
      pred', queue', depth', index', added := Expand(current, next, universe, |order|, pred, queue, depth, index);
      Step(next, isGoal, start, universe, pred, depth, index, order, expanded, current, queue,
           pred', depth', index', added);
      order', expanded' := order + added, expanded + [current];
    }

    /**
     * The body of the search loop for a dequeued configuration that is not a
     * goal: `Visit` runs on every neighbour in turn. The ghost result `added`
     * lists the enqueued neighbours in order; `n` is the number of
     * configurations discovered before.
     */
    method Expand(current: C, next: C -> seq<C>, ghost universe: set<C>, ghost n: nat,
                  pred: map<C, Option<C>>, queue: seq<C>, ghost depth: map<C, nat>, ghost index: map<C, nat>)
      returns (pred': map<C, Option<C>>, queue': seq<C>, ghost depth': map<C, nat>, ghost index': map<C, nat>,
               ghost added: seq<C>)
      requires Closed(next, universe) && pred.Keys <= universe
      requires pred.Keys == depth.Keys && index.Keys == pred.Keys && current in pred
      modifies this`totalConfigs
      ensures totalConfigs == old(totalConfigs) + |next(current)|
      ensures Kept(pred, depth, index, pred', depth', index') && Indexed(n, pred, index', added)
      ensures LinkedTo(next, current, depth[current] + 1, pred', depth', added)
      ensures queue' == queue + added
      ensures forall i :: 0 <= i < |next(current)| ==> next(current)[i] in pred'
      ensures |added| <= |next(current)|
      ensures forall i :: 0 <= i < |added| ==> added[i] in universe
    {
      pred', queue', depth', index' := pred, queue, depth, index;
      added := [];
      var neighbors := next(current);
      for j := 0 to |neighbors|
        invariant Kept(pred, depth, index, pred', depth', index') && Indexed(n, pred, index', added)
        invariant LinkedTo(next, current, depth[current] + 1, pred', depth', added)
        invariant queue' == queue + added
        invariant forall i :: 0 <= i < j ==> neighbors[i] in pred'
        invariant totalConfigs == old(totalConfigs) + j
        invariant |added| <= j
        invariant forall i :: 0 <= i < |added| ==> added[i] in universe
      {
        InUniverse(next, universe, current, neighbors[j]);
        Associative(queue, added, [neighbors[j]]);
        ghost var before := pred';
        pred', queue', depth', index', added :=
          Visit(current, neighbors[j], next, universe, n, pred, depth, index, pred', queue', depth', index', added);
        forall i | 0 <= i < j + 1
          ensures neighbors[i] in pred'
        {
          if i < j {
            assert neighbors[i] in before;
          }
        }
      }
    }

    /**
     * The action run on each neighbour: it bumps the total count and, when
     * `neighbor` is not yet a key of the predecessor map, records `current`
     * as its predecessor and enqueues it.
     */
    method Visit(current: C, neighbor: C, ghost next: C -> seq<C>, ghost universe: set<C>, ghost n: nat,
                 ghost pred: map<C, Option<C>>, ghost depth: map<C, nat>, ghost index: map<C, nat>,
                 pred': map<C, Option<C>>, queue': seq<C>, ghost depth': map<C, nat>, ghost index': map<C, nat>,
                 ghost added: seq<C>)
      returns (pred'': map<C, Option<C>>, queue'': seq<C>, ghost depth'': map<C, nat>, ghost index'': map<C, nat>,
               ghost added': seq<C>)
      requires current in depth && neighbor in next(current) && neighbor in universe
      requires Kept(pred, depth, index, pred', depth', index') && Indexed(n, pred, index', added)
      requires LinkedTo(next, current, depth[current] + 1, pred', depth', added)
      modifies this`totalConfigs
      ensures totalConfigs == old(totalConfigs) + 1
      ensures Kept(pred, depth, index, pred'', depth'', index'') && Indexed(n, pred, index'', added')
      ensures LinkedTo(next, current, depth[current] + 1, pred'', depth'', added')
      ensures neighbor in pred'' && forall x :: x in pred' ==> x in pred''
      ensures neighbor in pred' ==> added' == added && queue'' == queue'
      ensures neighbor !in pred' ==> added' == added + [neighbor] && queue'' == queue' + [neighbor]
    {
      totalConfigs := totalConfigs + 1;
      pred'', queue'', depth'', index'', added' := pred', queue', depth', index', added;
      if neighbor !in pred' {
        KeptStep(pred, depth, index, pred', depth', index', neighbor, Some(current), depth[current] + 1, n + |added|);
        IndexedStep(n, pred, index', added, neighbor);
        LinkedToStep(next, current, depth[current] + 1, pred', depth', added, neighbor);
        queue'' := queue' + [neighbor];
        pred'' := pred'[neighbor := Some(current)];
        depth'' := depth'[neighbor := depth[current] + 1];
        index'' := index'[neighbor := n + |added|];
        added' := added + [neighbor];
      }
    }

    /**
     * Walks the predecessor links back from `solution` to `start`, numbering
     * the configurations met on the way 1, 2, ... in a temporary map, then
     * reads them out in reverse and appends `solution`.
     */
    method Backtrack(solution: C, ghost next: C -> seq<C>, ghost start: C, ghost depth: map<C, nat>)
      returns (path: seq<C>)
      requires Linked(next, start, predecessorMap, depth) && solution in predecessorMap
      ensures |path| == depth[solution] + 1
      ensures path[0] == start && path[|path| - 1] == solution
      ensures IsWalk(next, path)
      ensures forall i :: 0 < i < |path| ==> path[i] in predecessorMap && predecessorMap[path[i]] == Some(path[i - 1])
    {
      var tmp, num := Predecessors(solution, next, start, depth);
      path := [];
      for i := num downto 1
        invariant |path| == num - i
        invariant forall m :: 0 <= m < |path| ==> path[m] == tmp[num - 1 - m]
      {
        path := path + [tmp[i]];
      }
      path := path + [solution];
      ReversedChainIsLinked(predecessorMap, tmp, num, solution, path);
      LinkedPathIsWalk(next, start, predecessorMap, depth, path);
    }

    /**
     * The first half of the path reconstruction: `tmp[1]` is the predecessor
     * of `solution`, `tmp[2]` that of `tmp[1]`, and so on up to `tmp[num - 1]`,
     * which is `start`.
     */
    method Predecessors(solution: C, ghost next: C -> seq<C>, ghost start: C, ghost depth: map<C, nat>)
      returns (tmp: map<int, C>, num: int)
      requires Linked(next, start, predecessorMap, depth) && solution in predecessorMap
      ensures num == depth[solution] + 1
      ensures forall k :: 1 <= k < num ==> k in tmp
      ensures num > 1 ==> tmp[num - 1] == start
      ensures num > 1 ==> predecessorMap[solution] == Some(tmp[1])
      ensures forall k :: 1 < k < num ==> ChainLink(predecessorMap, tmp, k)
    {
      tmp := map[];
      num := 1;
      var config := predecessorMap[solution];
      ghost var last := solution;
      while config.Some?
        invariant 1 <= num <= depth[solution] + 1
        invariant last in predecessorMap && depth[last] == depth[solution] - (num - 1)
        invariant forall k :: 1 <= k < num ==> k in tmp
        invariant last == if num == 1 then solution else tmp[num - 1]
        invariant config == predecessorMap[last]
        invariant num > 1 ==> predecessorMap[solution] == Some(tmp[1])
        invariant forall k :: 1 < k < num ==> ChainLink(predecessorMap, tmp, k)
        decreases depth[last]
      {
        assert last != start;
        ghost var before := tmp;
        tmp := tmp[num := config.value];
        forall k | 1 < k < num + 1
          ensures ChainLink(predecessorMap, tmp, k)
        {
          if k < num {
            assert ChainLink(predecessorMap, before, k);
          }
        }
        last := config.value;
        config := predecessorMap[config.value];
        num := num + 1;
      }
      assert last == start;
    }
  }
}
