/**
 * The tree of nested repositories that `onsub` walks, and the two visit
 * orders its work list produces: pre-order (depth-first mode) and level
 * order (breadth-first mode), both with the `max-depth` pruning rule.
 */
module SubrepoTree {
  import opened StringOrder

  /**
   * One subrepository as seen from its parent: its path relative to the
   * top-level repository, the URL and revision pinned for it, whether it is
   * a Mercurial subrepository (only those are expanded), and the substate of
   * its pinned revision, keyed by sub-path.
   */
  datatype Sub = Sub(relpath: string, url: string, state: string, isHg: bool, substate: map<string, Sub>)

  /** The top-level repository: its root directory and the substate of `.`. */
  datatype Repo = Repo(root: string, substate: map<string, Sub>)

  /** One entry of the work list: a subrepository and its nesting depth. */
  datatype Item = Item(depth: int, sub: Sub)

  /** The pruning test `depth > maxdepth >= 0` (a Python chained comparison). */
  predicate Pruned(depth: int, maxDepth: int)
  {
    depth > maxDepth && maxDepth >= 0
  }

  /** One work item per listed key of a substate, all at the same depth. */
  function Batch(depth: int, substate: map<string, Sub>, keys: seq<string>): (r: seq<Item>)
    requires forall k :: k in keys ==> k in substate
    ensures |r| == |keys|
    ensures forall i :: 0 <= i < |r| ==> r[i] == Item(depth, substate[keys[i]])
  {
    if keys == [] then [] else [Item(depth, substate[keys[0]])] + Batch(depth, substate, keys[1..])
  }

  /** The items that seed the work list: the root's substate at depth 1, in sorted sub-path order. */
  function Seed(repo: Repo): seq<Item>
  {
    Batch(1, repo.substate, SortedKeys(repo.substate.Keys))
  }

  /** The root's own entries are all at depth 1. */
  lemma SeedDepth(repo: Repo)
    ensures forall x :: x in Seed(repo) ==> x.depth == 1
  {
  }

  /** The items an item expands into: nothing unless it is a Mercurial subrepository. */
  function Children(it: Item): seq<Item>
  {
    if it.sub.isHg then Batch(it.depth + 1, it.sub.substate, SortedKeys(it.sub.substate.Keys)) else []
  }

  // ---------------------------------------------------------------- sizes

  /** Number of nodes the walk can reach from `s`, `s` included. */
  function Size(s: Sub): nat
    decreases s, 1
  {
    1 + (if s.isHg then SizeKeys(s, SortedKeys(s.substate.Keys)) else 0)
  }

  function SizeKeys(parent: Sub, keys: seq<string>): nat
    requires forall k :: k in keys ==> k in parent.substate
    decreases parent, 0, |keys|
  {
    if keys == [] then 0 else Size(parent.substate[keys[0]]) + SizeKeys(parent, keys[1..])
  }

  /** Number of nodes reachable from the items of a work list. */
  function Weight(items: seq<Item>): nat
  {
    if items == [] then 0 else Size(items[0].sub) + Weight(items[1..])
  }

  lemma {:induction false} WeightAppend(a: seq<Item>, b: seq<Item>)
    ensures Weight(a + b) == Weight(a) + Weight(b)
  {
    if a == [] {
      assert a + b == b;
    } else {
      assert (a + b)[0] == a[0] && (a + b)[1..] == a[1..] + b;
      WeightAppend(a[1..], b);
    }
  }

  lemma {:induction false} WeightBatch(d: int, parent: Sub, keys: seq<string>)
    requires forall k :: k in keys ==> k in parent.substate
    ensures Weight(Batch(d, parent.substate, keys)) == SizeKeys(parent, keys)
  {
    if keys != [] {
      WeightBatch(d, parent, keys[1..]);
    }
  }

  /** Expanding an item replaces it by exactly the nodes below it. */
  lemma ChildrenWeight(it: Item)
    ensures Weight(Children(it)) == Size(it.sub) - 1
  {
    if it.sub.isHg {
      HgChildrenWeight(it);
    } else {
      assert Children(it) == [] && Size(it.sub) == 1;
    }
  }

  lemma HgChildrenWeight(it: Item)
    requires it.sub.isHg
    ensures Weight(Children(it)) + 1 == Size(it.sub)
  {
    var keys := SortedKeys(it.sub.substate.Keys);
    WeightBatch(it.depth + 1, it.sub, keys);
  }

  /** A node of a work list is no bigger than the whole list. */
  lemma {:induction false} InWeight(y: Item, items: seq<Item>)
    requires y in items
    ensures Size(y.sub) <= Weight(items)
  {
    if items[0] != y {
      InWeight(y, items[1..]);
    }
  }

  // --------------------------------------------------------- reachability

  /**
   * The items `x` a walk can reach from a work list when nothing is
   * pruned: the items of the list, and whatever is reachable from the
   * children of one of them (a non-Mercurial item has none).
   */
  ghost predicate Reachable(x: Item, items: seq<Item>)
    decreases Weight(items)
  {
    || x in items
    || exists y :: y in items && (InWeight(y, items); ChildrenWeight(y); Reachable(x, Children(y)))
  }

  // ------------------------------------------------------------ pre-order

  /**
   * Pre-order with pruning: a pruned item contributes nothing, not even its
   * descendants; otherwise the item, then the pre-orders of its children in
   * ascending sub-path order.
   */
  function Pre(it: Item, maxDepth: int): seq<Item>
    decreases Size(it.sub), 0
  {
    if Pruned(it.depth, maxDepth) then []
    else
      ChildrenWeight(it);
      [it] + PreForest(Children(it), maxDepth)
  }

  /** The pre-orders of a list of items, one after the other. */
  function PreForest(items: seq<Item>, maxDepth: int): seq<Item>
    decreases Weight(items), 1
  {
    if items == [] then [] else Pre(items[0], maxDepth) + PreForest(items[1..], maxDepth)
  }

  /** The order depth-first mode visits: the pre-order of the seed. */
  function DepthFirstOrder(repo: Repo, maxDepth: int): seq<Item>
  {
    PreForest(Seed(repo), maxDepth)
  }

  lemma {:induction false} PreForestAppend(a: seq<Item>, b: seq<Item>, maxDepth: int)
    ensures PreForest(a + b, maxDepth) == PreForest(a, maxDepth) + PreForest(b, maxDepth)
  {
    if a == [] {
      assert a + b == b;
    } else {
      assert (a + b)[0] == a[0] && (a + b)[1..] == a[1..] + b;
      PreForestAppend(a[1..], b, maxDepth);
    }
  }

  // ---------------------------------------------------------- level order

  /** The items of a list that are not pruned, in order. */
  function Visible(items: seq<Item>, maxDepth: int): (r: seq<Item>)
    ensures forall x :: x in r ==> x in items && !Pruned(x.depth, maxDepth)
  {
    if items == [] then []
    else (if Pruned(items[0].depth, maxDepth) then [] else [items[0]]) + Visible(items[1..], maxDepth)
  }

  /** The next level: the children of the items that are not pruned, in order. */
  function Next(items: seq<Item>, maxDepth: int): seq<Item>
  {
    if items == [] then []
    else (if Pruned(items[0].depth, maxDepth) then [] else Children(items[0])) + Next(items[1..], maxDepth)
  }

  lemma {:induction false} NextWeight(items: seq<Item>, maxDepth: int)
    ensures Weight(Next(items, maxDepth)) + |items| <= Weight(items)
  {
    if items != [] {
      NextWeight(items[1..], maxDepth);
      ChildrenWeight(items[0]);
      WeightAppend(if Pruned(items[0].depth, maxDepth) then [] else Children(items[0]), Next(items[1..], maxDepth));
    }
  }

  /** Level order: the visible items of a level, then level order of the next level. */
  function LevelOrder(level: seq<Item>, maxDepth: int): seq<Item>
    decreases Weight(level)
  {
    if level == [] then []
    else
      NextWeight(level, maxDepth);
      Visible(level, maxDepth) + LevelOrder(Next(level, maxDepth), maxDepth)
  }

  /** The order breadth-first mode visits: the level order of the seed. */
  function BreadthFirstOrder(repo: Repo, maxDepth: int): seq<Item>
  {
    LevelOrder(Seed(repo), maxDepth)
  }

  /** The order a walk visits in either mode. */
  function VisitOrder(repo: Repo, depthFirst: bool, maxDepth: int): seq<Item>
  {
    if depthFirst then DepthFirstOrder(repo, maxDepth) else BreadthFirstOrder(repo, maxDepth)
  }

  // ------------------------------------------------- first-in, first-out

  /**
   * What a first-in, first-out work list yields: take the front item, skip
   * it if pruned, else yield it and append its children at the back.
   */
  function QueueOrder(queue: seq<Item>, maxDepth: int): seq<Item>
    decreases Weight(queue)
  {
    if queue == [] then []
    else
      var x := queue[0];
      if Pruned(x.depth, maxDepth) then
        assert queue == [x] + queue[1..];
        WeightAppend([x], queue[1..]);
        QueueOrder(queue[1..], maxDepth)
      else
        assert queue == [x] + queue[1..];
        WeightAppend([x], queue[1..]);
        WeightAppend(queue[1..], Children(x));
        ChildrenWeight(x);
        [x] + QueueOrder(queue[1..] + Children(x), maxDepth)
  }

  lemma VisibleNextCons(x: Item, tail: seq<Item>, maxDepth: int)
    ensures Pruned(x.depth, maxDepth) ==>
      Visible([x] + tail, maxDepth) == Visible(tail, maxDepth) && Next([x] + tail, maxDepth) == Next(tail, maxDepth)
    ensures !Pruned(x.depth, maxDepth) ==>
      Visible([x] + tail, maxDepth) == [x] + Visible(tail, maxDepth) &&
      Next([x] + tail, maxDepth) == Children(x) + Next(tail, maxDepth)
  {
    assert ([x] + tail)[0] == x && ([x] + tail)[1..] == tail;
    assert [] + Visible(tail, maxDepth) == Visible(tail, maxDepth);
    assert [] + Next(tail, maxDepth) == Next(tail, maxDepth);
  }

  lemma QueueOrderCons(x: Item, tail: seq<Item>, rest: seq<Item>, maxDepth: int)
    ensures QueueOrder([x] + tail + rest, maxDepth) ==
      if Pruned(x.depth, maxDepth) then QueueOrder(tail + rest, maxDepth)
      else [x] + QueueOrder(tail + (rest + Children(x)), maxDepth)
  {
    var q := [x] + tail + rest;
    assert q[0] == x && q[1..] == tail + rest;
    if !Pruned(x.depth, maxDepth) {
      AppendAssociative(tail, rest, Children(x));
    }
  }

  lemma AppendAssociative<T>(a: seq<T>, b: seq<T>, c: seq<T>)
    ensures a + b + c == a + (b + c)
  {
  }

  /** Draining a queue whose front is a whole level yields that level, then the rest and the next level. */
  lemma {:induction false} QueueOrderLevel(level: seq<Item>, rest: seq<Item>, maxDepth: int)
    ensures QueueOrder(level + rest, maxDepth)
         == Visible(level, maxDepth) + QueueOrder(rest + Next(level, maxDepth), maxDepth)
    decreases |level|
  {
    if level == [] {
      assert level + rest == rest;
      assert rest + Next(level, maxDepth) == rest;
    } else {
      var x, tail := level[0], level[1..];
      assert level == [x] + tail;
      VisibleNextCons(x, tail, maxDepth);
      QueueOrderCons(x, tail, rest, maxDepth);
      if Pruned(x.depth, maxDepth) {
        QueueOrderLevel(tail, rest, maxDepth);
      } else {
        QueueOrderLevel(tail, rest + Children(x), maxDepth);
        AppendAssociative(rest, Children(x), Next(tail, maxDepth));
        AppendAssociative([x], Visible(tail, maxDepth), QueueOrder(rest + Next(level, maxDepth), maxDepth));
      }
    }
  }

  /** A first-in, first-out work list visits in level order. */
  lemma {:induction false} QueueOrderIsLevelOrder(level: seq<Item>, maxDepth: int)
    ensures QueueOrder(level, maxDepth) == LevelOrder(level, maxDepth)
    decreases Weight(level)
  {
    if level != [] {
      QueueOrderLevel(level, [], maxDepth);
      assert level + [] == level;
      assert [] + Next(level, maxDepth) == Next(level, maxDepth);
      NextWeight(level, maxDepth);
      QueueOrderIsLevelOrder(Next(level, maxDepth), maxDepth);
    }
  }

  // ------------------------------------------------ properties of the orders

  /** Both modes visit the same items, each as often; only the order differs. */
  lemma {:induction false} PreForestSplitsByLevel(level: seq<Item>, maxDepth: int)
    ensures multiset(PreForest(level, maxDepth))
         == multiset(Visible(level, maxDepth)) + multiset(PreForest(Next(level, maxDepth), maxDepth))
  {
    if level != [] {
      var x, tail := level[0], level[1..];
      assert level == [x] + tail;
      VisibleNextCons(x, tail, maxDepth);
      PreForestSplitsByLevel(tail, maxDepth);
      if !Pruned(x.depth, maxDepth) {
        PreForestAppend(Children(x), Next(tail, maxDepth), maxDepth);
      }
    }
  }

  lemma {:induction false} PreForestSameAsLevelOrder(level: seq<Item>, maxDepth: int)
    ensures multiset(PreForest(level, maxDepth)) == multiset(LevelOrder(level, maxDepth))
    decreases Weight(level)
  {
    if level != [] {
      PreForestSplitsByLevel(level, maxDepth);
      NextWeight(level, maxDepth);
      PreForestSameAsLevelOrder(Next(level, maxDepth), maxDepth);
    }
  }

  lemma DepthFirstIsPermutationOfBreadthFirst(repo: Repo, maxDepth: int)
    ensures multiset(DepthFirstOrder(repo, maxDepth)) == multiset(BreadthFirstOrder(repo, maxDepth))
  {
    PreForestSameAsLevelOrder(Seed(repo), maxDepth);
  }

  /** Children sit exactly one level below their parent. */
  lemma ChildrenDepth(it: Item)
    ensures forall c :: c in Children(it) ==> c.depth == it.depth + 1
  {
  }

  lemma {:induction false} NextDepth(level: seq<Item>, d: int, maxDepth: int)
    requires forall x :: x in level ==> x.depth == d
    ensures forall c :: c in Next(level, maxDepth) ==> c.depth == d + 1
  {
    if level != [] {
      var x, tail := level[0], level[1..];
      assert level == [x] + tail;
      VisibleNextCons(x, tail, maxDepth);
      NextDepth(tail, d, maxDepth);
      ChildrenDepth(x);
    }
  }

  /**
   * Level order from a level of uniform depth `d`: every item is at least
   * `d` deep and no item is deeper than a later one.
   */
  lemma {:induction false} LevelOrderDepths(level: seq<Item>, d: int, maxDepth: int)
    requires forall x :: x in level ==> x.depth == d
    ensures forall x :: x in LevelOrder(level, maxDepth) ==> x.depth >= d
    ensures forall i, j :: 0 <= i < j < |LevelOrder(level, maxDepth)| ==>
      LevelOrder(level, maxDepth)[i].depth <= LevelOrder(level, maxDepth)[j].depth
    decreases Weight(level)
  {
    if level != [] {
      var vis, next := Visible(level, maxDepth), Next(level, maxDepth);
      NextWeight(level, maxDepth);
      NextDepth(level, d, maxDepth);
      LevelOrderDepths(next, d + 1, maxDepth);
      var lo := LevelOrder(level, maxDepth);
      assert lo == vis + LevelOrder(next, maxDepth);
      forall i, j | 0 <= i < j < |lo| ensures lo[i].depth <= lo[j].depth {
        if j < |vis| {
          assert lo[i] in vis && lo[j] in vis;
        } else if i < |vis| {
          assert lo[i] in vis;
          assert lo[j] in LevelOrder(next, maxDepth);
        } else {
          assert lo[i] == LevelOrder(next, maxDepth)[i - |vis|];
          assert lo[j] == LevelOrder(next, maxDepth)[j - |vis|];
        }
      }
    }
  }

  /** Breadth-first mode visits every depth-d item before any deeper one. */
  lemma BreadthFirstIsLevelOrdered(repo: Repo, maxDepth: int)
    ensures forall i, j :: 0 <= i < j < |BreadthFirstOrder(repo, maxDepth)| ==>
      BreadthFirstOrder(repo, maxDepth)[i].depth <= BreadthFirstOrder(repo, maxDepth)[j].depth
  {
    LevelOrderDepths(Seed(repo), 1, maxDepth);
  }

  /** Every item either order visits is at depth 1 or more, and within a non-negative `maxDepth`. */
  lemma {:induction false} LevelOrderWithin(level: seq<Item>, d: int, maxDepth: int)
    requires d >= 1 && forall x :: x in level ==> x.depth == d
    ensures forall x :: x in LevelOrder(level, maxDepth) ==> 1 <= x.depth && (maxDepth >= 0 ==> x.depth <= maxDepth)
    decreases Weight(level)
  {
    if level != [] {
      NextWeight(level, maxDepth);
      NextDepth(level, d, maxDepth);
      LevelOrderWithin(Next(level, maxDepth), d + 1, maxDepth);
    }
  }

  lemma VisitedDepthsWithinBounds(repo: Repo, depthFirst: bool, maxDepth: int)
    ensures forall x :: x in VisitOrder(repo, depthFirst, maxDepth) ==>
      1 <= x.depth && (maxDepth >= 0 ==> x.depth <= maxDepth)
  {
    LevelOrderWithin(Seed(repo), 1, maxDepth);
    DepthFirstIsPermutationOfBreadthFirst(repo, maxDepth);
    forall x | x in DepthFirstOrder(repo, maxDepth) ensures x in BreadthFirstOrder(repo, maxDepth) {
      assert x in multiset(DepthFirstOrder(repo, maxDepth));
    }
  }

  /** Items that are all pruned contribute nothing, in either order. */
  lemma {:induction false} AllPrunedContributeNothing(level: seq<Item>, maxDepth: int)
    requires forall x :: x in level ==> Pruned(x.depth, maxDepth)
    ensures Visible(level, maxDepth) == [] && Next(level, maxDepth) == [] && PreForest(level, maxDepth) == []
  {
    if level != [] {
      var x, tail := level[0], level[1..];
      assert level == [x] + tail;
      VisibleNextCons(x, tail, maxDepth);
      AllPrunedContributeNothing(tail, maxDepth);
    }
  }

  /** `maxDepth = 0` visits nothing: the root's own entries are already at depth 1. */
  lemma MaxDepthZeroVisitsNothing(repo: Repo, depthFirst: bool)
    ensures VisitOrder(repo, depthFirst, 0) == []
  {
    var seed := Seed(repo);
    SeedDepth(repo);
    AllPrunedContributeNothing(seed, 0);
    if seed != [] {
      assert LevelOrder(seed, 0) == [] + LevelOrder([], 0);
    }
  }

  /** With a negative `maxDepth` (the default, -1) nothing is pruned: every reachable node is visited. */
  lemma {:induction false} UnprunedLevelOrderLength(level: seq<Item>, maxDepth: int)
    requires maxDepth < 0
    ensures |LevelOrder(level, maxDepth)| == Weight(level)
    decreases Weight(level)
  {
    if level != [] {
      var x, tail := level[0], level[1..];
      assert level == [x] + tail;
      VisibleNextCons(x, tail, maxDepth);
      NextWeight(level, maxDepth);
      UnprunedLevelOrderLength(Next(level, maxDepth), maxDepth);
      UnprunedLevelOrderLength(tail, maxDepth);
      UnprunedStepWeight(level, maxDepth);
    }
  }

  lemma {:induction false} UnprunedStepWeight(level: seq<Item>, maxDepth: int)
    requires maxDepth < 0
    ensures |Visible(level, maxDepth)| == |level|
    ensures Weight(Next(level, maxDepth)) + |level| == Weight(level)
  {
    if level != [] {
      var x, tail := level[0], level[1..];
      assert level == [x] + tail;
      VisibleNextCons(x, tail, maxDepth);
      UnprunedStepWeight(tail, maxDepth);
      ChildrenWeight(x);
      WeightAppend(Children(x), Next(tail, maxDepth));
    }
  }

  /**
   * With a negative `maxDepth` either order visits every node reachable
   * from the root's entries, and each one once: as many visits as nodes.
   */
  lemma NegativeMaxDepthVisitsEverything(repo: Repo, depthFirst: bool, maxDepth: int)
    requires maxDepth < 0
    ensures |VisitOrder(repo, depthFirst, maxDepth)| == Weight(Seed(repo))
    ensures forall x :: Reachable(x, Seed(repo)) ==> x in VisitOrder(repo, depthFirst, maxDepth)
  {
    UnprunedLevelOrderLength(Seed(repo), maxDepth);
    DepthFirstIsPermutationOfBreadthFirst(repo, maxDepth);
    assert |multiset(DepthFirstOrder(repo, maxDepth))| == |multiset(BreadthFirstOrder(repo, maxDepth))|;
    forall x | Reachable(x, Seed(repo)) ensures x in VisitOrder(repo, depthFirst, maxDepth) {
      ReachableInPreForest(x, Seed(repo), maxDepth);
      assert x in multiset(DepthFirstOrder(repo, maxDepth));
    }
  }

  /** Every item either order visits is reachable from the root's entries. */
  lemma VisitedAreReachable(repo: Repo, depthFirst: bool, maxDepth: int)
    ensures forall x :: x in VisitOrder(repo, depthFirst, maxDepth) ==> Reachable(x, Seed(repo))
  {
    DepthFirstIsPermutationOfBreadthFirst(repo, maxDepth);
    forall x | x in VisitOrder(repo, depthFirst, maxDepth) ensures Reachable(x, Seed(repo)) {
      assert x in multiset(VisitOrder(repo, depthFirst, maxDepth));
      assert x in DepthFirstOrder(repo, maxDepth);
      PreForestReachable(x, Seed(repo), maxDepth);
    }
  }

  /**
   * A pre-order lists every reachable item within the depth limit: the
   * items above it are shallower, so none of them is pruned either.
   */
  lemma {:induction false} ReachableInPreForest(x: Item, items: seq<Item>, maxDepth: int)
    requires Reachable(x, items) && !Pruned(x.depth, maxDepth)
    ensures x in PreForest(items, maxDepth)
    decreases Weight(items)
  {
    if x in items {
      PreInForest(x, x, items, maxDepth);
    } else {
      var y :| y in items && Reachable(x, Children(y));
      InWeight(y, items);
      ChildrenWeight(y);
      ChildrenDepth(y);
      ReachableDeeper(x, Children(y), y.depth + 1);
      assert !Pruned(y.depth, maxDepth);
      ReachableInPreForest(x, Children(y), maxDepth);
      ChildInPre(x, y, maxDepth);
      PreInForest(x, y, items, maxDepth);
    }
  }

  /** Below an unpruned item, its pre-order holds its children's pre-orders. */
  lemma ChildInPre(x: Item, y: Item, maxDepth: int)
    requires !Pruned(y.depth, maxDepth) && x in PreForest(Children(y), maxDepth)
    ensures x in Pre(y, maxDepth)
  {
    ChildrenWeight(y);
    assert Pre(y, maxDepth) == [y] + PreForest(Children(y), maxDepth);
  }

  /** Everything reachable from items at least `d` deep is at least `d` deep. */
  lemma {:induction false} ReachableDeeper(x: Item, items: seq<Item>, d: int)
    requires Reachable(x, items) && forall z :: z in items ==> z.depth >= d
    ensures x.depth >= d
    decreases Weight(items)
  {
    if x !in items {
      var y :| y in items && Reachable(x, Children(y));
      InWeight(y, items);
      ChildrenWeight(y);
      ChildrenDepth(y);
      ReachableDeeper(x, Children(y), y.depth + 1);
    }
  }

  /**
   * Whatever the limit, either order visits every reachable subrepository
   * that the limit does not prune; with `VisitedAreReachable` and
   * `VisitedDepthsWithinBounds`, the visited items are exactly those.
   */
  lemma ReachableWithinDepthVisited(repo: Repo, depthFirst: bool, maxDepth: int)
    ensures forall x :: Reachable(x, Seed(repo)) && !Pruned(x.depth, maxDepth) ==>
      x in VisitOrder(repo, depthFirst, maxDepth)
  {
    DepthFirstIsPermutationOfBreadthFirst(repo, maxDepth);
    forall x | Reachable(x, Seed(repo)) && !Pruned(x.depth, maxDepth)
      ensures x in VisitOrder(repo, depthFirst, maxDepth)
    {
      ReachableInPreForest(x, Seed(repo), maxDepth);
      assert x in multiset(DepthFirstOrder(repo, maxDepth));
    }
  }

  /** What the pre-order of a list's item holds, the pre-order of the list holds. */
  lemma {:induction false} PreInForest(z: Item, y: Item, items: seq<Item>, maxDepth: int)
    requires y in items && z in Pre(y, maxDepth)
    ensures z in PreForest(items, maxDepth)
  {
    if items[0] != y {
      PreInForest(z, y, items[1..], maxDepth);
    }
  }

  /** A pre-order, pruned or not, lists only reachable items. */
  lemma {:induction false} PreForestReachable(x: Item, items: seq<Item>, maxDepth: int)
    requires x in PreForest(items, maxDepth)
    ensures Reachable(x, items)
    decreases Weight(items)
  {
    var y, tail := items[0], items[1..];
    if x in Pre(y, maxDepth) {
      if x != y {
        ChildrenWeight(y);
        PreForestReachable(x, Children(y), maxDepth);
        assert y in items;
      }
    } else {
      assert Weight(tail) < Weight(items);
      PreForestReachable(x, tail, maxDepth);
      assert forall z :: z in tail ==> z in items;
    }
  }
}
