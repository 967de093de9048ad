/**
 * The `onsub` command: run one shell command in every subrepository of the
 * working directory's parent revision, walking nested subrepositories with
 * one work list.
 *
 * Running the command is an oracle `status` from the invocation (command,
 * working directory, added environment) to its exit status; what `ui.write`
 * prints and what `ui.note` would print are returned as values.
 */
module Onsub {
  import opened StringOrder
  import opened SubrepoTree

  /** One run of the command: its text, its working directory and the variables added to its environment. */
  datatype Invocation = Invocation(cmd: string, cwd: string, env: map<string, string>)

  /** How a walk ends: all work done, or `util.Abort` raised for a failing subrepository. */
  datatype Outcome = Completed | Aborted(relpath: string, status: int)

  /** The command-line options of `onsub`. */
  datatype Options = Options(breadthFirst: bool, maxDepth: int, print0: bool, ignoreErrors: bool)

  /** The defaults of the command table: depth-first, `--max-depth -1`, no `-0`, stop on errors. */
  const DefaultOptions := Options(false, -1, false, false)

  /** `' '.join(args)`: the arguments separated by single spaces. */
  function Join(args: seq<string>): string
  {
    if args == [] then ""
    else if |args| == 1 then args[0]
    else args[0] + " " + Join(args[1..])
  }

  /** The index of the first space in `s`, or `|s|` when there is none. */
  function SpaceIndex(s: string): (i: nat)
    ensures i <= |s| && (i < |s| ==> s[i] == ' ') && forall j :: 0 <= j < i ==> s[j] != ' '
  {
    if s == [] || s[0] == ' ' then 0 else 1 + SpaceIndex(s[1..])
  }

  /** `s.split(' ')`: the pieces between single spaces. */
  function Split(s: string): seq<string>
    decreases |s|
  {
    var i := SpaceIndex(s);
    if i == |s| then [s] else [s[..i]] + Split(s[i + 1..])
  }

  /** The command line can be split back into the arguments when none of them holds a space. */
  lemma {:induction false} SplitJoin(args: seq<string>)
    requires args != [] && forall a :: a in args ==> ' ' !in a
    ensures Split(Join(args)) == args
  {
    var first := args[0];
    assert first in args;
    if |args| == 1 {
      assert SpaceIndex(first) == |first|;
    } else {
      SplitJoin(args[1..]);
      SplitFirst(first, Join(args[1..]));
      assert args == [first] + args[1..];
    }
  }

  /** Splitting stops at the space after a first piece that holds none. */
  lemma SplitFirst(first: string, rest: string)
    requires ' ' !in first
    ensures Split(first + " " + rest) == [first] + Split(rest)
  {
    var s := first + " " + rest;
    assert SpaceIndex(s) == |first| by {
      assert s[|first|] == ' ';
      assert forall j :: 0 <= j < |first| ==> s[j] == first[j];
    }
    assert s[..|first|] == first;
    assert s[|first| + 1..] == rest;
  }

  /** `os.path.join(a, b)` for POSIX paths. */
  function PathJoin(a: string, b: string): (r: string)
    ensures |b| > 0 && b[0] == '/' ==> r == b
    ensures (|b| == 0 || b[0] != '/') ==>
      |a| + |b| <= |r| <= |a| + |b| + 1 && r[..|a|] == a && r[|r| - |b|..] == b
    // a separator is added exactly when `a` is nonempty and does not already end in one
    ensures (|b| == 0 || b[0] != '/') && (a == [] || a[|a| - 1] == '/') ==> |r| == |a| + |b|
    ensures (|b| == 0 || b[0] != '/') && a != [] && a[|a| - 1] != '/' ==> |r| == |a| + |b| + 1 && r[|a|] == '/'
  {
    if |b| > 0 && b[0] == '/' then b
    else if a == [] || a[|a| - 1] == '/' then a + b
    else a + "/" + b
  }

  /** How the command is run in `sub`: in its directory, with the four `HG_` variables. */
  function Invoke(root: string, cmd: string, sub: Sub): (r: Invocation)
    ensures r.cmd == cmd && r.cwd == PathJoin(root, sub.relpath)
    ensures r.env.Keys == {"HG_SUBPATH", "HG_SUBURL", "HG_SUBSTATE", "HG_REPO"}
    ensures r.env["HG_SUBPATH"] == sub.relpath && r.env["HG_SUBURL"] == sub.url
    ensures r.env["HG_SUBSTATE"] == sub.state && r.env["HG_REPO"] == root
  {
    Invocation(cmd, PathJoin(root, sub.relpath),
      map["HG_SUBPATH" := sub.relpath, "HG_SUBURL" := sub.url,
          "HG_SUBSTATE" := sub.state, "HG_REPO" := root])
  }

  /** The pieces of the verbose line around the command and the path. */
  const NoteOpen: string := "executing '"
  const NoteMiddle: string := "' in "
  const NoteClose: string := "\n"

  /** The verbose line for one subrepository. */
  function NoteLine(cmd: string, relpath: string): string
  {
    NoteOpen + cmd + NoteMiddle + relpath + NoteClose
  }

  /** The terminator `-0` writes after each path. */
  const Nul: string := "\0"

  /** What `-0` writes for a list of visited items: each path followed by a NUL. */
  function NulTerminated(visited: seq<Item>): string
  {
    if visited == [] then ""
    else NulTerminated(visited[..|visited| - 1]) + visited[|visited| - 1].sub.relpath + Nul
  }

  /** `list.reverse()`. */
  function Reverse<T>(s: seq<T>): (r: seq<T>)
    ensures |r| == |s|
    ensures forall i :: 0 <= i < |s| ==> r[i] == s[|s| - 1 - i]
  {
    if s == [] then [] else Reverse(s[1..]) + [s[0]]
  }

  lemma ReverseAppend<T>(a: seq<T>, b: seq<T>)
    ensures Reverse(a + b) == Reverse(b) + Reverse(a)
  {
    assert Reverse(a + b) == Reverse(b) + Reverse(a) by {
      forall i | 0 <= i < |a| + |b| ensures Reverse(a + b)[i] == (Reverse(b) + Reverse(a))[i] {
      }
    }
  }

  lemma ReverseReverse<T>(s: seq<T>)
    ensures Reverse(Reverse(s)) == s
  {
  }

  lemma {:induction false} WeightReverse(s: seq<Item>)
    ensures Weight(Reverse(s)) == Weight(s)
  {
    if s != [] {
      WeightReverse(s[1..]);
      WeightAppend(Reverse(s[1..]), [s[0]]);
      assert [s[0]][1..] == [];
    }
  }

  /** The item the next iteration takes: `work.pop()` or `work.pop(0)`. */
  function PopItem(work: seq<Item>, depthFirst: bool): Item
    requires work != []
  {
    if depthFirst then work[|work| - 1] else work[0]
  }

  /** The work list after taking that item: a stack loses its last item, a queue its first. */
  function PopRest(work: seq<Item>, depthFirst: bool): (r: seq<Item>)
    requires work != []
    ensures depthFirst ==> work == r + [PopItem(work, depthFirst)]
    ensures !depthFirst ==> work == [PopItem(work, depthFirst)] + r
  {
    if depthFirst then work[..|work| - 1] else work[1..]
  }

  /** The batch a visited item adds to the work list: its children, reversed in depth-first mode. */
  function Expansion(item: Item, depthFirst: bool): seq<Item>
  {
    if depthFirst then Reverse(Children(item)) else Children(item)
  }

  /** The work list `foreach` starts from: the seed, reversed in depth-first mode. */
  function InitialWork(repo: Repo, depthFirst: bool): seq<Item>
  {
    if depthFirst then Reverse(Seed(repo)) else Seed(repo)
  }

  /**
   * The items a work list yields when it is consumed as `foreach` consumes
   * it: take the next item, drop it if it is pruned, otherwise yield it and
   * add its expansion.
   */
  function Walk(work: seq<Item>, depthFirst: bool, maxDepth: int): seq<Item>
    decreases Weight(work)
  {
    if work == [] then []
    else
      var item, rest := PopItem(work, depthFirst), PopRest(work, depthFirst);
      PopWeight(work, depthFirst);
      if Pruned(item.depth, maxDepth) then Walk(rest, depthFirst, maxDepth)
      else [item] + Walk(rest + Expansion(item, depthFirst), depthFirst, maxDepth)
  }

  /** The runs of the command for a list of visited items, one per item. */
  function Runs(root: string, cmd: string, visited: seq<Item>): (r: seq<Invocation>)
    ensures |r| == |visited|
  {
    if visited == [] then []
    else Runs(root, cmd, visited[..|visited| - 1]) + [Invoke(root, cmd, visited[|visited| - 1].sub)]
  }

  /** The verbose notes for a list of visited items, one per item. */
  function Notes(cmd: string, visited: seq<Item>): (r: seq<string>)
    ensures |r| == |visited|
  {
    if visited == [] then []
    else Notes(cmd, visited[..|visited| - 1]) + [NoteLine(cmd, visited[|visited| - 1].sub.relpath)]
  }

  /** Every run in `runs` exits with status 0. */
  predicate AllSucceeded(runs: seq<Invocation>, status: Invocation -> int)
  {
    forall i :: 0 <= i < |runs| ==> status(runs[i]) == 0
  }

  /** What the walk has produced so far matches the items it has visited. */
  predicate Tracked(root: string, cmd: string, print0: bool,
                    visited: seq<Item>, runs: seq<Invocation>, written: string, notes: seq<string>)
  {
    && runs == Runs(root, cmd, visited)
    && (print0 ==> written == NulTerminated(visited) && notes == [])
    && (!print0 ==> written == "" && notes == Notes(cmd, visited))
  }

  /**
   * `foreach`: walk the subrepositories of `repo` in the order of the mode,
   * skipping (and not expanding) the items deeper than a non-negative
   * `maxDepth`, running `cmd` in each one visited; a failing run ends the
   * walk unless `ignoreErrors`.
   */
  method Foreach(repo: Repo, cmd: string, depthFirst: bool, maxDepth: int, print0: bool, ignoreErrors: bool,
                 status: Invocation -> int)
    returns (visited: seq<Item>, runs: seq<Invocation>, written: string, notes: seq<string>, outcome: Outcome)
    // the walk follows the mode's order and stops only at an unignored failure
    ensures visited <= VisitOrder(repo, depthFirst, maxDepth)
    ensures outcome.Completed? ==> visited == VisitOrder(repo, depthFirst, maxDepth)
    ensures ignoreErrors ==> outcome.Completed?
    ensures outcome.Aborted? ==>
      visited != [] && runs != [] && outcome.relpath == Last(visited).sub.relpath &&
      outcome.status == status(Last(runs)) && outcome.status != 0
    ensures !ignoreErrors ==> AllSucceeded(if outcome.Aborted? then Prefix(runs) else runs, status)
    // one run per visited item, in its own directory and environment (see `RunsAt`)
    ensures runs == Runs(repo.root, cmd, visited)
    // `-0` writes the paths and nothing else; otherwise one note per run
    ensures print0 ==> written == NulTerminated(visited) && notes == []
    ensures !print0 ==> written == "" && notes == Notes(cmd, visited)
  {
    var work := Seed(repo);
    if depthFirst {
      work := Reverse(work);
    }
    ghost var order := Walk(work, depthFirst, maxDepth);
    WalkFollowsOrder(repo, depthFirst, maxDepth);
    visited, runs, written, notes, outcome := [], [], "", [], Completed;

    while work != []
      invariant visited + Walk(work, depthFirst, maxDepth) == order
      invariant Tracked(repo.root, cmd, print0, visited, runs, written, notes)
      invariant !ignoreErrors ==> AllSucceeded(runs, status)
      invariant outcome == Completed
      decreases Weight(work)
    {
      PopWeight(work, depthFirst);
      var item := PopItem(work, depthFirst);
      work := PopRest(work, depthFirst);
      if item.depth > maxDepth && maxDepth >= 0 {
        continue;
      }
      ghost var previous, previousRuns := visited, runs;
      var rc;
      visited, runs, written, notes, rc := Visit(repo.root, cmd, print0, status, item, visited, runs, written, notes);
      AppendAssociative(previous, [item], Walk(work + Expansion(item, depthFirst), depthFirst, maxDepth));
      if rc != 0 && !ignoreErrors {
        outcome := Aborted(item.sub.relpath, rc);
        LastOfAppend(previous, item);
        LastOfAppend(previousRuns, Invoke(repo.root, cmd, item.sub));
        break;
      }
      if !ignoreErrors {
        SucceededAppend(previousRuns, Invoke(repo.root, cmd, item.sub), status);
      }
      // `Expansion` is empty unless the subrepository is a Mercurial one
      work := work + Expansion(item, depthFirst);
    }
  }

  /**
   * Visiting one subrepository: write its path and a NUL with `-0`, or note
   * it, then run the command in its directory; the item and the run are
   * recorded.
   */
  method Visit(root: string, cmd: string, print0: bool, status: Invocation -> int, item: Item,
               visited: seq<Item>, runs: seq<Invocation>, written: string, notes: seq<string>)
    returns (visited': seq<Item>, runs': seq<Invocation>, written': string, notes': seq<string>, rc: int)
    requires Tracked(root, cmd, print0, visited, runs, written, notes)
    ensures Tracked(root, cmd, print0, visited', runs', written', notes')
    ensures visited' == visited + [item] && runs' == runs + [Invoke(root, cmd, item.sub)]
    ensures rc == status(Invoke(root, cmd, item.sub))
  {
    var relpath := item.sub.relpath;
    written', notes' := written, notes;
    if print0 {
      written' := written + relpath + Nul;
    } else {
      notes' := notes + [NoteLine(cmd, relpath)];
    }
    var invocation := Invoke(root, cmd, item.sub);
    rc := status(invocation);
    VisitStep(root, cmd, visited, item);
    visited' := visited + [item];
    runs' := runs + [invocation];
  }

  /**
   * The `onsub` command: the arguments joined into one command line, the
   * traversal depth-first unless `--breadth-first` is given.
   */
  method OnsubCommand(repo: Repo, args: seq<string>, opts: Options, status: Invocation -> int)
    returns (visited: seq<Item>, runs: seq<Invocation>, written: string, notes: seq<string>, outcome: Outcome)
    ensures visited <= VisitOrder(repo, !opts.breadthFirst, opts.maxDepth)
    ensures outcome.Completed? ==> visited == VisitOrder(repo, !opts.breadthFirst, opts.maxDepth)
    ensures opts.ignoreErrors ==> outcome.Completed?
    ensures outcome.Aborted? ==>
      visited != [] && runs != [] && outcome.relpath == Last(visited).sub.relpath &&
      outcome.status == status(Last(runs)) && outcome.status != 0
    ensures !opts.ignoreErrors ==> AllSucceeded(if outcome.Aborted? then Prefix(runs) else runs, status)
    ensures runs == Runs(repo.root, Join(args), visited)
    ensures opts.print0 ==> written == NulTerminated(visited) && notes == []
    ensures !opts.print0 ==> written == "" && notes == Notes(Join(args), visited)
  {
    var cmd := Join(args);
    visited, runs, written, notes, outcome :=
      Foreach(repo, cmd, !opts.breadthFirst, opts.maxDepth, opts.print0, opts.ignoreErrors, status);
  }

  /**
   * With the command-table defaults the walk is depth-first and unpruned:
   * it visits exactly the subrepositories reachable from the root's
   * entries, each once.
   */
  lemma DefaultOptionsVisitEverything(repo: Repo)
    ensures var order := VisitOrder(repo, !DefaultOptions.breadthFirst, DefaultOptions.maxDepth);
      && order == DepthFirstOrder(repo, -1)
      && |order| == Weight(Seed(repo))
      && forall x :: x in order <==> Reachable(x, Seed(repo))
  {
    NegativeMaxDepthVisitsEverything(repo, true, -1);
    VisitedAreReachable(repo, true, -1);
  }

  /** Consuming the initial work list yields the mode's visiting order. */
  lemma WalkFollowsOrder(repo: Repo, depthFirst: bool, maxDepth: int)
    ensures Walk(InitialWork(repo, depthFirst), depthFirst, maxDepth) == VisitOrder(repo, depthFirst, maxDepth)
  {
    WalkIsRemaining(InitialWork(repo, depthFirst), depthFirst, maxDepth);
    if depthFirst {
      ReverseReverse(Seed(repo));
    } else {
      QueueOrderIsLevelOrder(Seed(repo), maxDepth);
    }
  }

  /**
   * What a work list yields: in depth-first mode (a stack, top at the end)
   * the pre-order of its items from the top down; in breadth-first mode (a
   * FIFO queue) the queue order.
   */
  function Remaining(work: seq<Item>, depthFirst: bool, maxDepth: int): seq<Item>
  {
    if depthFirst then PreForest(Reverse(work), maxDepth) else QueueOrder(work, maxDepth)
  }

  /** Consuming a work list item by item yields exactly what the list holds, in the mode's order. */
  lemma {:induction false} WalkIsRemaining(work: seq<Item>, depthFirst: bool, maxDepth: int)
    ensures Walk(work, depthFirst, maxDepth) == Remaining(work, depthFirst, maxDepth)
    decreases Weight(work)
  {
    if work != [] {
      var item, rest := PopItem(work, depthFirst), PopRest(work, depthFirst);
      PopStep(work, depthFirst, maxDepth);
      PopWeight(work, depthFirst);
      if Pruned(item.depth, maxDepth) {
        WalkIsRemaining(rest, depthFirst, maxDepth);
      } else {
        WalkIsRemaining(rest + Expansion(item, depthFirst), depthFirst, maxDepth);
      }
    }
  }

  /** Taking an item off the work list and adding its expansion makes the work strictly lighter. */
  lemma PopWeight(before: seq<Item>, depthFirst: bool)
    requires before != []
    ensures Weight(PopRest(before, depthFirst) + Expansion(PopItem(before, depthFirst), depthFirst)) < Weight(before)
    ensures Weight(PopRest(before, depthFirst)) < Weight(before)
  {
    var item, rest := PopItem(before, depthFirst), PopRest(before, depthFirst);
    ChildrenWeight(item);
    if depthFirst {
      assert before == rest + [item];
      WeightAppend(rest, [item]);
      WeightReverse(Children(item));
    } else {
      assert before == [item] + rest;
      WeightAppend([item], rest);
    }
    WeightAppend(rest, Expansion(item, depthFirst));
  }

  /** Taking one item off the work list: it comes first in what remains, unless it is pruned. */
  lemma PopStep(before: seq<Item>, depthFirst: bool, maxDepth: int)
    requires before != []
    ensures var item, rest := PopItem(before, depthFirst), PopRest(before, depthFirst);
      && (Pruned(item.depth, maxDepth) ==>
           Remaining(before, depthFirst, maxDepth) == Remaining(rest, depthFirst, maxDepth))
      && (!Pruned(item.depth, maxDepth) ==>
           Remaining(before, depthFirst, maxDepth)
             == [item] + Remaining(rest + Expansion(item, depthFirst), depthFirst, maxDepth))
  {
    var item, rest := PopItem(before, depthFirst), PopRest(before, depthFirst);
    if depthFirst {
      assert before == rest + [item];
      PopStepDepthFirst(rest, item, maxDepth);
    } else {
      assert before == [item] + rest;
      QueueOrderCons(item, rest, [], maxDepth);
      assert [item] + rest + [] == before;
      assert rest + [] == rest;
    }
  }

  lemma PopStepDepthFirst(rest: seq<Item>, item: Item, maxDepth: int)
    ensures Pruned(item.depth, maxDepth) ==>
      PreForest(Reverse(rest + [item]), maxDepth) == PreForest(Reverse(rest), maxDepth)
    ensures !Pruned(item.depth, maxDepth) ==>
      PreForest(Reverse(rest + [item]), maxDepth)
        == [item] + PreForest(Reverse(rest + Reverse(Children(item))), maxDepth)
  {
    ReverseAppend(rest, [item]);
    assert Reverse([item]) == [item];
    PreForestAppend([item], Reverse(rest), maxDepth);
    assert PreForest([item], maxDepth) == Pre(item, maxDepth) by {
      assert [item][1..] == [];
    }
    if !Pruned(item.depth, maxDepth) {
      ReverseAppend(rest, Reverse(Children(item)));
      ReverseReverse(Children(item));
      PreForestAppend(Children(item), Reverse(rest), maxDepth);
      AppendAssociative([item], PreForest(Children(item), maxDepth), PreForest(Reverse(rest), maxDepth));
    } else {
      assert [] + PreForest(Reverse(rest), maxDepth) == PreForest(Reverse(rest), maxDepth);
    }
  }

  /** Every item of a prefix of the visiting order is below the root and within the depth limit. */
  lemma PrefixWithinBounds(repo: Repo, depthFirst: bool, maxDepth: int, visited: seq<Item>)
    requires visited <= VisitOrder(repo, depthFirst, maxDepth)
    ensures forall i :: 0 <= i < |visited| ==>
      visited[i].depth >= 1 && (maxDepth >= 0 ==> visited[i].depth <= maxDepth)
  {
    VisitedDepthsWithinBounds(repo, depthFirst, maxDepth);
    forall i | 0 <= i < |visited|
      ensures visited[i].depth >= 1 && (maxDepth >= 0 ==> visited[i].depth <= maxDepth)
    {
      assert visited[i] in VisitOrder(repo, depthFirst, maxDepth);
    }
  }

  /** A successful run keeps a record of successes successful. */
  lemma SucceededAppend(runs: seq<Invocation>, invocation: Invocation, status: Invocation -> int)
    requires AllSucceeded(runs, status) && status(invocation) == 0
    ensures AllSucceeded(runs + [invocation], status)
  {
  }

  /** Visiting one more item extends the runs, the notes and the NUL-terminated output by that item. */
  lemma VisitStep(root: string, cmd: string, visited: seq<Item>, item: Item)
    ensures Runs(root, cmd, visited + [item]) == Runs(root, cmd, visited) + [Invoke(root, cmd, item.sub)]
    ensures Notes(cmd, visited + [item]) == Notes(cmd, visited) + [NoteLine(cmd, item.sub.relpath)]
    ensures NulTerminated(visited + [item]) == NulTerminated(visited) + item.sub.relpath + Nul
  {
    assert (visited + [item])[..|visited|] == visited;
  }

  /** The runs line up with the visited items: the `i`-th runs in the `i`-th item. */
  lemma {:induction false} RunsAt(root: string, cmd: string, visited: seq<Item>)
    ensures forall i :: 0 <= i < |visited| ==> Runs(root, cmd, visited)[i] == Invoke(root, cmd, visited[i].sub)
  {
    if visited != [] {
      var front := visited[..|visited| - 1];
      RunsAt(root, cmd, front);
      forall i | 0 <= i < |visited| ensures Runs(root, cmd, visited)[i] == Invoke(root, cmd, visited[i].sub) {
        if i < |front| {
          assert visited[i] == front[i];
        }
      }
    }
  }

  /** The notes line up with the visited items: the `i`-th names the `i`-th item. */
  lemma {:induction false} NotesAt(cmd: string, visited: seq<Item>)
    ensures forall i :: 0 <= i < |visited| ==> Notes(cmd, visited)[i] == NoteLine(cmd, visited[i].sub.relpath)
  {
    if visited != [] {
      var front := visited[..|visited| - 1];
      NotesAt(cmd, front);
      forall i | 0 <= i < |visited| ensures Notes(cmd, visited)[i] == NoteLine(cmd, visited[i].sub.relpath) {
        if i < |front| {
          assert visited[i] == front[i];
        }
      }
    }
  }

  /** All but the last element. */
  function Prefix<T>(s: seq<T>): seq<T>
    requires s != []
  {
    s[..|s| - 1]
  }

  /** The last element. */
  function Last<T>(s: seq<T>): T
    requires s != []
  {
    s[|s| - 1]
  }

  /** Appending one element: it becomes the last one, after what was there. */
  lemma LastOfAppend<T>(s: seq<T>, x: T)
    ensures s + [x] != [] && Last(s + [x]) == x && Prefix(s + [x]) == s
  {
  }
}
