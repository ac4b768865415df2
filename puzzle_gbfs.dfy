/** GBFS(startState, goalState) of GBFS.py: greedy best-first search whose heapq frontier pops
    the least (heuristic, state, depth) triple, where the heuristic is the Manhattan distance
    of the tiles to their places in the goal. A state joins visited when it is pushed, and the
    goal test runs when a state is popped. */
module GreedyBestFirst {
  import opened Optional
  import opened Sets
  import opened EightPuzzle
  import opened PuzzleSearch
  import opened PyHeap

  /** actionCost: every move costs 1. */
  function ActionCost(a: Action): (r: int) {
    1
  }

  /** The cost of a path: the sum of actionCost over its moves. */
  function PathCost(path: seq<Action>): (r: int)
    decreases |path|
  {
    if path == [] then 0 else PathCost(path[..|path| - 1]) + ActionCost(path[|path| - 1])
  }

  /** Under unit costs the cost of a path is its number of moves, so the depth GBFS returns is
      the cost of the path it found. */
  lemma {:induction false} PathCostIsLength(path: seq<Action>)
    ensures PathCost(path) == |path|
    decreases |path|
  {
    if path != [] {
      PathCostIsLength(path[..|path| - 1]);
    }
  }

  /** goalState.index(c): the first position of c. */
  function IndexOf(s: string, c: char): (r: nat)
    requires c in s
    ensures r < |s| && s[r] == c && c !in s[..r]
    decreases |s|
  {
    if s[0] == c then 0
    else
      var r := 1 + IndexOf(s[1..], c);
      assert s[..r] == [s[0]] + s[1..][..r - 1];
      r
  }

  /** index finds c at i when c does not occur before i. */
  lemma {:induction false} IndexOfAt(s: string, c: char, i: int)
    requires 0 <= i < |s| && s[i] == c && c !in s[..i]
    ensures IndexOf(s, c) == i
    decreases i
  {
    if i > 0 {
      assert s[0] == s[..i][0] && s[1..][..i - 1] == s[1..i] && s[1..i] == s[..i][1..];
      IndexOfAt(s[1..], c, i - 1);
    }
  }

  function Abs(x: int): (r: int)
    ensures r >= 0 && (r == x || r == -x)
  {
    if x < 0 then -x else x
  }

  /** abs(x1 - x2) + abs(y1 - y2) for x, y = divmod(index, 3). */
  function GridDistance(i: nat, j: nat): (r: int)
    ensures r >= 0 && (r == 0 <==> i == j)
  {
    Abs(i / 3 - j / 3) + Abs(i % 3 - j % 3)
  }

  /** Every tile of s other than the blank occurs in goal, which goalState.index needs. */
  predicate Placeable(s: string, goal: string) {
    forall i :: 0 <= i < |s| && s[i] != Blank ==> s[i] in goal
  }

  /** A state with the same tiles as a placeable one is placeable. */
  lemma PlaceableKept(s: string, t: string, goal: string)
    requires Placeable(s, goal) && multiset(t) == multiset(s)
    ensures Placeable(t, goal)
  {
    forall i | 0 <= i < |t| && t[i] != Blank ensures t[i] in goal {
      assert t[i] in multiset(s);
      var k :| 0 <= k < |s| && s[k] == t[i];
    }
  }

  /** The Manhattan distance of the first n cells of s to their places in goal. */
  function Heuristic(s: string, goal: string, n: nat): (r: int)
    requires n <= |s| && Placeable(s, goal)
    ensures r >= 0
  {
    if n == 0 then 0
    else if s[n - 1] == Blank then Heuristic(s, goal, n - 1)
    else Heuristic(s, goal, n - 1) + GridDistance(n - 1, IndexOf(goal, s[n - 1]))
  }

  /** The first n cells of s other than the blank sit where goal.index puts them. */
  predicate InPlace(s: string, goal: string, n: nat)
    requires n <= |s| && Placeable(s, goal)
  {
    forall i :: 0 <= i < n && s[i] != Blank ==> IndexOf(goal, s[i]) == i
  }

  /** The distance is 0 exactly when every tile is in place. */
  lemma {:induction false} HeuristicZero(s: string, goal: string, n: nat)
    requires n <= |s| && Placeable(s, goal)
    ensures Heuristic(s, goal, n) == 0 <==> InPlace(s, goal, n)
    decreases n
  {
    if n > 0 {
      HeuristicZero(s, goal, n - 1);
      assert InPlace(s, goal, n) <==>
        InPlace(s, goal, n - 1) && (s[n - 1] == Blank || IndexOf(goal, s[n - 1]) == n - 1);
    }
  }

  /** A state whose tiles other than the blank are pairwise different is at distance 0 from
      itself. */
  lemma HeuristicSelf(s: string)
    requires forall i, j :: 0 <= i < j < |s| && s[i] != Blank ==> s[i] != s[j]
    ensures Placeable(s, s) && Heuristic(s, s, |s|) == 0
  {
    forall i | 0 <= i < |s| && s[i] != Blank ensures IndexOf(s, s[i]) == i {
      assert forall k :: 0 <= k < i ==> s[..i][k] != s[i];
      IndexOfAt(s, s[i], i);
    }
    HeuristicZero(s, s, |s|);
  }

  /** manhattenDistancne(s, goal). */
  method Manhattan(s: string, goal: string) returns (distance: int)
    requires Placeable(s, goal)
    ensures distance == Heuristic(s, goal, |s|)
  {
    distance := 0;
    for idx := 0 to |s|
      invariant distance == Heuristic(s, goal, idx)
    {
      if s[idx] != Blank {
        var goalIdx := IndexOf(goal, s[idx]);
        var x1, y1 := idx / 3, idx % 3;
        var x2, y2 := goalIdx / 3, goalIdx % 3;
        distance := distance + Abs(x1 - x2) + Abs(y1 - y2);
      }
    }
  }

  /** Every entry of the heap is the logged entry its pending index names. */
  ghost predicate Queued(log: seq<(string, int)>, heap: seq<Entry3>, pending: seq<int>) {
    |pending| == |heap| &&
    forall j :: 0 <= j < |heap| ==>
      0 <= pending[j] < |log| && log[pending[j]] == (heap[j].1, heap[j].2)
  }

  /** Every logged entry other than busy and those still pending has been popped: it is not
      the goal and each of its moves leads into E. */
  ghost predicate Settled(log: seq<(string, int)>, pending: seq<int>, busy: int, goal: string,
                          E: set<string>) {
    forall i :: 0 <= i < |log| && i != busy && i !in pending ==>
      log[i].0 != goal && Expanded(log[i].0, E)
  }

  /** Removing entry k from the heap. */
  lemma QueuedPop(log: seq<(string, int)>, heap: seq<Entry3>, pending: seq<int>, k: int)
    requires Queued(log, heap, pending) && 0 <= k < |heap|
    ensures Queued(log, heap[..k] + heap[k + 1..], pending[..k] + pending[k + 1..])
  {
    var heap', pending' := heap[..k] + heap[k + 1..], pending[..k] + pending[k + 1..];
    forall j | 0 <= j < |heap'|
      ensures 0 <= pending'[j] < |log| && log[pending'[j]] == (heap'[j].1, heap'[j].2)
    {
      RemoveIndex(heap, k, j);
      RemoveIndex(pending, k, j);
    }
  }

  /** A value other than s[k] that occurs in s still occurs once s[k] is removed. */
  lemma RemoveKeeps(s: seq<int>, k: int, x: int)
    requires 0 <= k < |s| && x in s && x != s[k]
    ensures x in s[..k] + s[k + 1..]
  {
    var j :| 0 <= j < |s| && s[j] == x;
    RemoveIndex(s, k, if j < k then j else j - 1);
  }

  /** The entry popped at position k becomes the busy one. */
  lemma SettledPop(log: seq<(string, int)>, pending: seq<int>, k: int, goal: string, E: set<string>)
    requires Settled(log, pending, -1, goal, E) && 0 <= k < |pending|
    ensures Settled(log, pending[..k] + pending[k + 1..], pending[k], goal, E)
  {
    forall i | i in pending && i != pending[k] ensures i in pending[..k] + pending[k + 1..] {
      RemoveKeeps(pending, k, i);
    }
  }

  /** Pushing a state not visited before logs it and leaves it pending. */
  lemma Push(log: seq<(string, int)>, heap: seq<Entry3>, pending: seq<int>, busy: int,
             goal: string, E: set<string>, e: Entry3)
    requires Queued(log, heap, pending) && Settled(log, pending, busy, goal, E)
    ensures Queued(log + [(e.1, e.2)], heap + [e], pending + [|log|])
    ensures Settled(log + [(e.1, e.2)], pending + [|log|], busy, goal, E + {e.1})
  {
    var log', heap', pending' := log + [(e.1, e.2)], heap + [e], pending + [|log|];
    forall j | 0 <= j < |heap'|
      ensures 0 <= pending'[j] < |log'| && log'[pending'[j]] == (heap'[j].1, heap'[j].2)
    {
      if j < |heap| {
        assert heap'[j] == heap[j] && pending'[j] == pending[j] && log'[pending[j]] == log[pending[j]];
      }
    }
    assert pending'[|pending|] == |log|;
    forall i | 0 <= i < |log| ensures log'[i] == log[i] && (i in pending ==> i in pending') {
      if i in pending {
        var j :| 0 <= j < |pending| && pending[j] == i;
        assert pending'[j] == i;
      }
    }
  }

  /** Once the busy entry is expanded it is settled like the others. */
  lemma SettledDone(log: seq<(string, int)>, pending: seq<int>, busy: int, goal: string, E: set<string>)
    requires Settled(log, pending, busy, goal, E) && 0 <= busy < |log|
    requires log[busy].0 != goal && Expanded(log[busy].0, E)
    ensures Settled(log, pending, -1, goal, E)
  {
  }

  /** When nothing is pending, every logged state has been expanded without meeting the goal,
      so no path reaches the goal. */
  lemma GreedyExhausted(start: string, goal: string, log: seq<(string, int)>,
                        paths: seq<seq<Action>>, E: set<string>)
    requires |start| == 9 && Blank in start && Logged(start, Universe(start), log, paths, E)
    requires Settled(log, [], -1, goal, E)
    ensures forall p :: Run(start, p) != Some(goal)
  {
    LoggedClosed(start, log, paths, E);
    if goal in E {
      StatesMember(log, goal);
    }
  }

  /** The search state GBFS keeps between pushes: the log of pushed entries, the heap of those
      still pending, and every other entry but busy expanded into visited. */
  ghost predicate Frontier(start: string, goal: string, log: seq<(string, int)>,
                           paths: seq<seq<Action>>, E: set<string>, heap: seq<Entry3>,
                           pending: seq<int>, busy: int)
    requires |start| == 9
  {
    Logged(start, Universe(start), log, paths, E) && Queued(log, heap, pending) &&
    Settled(log, pending, busy, goal, E)
  }

  /** Pushing (h, x, d) for a state x first reached by a path q of d moves. */
  lemma PushState(start: string, goal: string, log: seq<(string, int)>, paths: seq<seq<Action>>,
                  E: set<string>, heap: seq<Entry3>, pending: seq<int>, busy: int,
                  x: string, q: seq<Action>, h: int, d: int)
    requires |start| == 9 && Frontier(start, goal, log, paths, E, heap, pending, busy)
    requires Run(start, q) == Some(x) && x !in E && |q| == d && 0 <= busy < |log|
    ensures Frontier(start, goal, log + [(x, d)], paths + [q], E + {x}, heap + [(h, x, d)],
                     pending + [|log|], busy)
    ensures (log + [(x, d)])[busy] == log[busy]
  {
    LogAppend(start, log, paths, E, x, q);
    Push(log, heap, pending, busy, goal, E, (h, x, d));
  }

  /** The for loop of GBFS: push every successor of t, popped with the given depth, that has not
      been visited. */
  method Expand(start: string, goal: string, t: string, depth: int, heap: seq<Entry3>,
                visited: set<string>, ghost log: seq<(string, int)>, ghost paths: seq<seq<Action>>,
                ghost pending: seq<int>, ghost busy: int)
      returns (heap': seq<Entry3>, visited': set<string>, ghost log': seq<(string, int)>,
               ghost paths': seq<seq<Action>>, ghost pending': seq<int>)
    requires |start| == 9 && Blank in start && Placeable(start, goal)
    requires 0 <= busy < |log| && log[busy] == (t, depth) && t != goal
    requires Frontier(start, goal, log, paths, visited, heap, pending, busy)
    ensures Frontier(start, goal, log', paths', visited', heap', pending', -1)
    ensures |log| <= |log'| && (|log'| == |log| ==> |heap'| == |heap|)
  {
    ghost var p := paths[busy];
    assert Run(start, p) == Some(t) && |p| == depth;
    BlankKept(start, t);
    var board, actions := Offers(t);
    heap', visited', log', paths', pending' := heap, visited, log, paths, pending;
    for n := 0 to |actions|
      invariant Frontier(start, goal, log', paths', visited', heap', pending', busy)
      invariant |log| <= |log'| && (|log'| == |log| ==> heap' == heap)
      invariant log'[busy] == log[busy]
      invariant Tried(t, actions, n, visited')
    {
      ghost var before := visited';
      RunStep(start, p, t, actions[n]);
      var newState := Successor(t, board, actions[n]);
      if newState !in visited' {
        PlaceableKept(start, newState, goal);
        var h := Manhattan(newState, goal);
        PushState(start, goal, log', paths', visited', heap', pending', busy, newState,
                  p + [actions[n]], h, depth + 1);
        visited' := visited' + {newState};
        heap' := heap' + [(h, newState, depth + 1)];
        pending' := pending' + [|log'|];
        log', paths' := log' + [(newState, depth + 1)], paths' + [p + [actions[n]]];
      }
      TriedStep(t, actions, n, before, visited');
    }
    TriedAll(t, visited');
    SettledDone(log', pending', busy, goal, visited');
  }

  /** GBFS: Some(0) when the start is the goal; Some(d) with a path of d offered moves from
      start to goal; None once the frontier is empty, and then no path reaches the goal. log is
      every (state, depth) pair in the order it was pushed: no state is pushed twice. */
  method Gbfs(startState: string, goalState: string)
      returns (result: Option<int>, ghost path: seq<Action>, ghost log: seq<(string, int)>)
    requires |startState| == 9 && Blank in startState && Placeable(startState, goalState)
    ensures startState == goalState ==> result == Some(0)
    ensures result.Some? ==> Run(startState, path) == Some(goalState) && result.value == |path|
    ensures result.None? ==> forall p :: Run(startState, p) != Some(goalState)
    ensures |log| > 0 && log[0] == (startState, 0) && DistinctStates(log)
  {
    log := [(startState, 0)];
    if startState == goalState {
      return Some(0), [], log;
    }
    var h := Manhattan(startState, goalState);
    var frontier: seq<Entry3> := [(h, startState, 0)];
    var visited := {startState};
    ghost var paths: seq<seq<Action>> := [[]];
    ghost var pending := [0];
    ghost var U := Universe(startState);
    LogStart(startState);
    SubsetCard(visited, U);
    while |frontier| > 0
      invariant Logged(startState, U, log, paths, visited) && |visited| <= |U|
      invariant Queued(log, frontier, pending) && Settled(log, pending, -1, goalState, visited)
      decreases |U| - |log|, |frontier|
    {
      var e, rest, k := PopMin3(frontier);
      var initState, depth := e.1, e.2;
      ghost var busy := pending[k];
      if initState == goalState {
        StatesCard(log);
        return Some(depth), paths[busy], log;
      }
      QueuedPop(log, frontier, pending, k);
      SettledPop(log, pending, k, goalState, visited);
      assert Frontier(startState, goalState, log, paths, visited, rest, pending[..k] + pending[k + 1..], busy);
      frontier, visited, log, paths, pending :=
        Expand(startState, goalState, initState, depth, rest, visited, log, paths,
               pending[..k] + pending[k + 1..], busy);
      SubsetCard(visited, U);
    }
    GreedyExhausted(startState, goalState, log, paths, visited);
    StatesCard(log);
    return None, [], log;
  }
}
