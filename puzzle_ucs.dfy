/** UCS(startState, goalState) of UCS.py: uniform-cost search whose heapq frontier pops the
    least (cost, state) pair. A popped state already recorded in visited at a cost no higher
    is skipped; otherwise its cost is recorded, and unless it is the goal it is expanded,
    pushing every successor that is unrecorded or recorded at a higher cost. */
module UniformCost {
  import opened Optional
  import opened Sets
  import opened EightPuzzle
  import opened PuzzleSearch
  import opened PyHeap

  /** actionCost: UP costs 5, DOWN, LEFT and RIGHT cost 1. */
  function ActionCost(a: Action): (r: int)
    ensures 1 <= r <= 5 && (r == 5 <==> a == Up)
  {
    match a
    case Up => 5
    case Down => 1
    case Left => 1
    case Right => 1
  }

  /** The cost of a path: the sum of actionCost over its moves. */
  function PathCost(path: seq<Action>): (r: int)
    ensures |path| <= r <= 5 * |path|
    decreases |path|
  {
    if path == [] then 0 else PathCost(path[..|path| - 1]) + ActionCost(path[|path| - 1])
  }

  /** One more move adds its actionCost, as newCost = moveCost + cost does. */
  lemma PathCostStep(path: seq<Action>, a: Action)
    ensures PathCost(path + [a]) == PathCost(path) + ActionCost(a)
  {
    var q := path + [a];
    assert q[..|q| - 1] == path && q[|q| - 1] == a;
  }

  /** The states on the heap. */
  ghost function HeapStates(heap: seq<Entry2>): (r: set<string>)
    ensures forall j :: 0 <= j < |heap| ==> heap[j].1 in r
    decreases |heap|
  {
    if heap == [] then {} else HeapStates(heap[..|heap| - 1]) + {heap[|heap| - 1].1}
  }

  lemma {:induction false} HeapStatesMember(heap: seq<Entry2>, x: string)
    requires x in HeapStates(heap)
    ensures exists j :: 0 <= j < |heap| && heap[j].1 == x
    decreases |heap|
  {
    if heap[|heap| - 1].1 != x {
      HeapStatesMember(heap[..|heap| - 1], x);
      var j :| 0 <= j < |heap| - 1 && heap[..|heap| - 1][j].1 == x;
      assert heap[j].1 == x;
    }
  }

  /** Every state the search has met: recorded in visited or waiting on the heap. */
  ghost function Seen(visited: map<string, int>, heap: seq<Entry2>): set<string> {
    visited.Keys + HeapStates(heap)
  }

  /** Every heap entry is a state reached from start by a path of its cost, no cheaper than
      floor. */
  ghost predicate Priced(start: string, heap: seq<Entry2>, hpaths: seq<seq<Action>>, floor: int)
    requires |start| == 9
  {
    |hpaths| == |heap| &&
    forall j :: 0 <= j < |heap| ==>
      Run(start, hpaths[j]) == Some(heap[j].1) && PathCost(hpaths[j]) == heap[j].0 && floor <= heap[j].0
  }

  /** Every entry of log is a state reached from start by a path whose cost is the entry's. */
  ghost predicate CostWitnessed(start: string, log: seq<(string, int)>, paths: seq<seq<Action>>)
    requires |start| == 9
  {
    |paths| == |log| &&
    forall i :: 0 <= i < |log| ==> Run(start, paths[i]) == Some(log[i].0) && PathCost(paths[i]) == log[i].1
  }

  /** Every entry of log is recorded in visited at its cost, is not the goal, and costs no more
      than floor. */
  ghost predicate RecordedAt(goal: string, visited: map<string, int>, log: seq<(string, int)>, floor: int) {
    forall i :: 0 <= i < |log| ==>
      log[i].0 in visited && visited[log[i].0] == log[i].1 && log[i].0 != goal && log[i].1 <= floor
  }

  /** expanded lists the recorded states in the order they were expanded, with their recorded
      costs: each is reached from start by a path of that cost, is not the goal, costs no more
      than floor, and has each of its moves leading into S; visited records nothing else. */
  ghost predicate Recorded(start: string, goal: string, visited: map<string, int>,
                           expanded: seq<(string, int)>, epaths: seq<seq<Action>>, floor: int,
                           S: set<string>)
    requires |start| == 9
  {
    CostWitnessed(start, expanded, epaths) && RecordedAt(goal, visited, expanded, floor) &&
    States(expanded) == visited.Keys && |visited.Keys| == |expanded| &&
    Nondecreasing(expanded) &&
    ExpandedBefore(expanded, |expanded|, S)
  }

  /** A state recorded in visited is recorded at a cost no higher than floor. */
  lemma RecordedCost(start: string, goal: string, visited: map<string, int>,
                     expanded: seq<(string, int)>, epaths: seq<seq<Action>>, floor: int,
                     S: set<string>, s: string)
    requires |start| == 9 && Recorded(start, goal, visited, expanded, epaths, floor, S)
    requires s in visited
    ensures visited[s] <= floor
  {
    StatesMember(expanded, s);
  }

  /** Removing entry k keeps the other states on the heap. */
  lemma HeapStatesPop(heap: seq<Entry2>, k: int)
    requires 0 <= k < |heap|
    ensures HeapStates(heap) == HeapStates(heap[..k] + heap[k + 1..]) + {heap[k].1}
  {
    var rest := heap[..k] + heap[k + 1..];
    forall x | x in HeapStates(heap) ensures x in HeapStates(rest) + {heap[k].1} {
      HeapStatesMember(heap, x);
      var j :| 0 <= j < |heap| && heap[j].1 == x;
      if j != k {
        var i := if j < k then j else j - 1;
        RemoveIndex(heap, k, i);
      }
    }
    forall x | x in HeapStates(rest) ensures x in HeapStates(heap) {
      HeapStatesMember(rest, x);
      var j :| 0 <= j < |rest| && rest[j].1 == x;
      RemoveIndex(heap, k, j);
    }
  }

  /** heappop takes an entry of least cost, so every other entry costs at least as much: the
      popped cost becomes the new floor. */
  lemma PricedPop(start: string, heap: seq<Entry2>, hpaths: seq<seq<Action>>, floor: int, k: int)
    requires |start| == 9 && 0 <= k < |heap| && Priced(start, heap, hpaths, floor)
    requires forall i :: 0 <= i < |heap| ==> heap[k].0 <= heap[i].0
    ensures floor <= heap[k].0
    ensures Priced(start, heap[..k] + heap[k + 1..], hpaths[..k] + hpaths[k + 1..], heap[k].0)
  {
    var rest, rpaths := heap[..k] + heap[k + 1..], hpaths[..k] + hpaths[k + 1..];
    forall j | 0 <= j < |rest|
      ensures Run(start, rpaths[j]) == Some(rest[j].1) && PathCost(rpaths[j]) == rest[j].0 &&
              heap[k].0 <= rest[j].0
    {
      RemoveIndex(heap, k, j);
      RemoveIndex(hpaths, k, j);
    }
  }

  /** A higher floor. */
  lemma RecordedRaise(start: string, goal: string, visited: map<string, int>,
                      expanded: seq<(string, int)>, epaths: seq<seq<Action>>, floor: int,
                      floor': int, S: set<string>)
    requires |start| == 9 && Recorded(start, goal, visited, expanded, epaths, floor, S)
    requires floor <= floor'
    ensures Recorded(start, goal, visited, expanded, epaths, floor', S)
  {
  }

  /** Pushing (newCost, x) for a state x reached by a path q of cost newCost. */
  lemma PushPriced(start: string, heap: seq<Entry2>, hpaths: seq<seq<Action>>, floor: int,
                   x: string, q: seq<Action>, newCost: int)
    requires |start| == 9 && Priced(start, heap, hpaths, floor)
    requires Run(start, q) == Some(x) && PathCost(q) == newCost && floor <= newCost
    ensures Priced(start, heap + [(newCost, x)], hpaths + [q], floor)
    ensures HeapStates(heap + [(newCost, x)]) == HeapStates(heap) + {x}
  {
    var heap', hpaths' := heap + [(newCost, x)], hpaths + [q];
    forall j | 0 <= j < |heap|
      ensures Run(start, hpaths'[j]) == Some(heap'[j].1) && PathCost(hpaths'[j]) == heap'[j].0 &&
              floor <= heap'[j].0
    {
      assert heap'[j] == heap[j] && hpaths'[j] == hpaths[j];
    }
    assert heap'[..|heap|] == heap;
  }

  /** Every state expanded into S is expanded into a larger set. */
  lemma RecordedGrow(start: string, goal: string, visited: map<string, int>,
                     expanded: seq<(string, int)>, epaths: seq<seq<Action>>, floor: int,
                     S: set<string>, S': set<string>)
    requires |start| == 9 && Recorded(start, goal, visited, expanded, epaths, floor, S) && S <= S'
    ensures Recorded(start, goal, visited, expanded, epaths, floor, S')
  {
    forall i | 0 <= i < |expanded| ensures Expanded(expanded[i].0, S') {
      assert Expanded(expanded[i].0, S);
    }
  }

  lemma CostWitnessedAppend(start: string, log: seq<(string, int)>, paths: seq<seq<Action>>,
                            e: (string, int), q: seq<Action>)
    requires |start| == 9 && CostWitnessed(start, log, paths)
    requires Run(start, q) == Some(e.0) && PathCost(q) == e.1
    ensures CostWitnessed(start, log + [e], paths + [q])
  {
    var log', paths' := log + [e], paths + [q];
    forall i | 0 <= i < |log| ensures Run(start, paths'[i]) == Some(log'[i].0) && PathCost(paths'[i]) == log'[i].1 {
      assert log'[i] == log[i] && paths'[i] == paths[i];
    }
  }

  lemma RecordedAtAppend(goal: string, visited: map<string, int>, log: seq<(string, int)>,
                         floor: int, s: string, c: int)
    requires RecordedAt(goal, visited, log, floor) && s !in visited && s != goal && floor <= c
    ensures RecordedAt(goal, visited[s := c], log + [(s, c)], c)
  {
    var log' := log + [(s, c)];
    forall i | 0 <= i < |log| ensures log'[i] == log[i] && log[i].0 != s {
    }
  }

  /** Recording s at cost c, no cheaper than anything recorded before, once it is expanded. */
  lemma RecordState(start: string, goal: string, visited: map<string, int>,
                    expanded: seq<(string, int)>, epaths: seq<seq<Action>>, S: set<string>,
                    s: string, c: int, p: seq<Action>)
    requires |start| == 9 && Recorded(start, goal, visited, expanded, epaths, c, S)
    requires s !in visited && s != goal && Run(start, p) == Some(s) && PathCost(p) == c
    requires Expanded(s, S)
    ensures Recorded(start, goal, visited[s := c], expanded + [(s, c)], epaths + [p], c, S)
  {
    var visited', expanded' := visited[s := c], expanded + [(s, c)];
    assert expanded'[..|expanded|] == expanded;
    assert visited'.Keys == visited.Keys + {s};
    CostWitnessedAppend(start, expanded, epaths, (s, c), p);
    RecordedAtAppend(goal, visited, expanded, c, s, c);
    NondecreasingAppend(expanded, (s, c));
    ExpandedAppend(expanded, S, (s, c));
  }

  /** Once the heap is empty every recorded state has been expanded into the recorded states,
      and none is the goal: no path reaches the goal. */
  lemma UniformExhausted(start: string, goal: string, visited: map<string, int>,
                         expanded: seq<(string, int)>, epaths: seq<seq<Action>>, floor: int)
    requires |start| == 9 && Blank in start
    requires Recorded(start, goal, visited, expanded, epaths, floor, visited.Keys)
    requires start in visited
    ensures forall p :: Run(start, p) != Some(goal)
  {
    var E := visited.Keys;
    forall t | t in E ensures |t| == 9 && multiset(t) == multiset(start) && Expanded(t, E) {
      StatesMember(expanded, t);
      var i :| 0 <= i < |expanded| && expanded[i].0 == t;
      assert Run(start, epaths[i]) == Some(t);
    }
    forall q ensures Run(start, q) != Some(goal) {
      ReachClosed(start, E, q);
      if Run(start, q) == Some(goal) {
        StatesMember(expanded, goal);
      }
    }
  }

  /** What the for loop of UCS keeps while it expands s at cost c: the heap stays priced no
      lower than c, the states met only grow from those met before the loop (heap0), and the
      states expanded before s stay expanded into them. */
  ghost predicate Growing(start: string, goal: string, visited0: map<string, int>,
                          visited: map<string, int>, expanded: seq<(string, int)>,
                          epaths: seq<seq<Action>>, c: int, heap0: seq<Entry2>, heap: seq<Entry2>,
                          hpaths: seq<seq<Action>>)
    requires |start| == 9
  {
    Priced(start, heap, hpaths, c) &&
    Recorded(start, goal, visited0, expanded, epaths, c, Seen(visited, heap)) &&
    Seen(visited, heap0) <= Seen(visited, heap)
  }

  /** Pushing (newCost, x) for a state x reached by a path q of cost newCost >= c. */
  lemma PushStep(start: string, goal: string, visited0: map<string, int>,
                 visited: map<string, int>, expanded: seq<(string, int)>,
                 epaths: seq<seq<Action>>, c: int, heap0: seq<Entry2>, heap: seq<Entry2>,
                 hpaths: seq<seq<Action>>, x: string, q: seq<Action>, newCost: int)
    requires |start| == 9
    requires Growing(start, goal, visited0, visited, expanded, epaths, c, heap0, heap, hpaths)
    requires Run(start, q) == Some(x) && PathCost(q) == newCost && c <= newCost
    ensures Growing(start, goal, visited0, visited, expanded, epaths, c, heap0,
                    heap + [(newCost, x)], hpaths + [q])
  {
    PushPriced(start, heap, hpaths, c, x, q, newCost);
    RecordedGrow(start, goal, visited0, expanded, epaths, c, Seen(visited, heap),
                 Seen(visited, heap) + {x});
  }

  /** The for loop of UCS: push (cost + actionCost(a), successor) for every offered action a
      whose successor is unrecorded or recorded at a higher cost. visited already records s at
      cost c, and s is not the goal. */
  method Expand(start: string, goal: string, s: string, c: int, ghost p: seq<Action>,
                heap: seq<Entry2>, visited: map<string, int>, ghost hpaths: seq<seq<Action>>,
                ghost visited0: map<string, int>, ghost expanded: seq<(string, int)>,
                ghost epaths: seq<seq<Action>>)
      returns (heap': seq<Entry2>, ghost hpaths': seq<seq<Action>>)
    requires |start| == 9 && Blank in start
    requires Run(start, p) == Some(s) && PathCost(p) == c && s != goal
    requires s !in visited0 && visited == visited0[s := c]
    requires Growing(start, goal, visited0, visited, expanded, epaths, c, heap, heap, hpaths)
    requires start in Seen(visited, heap)
    ensures Searching(start, goal, visited, heap', hpaths', expanded + [(s, c)], epaths + [p], c)
  {
    BlankKept(start, s);
    var board, actions := Offers(s);
    heap', hpaths' := heap, hpaths;
    for n := 0 to |actions|
      invariant Growing(start, goal, visited0, visited, expanded, epaths, c, heap, heap', hpaths')
      invariant Tried(s, actions, n, Seen(visited, heap'))
    {
      ghost var before := Seen(visited, heap');
      RunStep(start, p, s, actions[n]);
      var newState := Successor(s, board, actions[n]);
      var moveCost := ActionCost(actions[n]);
      var newCost := moveCost + c;
      if newState !in visited || newCost < visited[newState] {
        PathCostStep(p, actions[n]);
        PushStep(start, goal, visited0, visited, expanded, epaths, c, heap, heap', hpaths',
                 newState, p + [actions[n]], newCost);
        heap', hpaths' := heap' + [(newCost, newState)], hpaths' + [p + [actions[n]]];
      }
      TriedStep(s, actions, n, before, Seen(visited, heap'));
    }
    TriedAll(s, Seen(visited, heap'));
    RecordState(start, goal, visited0, expanded, epaths, Seen(visited, heap'), s, c, p);
  }

  /** What holds between two pops of UCS: the heap is priced no lower than floor, the
      recorded states are expanded into the states met, and start has been met. */
  ghost predicate Searching(start: string, goal: string, visited: map<string, int>,
                            heap: seq<Entry2>, hpaths: seq<seq<Action>>,
                            expanded: seq<(string, int)>, epaths: seq<seq<Action>>, floor: int)
    requires |start| == 9
  {
    Priced(start, heap, hpaths, floor) &&
    Recorded(start, goal, visited, expanded, epaths, floor, Seen(visited, heap)) &&
    start in Seen(visited, heap)
  }

  /** heappop of the least-cost entry k: its cost becomes the floor, and its state, if
      recorded, is recorded no higher. */
  lemma PopState(start: string, goal: string, visited: map<string, int>, heap: seq<Entry2>,
                 hpaths: seq<seq<Action>>, expanded: seq<(string, int)>, epaths: seq<seq<Action>>,
                 floor: int, k: int)
    requires |start| == 9 && Searching(start, goal, visited, heap, hpaths, expanded, epaths, floor)
    requires 0 <= k < |heap| && forall i :: 0 <= i < |heap| ==> heap[k].0 <= heap[i].0
    ensures Run(start, hpaths[k]) == Some(heap[k].1) && PathCost(hpaths[k]) == heap[k].0
    ensures heap[k].1 in visited ==> visited[heap[k].1] <= heap[k].0
    ensures Priced(start, heap[..k] + heap[k + 1..], hpaths[..k] + hpaths[k + 1..], heap[k].0)
    ensures Recorded(start, goal, visited, expanded, epaths, heap[k].0, Seen(visited, heap))
    ensures Seen(visited, heap) == Seen(visited, heap[..k] + heap[k + 1..]) + {heap[k].1}
  {
    PricedPop(start, heap, hpaths, floor, k);
    HeapStatesPop(heap, k);
    RecordedRaise(start, goal, visited, expanded, epaths, floor, heap[k].0, Seen(visited, heap));
    if heap[k].1 in visited {
      RecordedCost(start, goal, visited, expanded, epaths, heap[k].0, Seen(visited, heap), heap[k].1);
    }
  }

  /** A popped state already recorded is skipped: the search goes on with the rest of the heap. */
  lemma Skip(start: string, goal: string, visited: map<string, int>, heap: seq<Entry2>,
             rest: seq<Entry2>, rpaths: seq<seq<Action>>, expanded: seq<(string, int)>,
             epaths: seq<seq<Action>>, s: string, c: int)
    requires |start| == 9 && s in visited && Seen(visited, heap) == Seen(visited, rest) + {s}
    requires start in Seen(visited, heap) && Priced(start, rest, rpaths, c)
    requires Recorded(start, goal, visited, expanded, epaths, c, Seen(visited, heap))
    ensures Searching(start, goal, visited, rest, rpaths, expanded, epaths, c)
  {
    assert Seen(visited, heap) == Seen(visited, rest);
  }

  /** A popped state not recorded before is recorded: the states met stay the same. */
  lemma Record(start: string, goal: string, visited: map<string, int>, heap: seq<Entry2>,
               rest: seq<Entry2>, rpaths: seq<seq<Action>>, expanded: seq<(string, int)>,
               epaths: seq<seq<Action>>, s: string, c: int)
    requires |start| == 9 && s !in visited && Seen(visited, heap) == Seen(visited, rest) + {s}
    requires start in Seen(visited, heap) && Priced(start, rest, rpaths, c)
    requires Recorded(start, goal, visited, expanded, epaths, c, Seen(visited, heap))
    ensures Growing(start, goal, visited, visited[s := c], expanded, epaths, c, rest, rest, rpaths)
    ensures start in Seen(visited[s := c], rest)
  {
    assert visited[s := c].Keys == visited.Keys + {s};
    assert Seen(visited[s := c], rest) == Seen(visited, heap);
  }

  /** UCS starts with start on the heap at cost 0 and nothing recorded. */
  lemma SearchStart(start: string, goal: string)
    requires |start| == 9
    ensures Searching(start, goal, map[], [(0, start)], [[]], [], [], 0)
  {
    assert HeapStates([(0, start)]) == {start};
  }

  /** What the result of UCS says about the states expanded so far: each is expanded once,
      none is the goal, they are expanded in order of cost, and each costs at most floor. */
  lemma ExpandedShape(start: string, goal: string, visited: map<string, int>, heap: seq<Entry2>,
                      hpaths: seq<seq<Action>>, expanded: seq<(string, int)>,
                      epaths: seq<seq<Action>>, floor: int)
    requires |start| == 9 && Searching(start, goal, visited, heap, hpaths, expanded, epaths, floor)
    ensures DistinctStates(expanded) && Nondecreasing(expanded) && |expanded| <= |Universe(start)|
    ensures forall i :: 0 <= i < |expanded| ==> expanded[i].0 != goal && expanded[i].1 <= floor
  {
    StatesCard(expanded);
    forall t | t in visited ensures t in Universe(start) {
      StatesMember(expanded, t);
      var i :| 0 <= i < |expanded| && expanded[i].0 == t;
      assert Run(start, epaths[i]) == Some(t);
      InUniverse(start, t);
    }
    SubsetCard(visited.Keys, Universe(start));
  }

  /** Once the heap is empty, no path reaches the goal. */
  lemma SearchExhausted(start: string, goal: string, visited: map<string, int>,
                        hpaths: seq<seq<Action>>, expanded: seq<(string, int)>,
                        epaths: seq<seq<Action>>, floor: int)
    requires |start| == 9 && Blank in start
    requires Searching(start, goal, visited, [], hpaths, expanded, epaths, floor)
    ensures forall p :: Run(start, p) != Some(goal)
  {
    assert Seen(visited, []) == visited.Keys;
    UniformExhausted(start, goal, visited, expanded, epaths, floor);
  }

  /** One turn of the while loop of UCS: pop the least entry; skip it when its state is already
      recorded no higher, otherwise record it and either stop at the goal, returning its cost,
      or expand it. */
  method Visit(start: string, goal: string, frontier: seq<Entry2>, visited: map<string, int>,
               expansion: int, ghost hpaths: seq<seq<Action>>, ghost expanded: seq<(string, int)>,
               ghost epaths: seq<seq<Action>>, ghost floor: int)
      returns (found: Option<int>, frontier': seq<Entry2>, visited': map<string, int>,
               expansion': int, ghost hpaths': seq<seq<Action>>,
               ghost expanded': seq<(string, int)>, ghost epaths': seq<seq<Action>>,
               ghost floor': int, ghost path: seq<Action>)
    requires |start| == 9 && Blank in start && |frontier| > 0
    requires Searching(start, goal, visited, frontier, hpaths, expanded, epaths, floor)
    ensures found.Some? ==>
      Run(start, path) == Some(goal) && PathCost(path) == found.value &&
      expansion' == expansion && expanded' == expanded &&
      RecordedAt(goal, visited, expanded, found.value)
    ensures found.None? ==>
      Searching(start, goal, visited', frontier', hpaths', expanded', epaths', floor') &&
      expansion' - expansion == |expanded'| - |expanded| &&
      ((expanded' == expanded && |frontier'| < |frontier|) || |expanded'| == |expanded| + 1)
  {
    var e, rest, k := PopMin2(frontier);
    PopState(start, goal, visited, frontier, hpaths, expanded, epaths, floor, k);
    ghost var p, rpaths := hpaths[k], hpaths[..k] + hpaths[k + 1..];
    var cost, initState := e.0, e.1;
    if initState in visited && visited[initState] <= cost {
      Skip(start, goal, visited, frontier, rest, rpaths, expanded, epaths, initState, cost);
      return None, rest, visited, expansion, rpaths, expanded, epaths, cost, [];
    }
    Record(start, goal, visited, frontier, rest, rpaths, expanded, epaths, initState, cost);
    visited' := visited[initState := cost];
    if initState == goal {
      return Some(cost), frontier, visited', expansion, hpaths, expanded, epaths, floor, p;
    }
    expansion' := expansion + 1;
    frontier', hpaths' :=
      Expand(start, goal, initState, cost, p, rest, visited', rpaths, visited, expanded, epaths);
    found, expanded', epaths', floor', path := None, expanded + [(initState, cost)], epaths + [p], cost, [];
  }

  /** UCS: (Some(0), 0) when the start is the goal; (Some(c), expansion) with a path from start
      to goal of cost c, no cheaper than any state expanded before; (None, expansion) once the
      heap is empty, and then no path reaches the goal. expanded lists the expanded states with
      their costs: expansion counts them, no state is expanded twice, none is the goal, and
      they are expanded in order of cost. */
  method Ucs(startState: string, goalState: string)
      returns (cost: Option<int>, expansion: int, ghost path: seq<Action>,
               ghost expanded: seq<(string, int)>)
    requires |startState| == 9 && Blank in startState
    ensures startState == goalState ==> cost == Some(0) && expansion == 0
    ensures cost.Some? ==>
      Run(startState, path) == Some(goalState) && PathCost(path) == cost.value &&
      forall i :: 0 <= i < |expanded| ==> expanded[i].1 <= cost.value
    ensures cost.None? ==> forall p :: Run(startState, p) != Some(goalState)
    ensures expansion == |expanded| && DistinctStates(expanded) && Nondecreasing(expanded)
    ensures forall i :: 0 <= i < |expanded| ==> expanded[i].0 != goalState
  {
    expanded := [];
    if startState == goalState {
      return Some(0), 0, [], expanded;
    }
    var frontier: seq<Entry2> := [(0, startState)];
    var visited: map<string, int> := map[];
    expansion := 0;
    ghost var hpaths: seq<seq<Action>> := [[]];
    ghost var epaths: seq<seq<Action>> := [];
    ghost var floor := 0;
    SearchStart(startState, goalState);
    while |frontier| > 0
      invariant Searching(startState, goalState, visited, frontier, hpaths, expanded, epaths, floor)
      invariant expansion == |expanded|
      decreases |Universe(startState)| - |expanded|, |frontier|
    {
      ExpandedShape(startState, goalState, visited, frontier, hpaths, expanded, epaths, floor);
      var found;
      found, frontier, visited, expansion, hpaths, expanded, epaths, floor, path :=
        Visit(startState, goalState, frontier, visited, expansion, hpaths, expanded, epaths, floor);
      if found.Some? {
        return found, expansion, path, expanded;
      }
    }
    SearchExhausted(startState, goalState, visited, hpaths, expanded, epaths, floor);
    ExpandedShape(startState, goalState, visited, frontier, hpaths, expanded, epaths, floor);
    return None, expansion, [], expanded;
  }
}
