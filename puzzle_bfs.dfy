/** BFS(initBoard, goalBoard) of BFS.py: a FIFO frontier of (state, depth) pairs and an
    explored set that a state joins when it is enqueued; the goal test runs on every newly
    generated state. */
module BreadthFirst {
  import opened Optional
  import opened Sets
  import opened EightPuzzle
  import opened PuzzleSearch

  /** Nondecreasing, one adjacent pair at a time. */
  ghost predicate Stepwise(log: seq<(string, int)>)
    decreases |log|
  {
    |log| <= 1 || (log[|log| - 2].1 <= log[|log| - 1].1 && Stepwise(log[..|log| - 1]))
  }

  lemma {:induction false} StepwiseSorted(log: seq<(string, int)>)
    requires Stepwise(log)
    ensures Nondecreasing(log)
    decreases |log|
  {
    if |log| > 1 {
      var init := log[..|log| - 1];
      StepwiseSorted(init);
      forall i, j | 0 <= i < j < |log| ensures log[i].1 <= log[j].1 {
        if j < |log| - 1 {
          assert log[i] == init[i] && log[j] == init[j];
        } else if i < |log| - 2 {
          assert log[i] == init[i] && log[|log| - 2] == init[|log| - 2];
        }
      }
    }
  }

  /** A BFS that has enqueued the entries of log: a logged search that has not met the goal,
      with depths that never decrease. */
  ghost predicate Searched(start: string, goal: string, U: set<string>, log: seq<(string, int)>,
                           paths: seq<seq<Action>>, explored: set<string>)
    requires |start| == 9
  {
    Logged(start, U, log, paths, explored) && goal !in explored && Stepwise(log)
  }

  /** The FIFO frontier log[head..] holds depth lvl up to mid and depth lvl + 1 from there on,
      and no entry is deeper than lvl + 1. */
  ghost predicate Levels(log: seq<(string, int)>, head: int, mid: int, lvl: int) {
    0 <= head <= mid <= |log| &&
    (forall i :: 0 <= i < |log| ==> log[i].1 <= lvl + 1) &&
    (forall i :: head <= i < mid ==> log[i].1 == lvl) &&
    (forall i :: mid <= i < |log| ==> log[i].1 == lvl + 1)
  }

  /** Enqueueing a state first reached by a path at least as long as every logged depth keeps
      a search valid. */
  lemma Enqueue(start: string, goal: string, log: seq<(string, int)>, paths: seq<seq<Action>>,
                explored: set<string>, x: string, q: seq<Action>)
    requires |start| == 9 && Searched(start, goal, Universe(start), log, paths, explored)
    requires Run(start, q) == Some(x) && log[|log| - 1].1 <= |q| && x != goal && x !in explored
    ensures Searched(start, goal, Universe(start), log + [(x, |q|)], paths + [q], explored + {x})
  {
    LogAppend(start, log, paths, explored, x, q);
    assert (log + [(x, |q|)])[..|log|] == log;
  }

  /** An entry of depth lvl + 1 joins the back of the frontier. */
  lemma LevelsAppend(log: seq<(string, int)>, head: int, mid: int, lvl: int, e: (string, int))
    requires Levels(log, head, mid, lvl) && e.1 == lvl + 1
    ensures Levels(log + [e], head, mid, lvl)
  {
    var log' := log + [e];
    forall i | 0 <= i < |log'| ensures log'[i].1 <= lvl + 1 && (mid <= i ==> log'[i].1 == lvl + 1) {
      if i < |log| {
        assert log'[i] == log[i];
      }
    }
    forall i | head <= i < mid ensures log'[i].1 == lvl {
      assert log'[i] == log[i];
    }
  }

  /** The FIFO frontier is the unexpanded tail of the log, also once an entry joins both. */
  lemma FrontierAppend(log: seq<(string, int)>, head: int, frontier: seq<(string, int)>, e: (string, int))
    requires 0 < head <= |log| && frontier == log[head..]
    ensures frontier + [e] == (log + [e])[head..] && (log + [e])[head - 1] == log[head - 1]
  {
  }

  /** Growing E and the log keeps the states before h expanded. */
  lemma ExpandedGrow(log: seq<(string, int)>, h: int, E: set<string>, e: (string, int))
    requires h <= |log| && ExpandedBefore(log, h, E)
    ensures ExpandedBefore(log + [e], h, E + {e.0})
  {
    forall i | 0 <= i < h ensures Expanded((log + [e])[i].0, E + {e.0}) {
      assert (log + [e])[i] == log[i];
    }
  }

  lemma ExpandedNext(log: seq<(string, int)>, h: int, E: set<string>)
    requires 0 < h <= |log| && ExpandedBefore(log, h - 1, E) && Expanded(log[h - 1].0, E)
    ensures ExpandedBefore(log, h, E)
  {
  }

  /** The inner loop of BFS: every action offered in toExplore, in order; a successor equal to
      the goal ends the search, one not yet explored is enqueued at depth d + 1. */
  method Expand(ghost start: string, goalState: string, toExplore: string, d: int, ghost p: seq<Action>,
                frontier: seq<(string, int)>, explored: set<string>,
                ghost log: seq<(string, int)>, ghost paths: seq<seq<Action>>, ghost head: int,
                ghost mid: int)
      returns (found: bool, ghost path: seq<Action>, newFrontier: seq<(string, int)>,
               newExplored: set<string>, ghost newLog: seq<(string, int)>,
               ghost newPaths: seq<seq<Action>>)
    requires |start| == 9 && Searched(start, goalState, Universe(start), log, paths, explored)
    requires 0 < head <= |log| && frontier == log[head..] && log[head - 1].0 == toExplore
    requires Run(start, p) == Some(toExplore) && |p| == d && Blank in toExplore
    requires Levels(log, head, mid, d)
    requires ExpandedBefore(log, head - 1, explored)
    ensures found ==> Run(start, path) == Some(goalState) && |path| == d + 1
    ensures Searched(start, goalState, Universe(start), newLog, newPaths, newExplored)
    ensures head <= |newLog| && newFrontier == newLog[head..] && Levels(newLog, head, mid, d)
    ensures !found ==> ExpandedBefore(newLog, head, newExplored)
  {
    var currBoard, actions := Offers(toExplore);
    newFrontier, newExplored, newLog, newPaths := frontier, explored, log, paths;
    for n := 0 to |actions|
      invariant Searched(start, goalState, Universe(start), newLog, newPaths, newExplored)
      invariant head <= |newLog| && newFrontier == newLog[head..] && newLog[head - 1] == log[head - 1]
      invariant Levels(newLog, head, mid, d)
      invariant ExpandedBefore(newLog, head - 1, newExplored)
      invariant Tried(toExplore, actions, n, newExplored)
    {
      var a := actions[n];
      ghost var before := newExplored;
      RunStep(start, p, toExplore, a);
      var newState := Successor(toExplore, currBoard, a);
      if newState == goalState {
        return true, p + [a], newFrontier, newExplored, newLog, newPaths;
      }
      if newState !in newExplored {
        Enqueue(start, goalState, newLog, newPaths, newExplored, newState, p + [a]);
        LevelsAppend(newLog, head, mid, d, (newState, d + 1));
        ExpandedGrow(newLog, head - 1, newExplored, (newState, d + 1));
        FrontierAppend(newLog, head, newFrontier, (newState, d + 1));
        newExplored := newExplored + {newState};
        newFrontier := newFrontier + [(newState, d + 1)];
        newLog := newLog + [(newState, d + 1)];
        newPaths := newPaths + [p + [a]];
      }
      TriedStep(toExplore, actions, n, before, newExplored);
    }
    found, path := false, [];
    TriedAll(toExplore, newExplored);
    ExpandedNext(newLog, head, newExplored);
  }

  /** The entry at the head of the frontier is witnessed by a path and holds a blank. */
  lemma Popped(start: string, goal: string, log: seq<(string, int)>, paths: seq<seq<Action>>,
               explored: set<string>, head: int)
    requires |start| == 9 && Blank in start && Searched(start, goal, Universe(start), log, paths, explored)
    requires 0 <= head < |log|
    ensures Run(start, paths[head]) == Some(log[head].0) && |paths[head]| == log[head].1
    ensures Blank in log[head].0
  {
    BlankKept(start, log[head].0);
  }

  /** Dequeueing the head entry: its depth is lvl, or lvl + 1 once the entries of depth lvl
      are used up, and the frontier behind it is again in depth order. */
  lemma Dequeue(log: seq<(string, int)>, head: int, mid: int, lvl: int) returns (mid': int)
    requires Levels(log, head, mid, lvl) && head < |log|
    ensures log[head].1 == lvl || log[head].1 == lvl + 1
    ensures Levels(log, head + 1, mid', log[head].1)
  {
    mid' := if head == mid then |log| else mid;
  }

  /** A search whose every logged state is expanded cannot reach the goal. */
  lemma Exhausted(start: string, goal: string, log: seq<(string, int)>, paths: seq<seq<Action>>,
                  explored: set<string>)
    requires |start| == 9 && Blank in start && Searched(start, goal, Universe(start), log, paths, explored)
    requires ExpandedBefore(log, |log|, explored)
    ensures forall p :: Run(start, p) != Some(goal)
  {
    LoggedClosed(start, log, paths, explored);
  }

  /** The log of a search names no state twice and its depths never decrease. */
  lemma LogShape(start: string, goal: string, log: seq<(string, int)>, paths: seq<seq<Action>>,
                 explored: set<string>)
    requires |start| == 9 && Searched(start, goal, Universe(start), log, paths, explored)
    ensures DistinctStates(log) && Nondecreasing(log)
  {
    StatesCard(log);
    StepwiseSorted(log);
  }

  /** BFS: (0, start) when the start is the goal; (d, goal) with a path of d offered moves from
      start to goal; (-1, None) once the frontier is empty, and then no path reaches the goal.
      log is every (state, depth) pair in the order it was enqueued, which the FIFO frontier
      also dequeues in: no state is enqueued twice and the depths never decrease. */
  method Bfs(initBoard: Board, goalBoard: Board)
      returns (depth: int, state: Option<string>, ghost path: seq<Action>, ghost log: seq<(string, int)>)
    requires IsBoard(initBoard) && IsBoard(goalBoard) && Blank in Cells(initBoard)
    ensures Cells(initBoard) == Cells(goalBoard) ==> depth == 0 && state == Some(Cells(initBoard))
    ensures state.Some? ==>
      state.value == Cells(goalBoard) && depth == |path| && Run(Cells(initBoard), path) == state
    ensures state.None? ==>
      depth == -1 && forall p :: Run(Cells(initBoard), p) != Some(Cells(goalBoard))
    ensures |log| > 0 && log[0] == (Cells(initBoard), 0) && DistinctStates(log) && Nondecreasing(log)
  {
    var startState := MakeString(initBoard);
    var goalState := MakeString(goalBoard);
    log := [(startState, 0)];
    if startState == goalState {
      return 0, Some(startState), [], log;
    }
    var frontier := [(startState, 0)];
    var explored := {startState};
    ghost var paths: seq<seq<Action>> := [[]];
    ghost var head, mid, lvl := 0, 1, 0;
    ghost var U := Universe(startState);
    LogStart(startState);
    while |frontier| > 0
      invariant 0 <= head <= |log| && frontier == log[head..]
      invariant Searched(startState, goalState, U, log, paths, explored)
      invariant Levels(log, head, mid, lvl)
      invariant ExpandedBefore(log, head, explored)
      decreases |U| - head
    {
      var toExplore, d := frontier[0].0, frontier[0].1;
      Popped(startState, goalState, log, paths, explored, head);
      mid := Dequeue(log, head, mid, lvl);
      head, lvl := head + 1, d;
      ghost var p := paths[head - 1];
      var found;
      found, path, frontier, explored, log, paths :=
        Expand(startState, goalState, toExplore, d, p, frontier[1..], explored, log, paths, head, mid);
      SubsetCard(explored, U);
      if found {
        LogShape(startState, goalState, log, paths, explored);
        return d + 1, Some(goalState), path, log;
      }
    }
    Exhausted(startState, goalState, log, paths, explored);
    LogShape(startState, goalState, log, paths, explored);
    return -1, None, [], log;
  }
}
