/** What the three 8-puzzle searches share: paths of offered moves, the finite set of states a
    search can meet, and the closure argument that turns "the search ran out of states" into
    "the goal cannot be reached". */
module PuzzleSearch {
  import opened Optional
  import opened Sets
  import opened EightPuzzle

  /** The state reached from s by the actions of path, each offered by availActions in the
      state it is taken from; None once an action is not offered. */
  function Run(s: string, path: seq<Action>): (r: Option<string>)
    requires |s| == 9
    ensures r.Some? ==> |r.value| == 9 && multiset(r.value) == multiset(s)
    decreases |path|
  {
    if path == [] then Some(s)
    else
      match Run(s, path[..|path| - 1])
      case None => None
      case Some(t) =>
        if Blank in t && path[|path| - 1] in Avail(t) then Moved(t, path[|path| - 1]) else None
  }

  /** One more offered action extends a path. */
  lemma RunStep(s: string, path: seq<Action>, t: string, a: Action)
    requires |s| == 9 && Run(s, path) == Some(t) && Blank in t && a in Avail(t)
    ensures Run(s, path + [a]) == Moved(t, a) && Moved(t, a).Some?
  {
    var q := path + [a];
    assert q[..|q| - 1] == path && q[|q| - 1] == a;
    AvailMoves(t, a);
  }

  /** A state with the same tiles as one holding a blank holds a blank. */
  lemma BlankKept(s: string, t: string)
    requires Blank in s && multiset(t) == multiset(s)
    ensures Blank in t
  {
    assert Blank in multiset(s);
  }

  /** t is a state holding a blank, and every move offered in t leads into E. */
  ghost predicate Expanded(t: string, E: set<string>) {
    |t| == 9 && Blank in t &&
    forall a :: a in Avail(t) ==> Moved(t, a).Some? && Moved(t, a).value in E
  }

  /** The tiles of a state. */
  ghost function Tiles(s: string): set<char> {
    set c | c in s
  }

  /** All strings as long as template over the characters of A (the recursion follows the
      template rather than a length, so that a known length does not unfold it). */
  ghost function Words(A: set<char>, template: string): set<string>
    decreases |template|
  {
    if template == [] then {[]}
    else set c, w | c in A && w in Words(A, template[1..]) :: [c] + w
  }

  lemma {:induction false} InWords(A: set<char>, w: string, template: string)
    requires |w| == |template| && forall k :: 0 <= k < |w| ==> w[k] in A
    ensures w in Words(A, template)
    decreases |w|
  {
    if |w| > 0 {
      InWords(A, w[1..], template[1..]);
      assert w == [w[0]] + w[1..];
    }
  }

  /** The strings as long as start and made of its tiles: moves never leave this finite set. */
  ghost function Universe(start: string): set<string> {
    Words(Tiles(start), start)
  }

  lemma InUniverse(start: string, t: string)
    requires |t| == |start| && multiset(t) == multiset(start)
    ensures t in Universe(start)
  {
    forall k | 0 <= k < |t| ensures t[k] in Tiles(start) {
      assert t[k] in multiset(t);
    }
    InWords(Tiles(start), t, start);
  }

  /** A set of states that holds start, keeps start's tiles and is closed under the offered
      moves holds every state reachable from start. */
  lemma {:induction false} ReachClosed(start: string, E: set<string>, path: seq<Action>)
    requires |start| == 9 && Blank in start && start in E
    requires forall t :: t in E ==> |t| == 9 && multiset(t) == multiset(start)
    requires forall t :: t in E ==> Expanded(t, E)
    ensures Run(start, path).Some? ==> Run(start, path).value in E
    decreases |path|
  {
    if path != [] {
      ReachClosed(start, E, path[..|path| - 1]);
    }
  }

  /** The states of a log of (state, depth) entries. */
  ghost function States(log: seq<(string, int)>): (r: set<string>)
    ensures forall i :: 0 <= i < |log| ==> log[i].0 in r
    decreases |log|
  {
    if log == [] then {} else States(log[..|log| - 1]) + {log[|log| - 1].0}
  }

  lemma {:induction false} StatesMember(log: seq<(string, int)>, t: string)
    requires t in States(log)
    ensures exists i :: 0 <= i < |log| && log[i].0 == t
    decreases |log|
  {
    if log[|log| - 1].0 != t {
      StatesMember(log[..|log| - 1], t);
      var i :| 0 <= i < |log| - 1 && log[..|log| - 1][i].0 == t;
      assert log[i].0 == t;
    }
  }

  /** A log has at most as many states as entries, and exactly as many only when no state
      repeats. */
  lemma {:induction false} StatesCard(log: seq<(string, int)>)
    ensures |States(log)| <= |log|
    ensures |States(log)| == |log| ==> DistinctStates(log)
    decreases |log|
  {
    if log != [] {
      var init, x := log[..|log| - 1], log[|log| - 1];
      StatesCard(init);
      if |States(log)| == |log| {
        assert x.0 !in States(init);
        forall i, j | 0 <= i < j < |log| ensures log[i].0 != log[j].0 {
          if j < |log| - 1 {
            assert log[i] == init[i] && log[j] == init[j];
          } else {
            assert log[i] == init[i];
          }
        }
      }
    }
  }

  /** The entries of the log name pairwise distinct states. */
  ghost predicate DistinctStates(log: seq<(string, int)>) {
    forall i, j :: 0 <= i < j < |log| ==> log[i].0 != log[j].0
  }

  /** The second components of the log (depths or costs) never decrease. */
  ghost predicate Nondecreasing(log: seq<(string, int)>) {
    forall i, j :: 0 <= i < j < |log| ==> log[i].1 <= log[j].1
  }

  /** An entry no smaller than every entry keeps the log nondecreasing. */
  lemma NondecreasingAppend(log: seq<(string, int)>, e: (string, int))
    requires Nondecreasing(log) && forall i :: 0 <= i < |log| ==> log[i].1 <= e.1
    ensures Nondecreasing(log + [e])
  {
    var log' := log + [e];
    forall i | 0 <= i < |log| ensures log'[i] == log[i] {
    }
  }

  /** Every entry is a state with start's tiles, reached from start by a path whose length is
      the entry's depth. */
  ghost predicate Witnessed(start: string, log: seq<(string, int)>, paths: seq<seq<Action>>)
    requires |start| == 9
  {
    |paths| == |log| &&
    forall i :: 0 <= i < |log| ==>
      |paths[i]| == log[i].1 && Run(start, paths[i]) == Some(log[i].0)
  }

  /** availActions on the board built from the state t. */
  method Offers(t: string) returns (board: Board, actions: seq<Action>)
    requires |t| == 9 && Blank in t
    ensures board == MakeBoard(t) && actions == Avail(t)
  {
    board := MakeBoard(t);
    StringRoundTrip(t);
    actions := AvailActions(board);
  }

  /** makeMove followed by makeString on the board built from t, for an offered action. */
  method Successor(t: string, board: Board, a: Action) returns (u: string)
    requires |t| == 9 && Blank in t && board == MakeBoard(t) && a in Avail(t)
    ensures Moved(t, a) == Some(u)
  {
    StringRoundTrip(t);
    AvailMoves(t, a);
    var moved := MakeMove(board, a);
    u := moved.value.1;
  }

  /** The first n actions of acts lead from t into E. */
  ghost predicate Tried(t: string, acts: seq<Action>, n: int, E: set<string>) {
    |t| == 9 && forall m :: 0 <= m < n && m < |acts| ==> Moved(t, acts[m]).Some? && Moved(t, acts[m]).value in E
  }

  lemma TriedStep(t: string, acts: seq<Action>, n: int, E: set<string>, E': set<string>)
    requires |t| == 9 && 0 <= n < |acts| && Tried(t, acts, n, E) && E <= E'
    requires Moved(t, acts[n]).Some? && Moved(t, acts[n]).value in E'
    ensures Tried(t, acts, n + 1, E')
  {
  }

  /** Once every offered action has been tried, the state is expanded. */
  lemma TriedAll(t: string, E: set<string>)
    requires |t| == 9 && Blank in t && Tried(t, Avail(t), |Avail(t)|, E)
    ensures Expanded(t, E)
  {
    forall a | a in Avail(t) ensures Moved(t, a).Some? && Moved(t, a).value in E {
      var m :| 0 <= m < |Avail(t)| && Avail(t)[m] == a;
    }
  }

  /** The log of a search from start: it begins with (start, 0), every entry is witnessed by a
      path as long as its depth, and E holds exactly the logged states, each logged once, all
      inside U. */
  ghost predicate Logged(start: string, U: set<string>, log: seq<(string, int)>,
                         paths: seq<seq<Action>>, E: set<string>)
    requires |start| == 9
  {
    |log| > 0 && log[0] == (start, 0) && Witnessed(start, log, paths) &&
    E == States(log) && |E| == |log| && E <= U
  }

  /** A search starts by logging start at depth 0. */
  lemma LogStart(start: string)
    requires |start| == 9
    ensures Logged(start, Universe(start), [(start, 0)], [[]], {start})
  {
    assert States([(start, 0)]) == {start};
    InUniverse(start, start);
  }

  /** Logging a state not met before, with the path that reached it. */
  lemma LogAppend(start: string, log: seq<(string, int)>, paths: seq<seq<Action>>, E: set<string>,
                  x: string, q: seq<Action>)
    requires |start| == 9 && Logged(start, Universe(start), log, paths, E)
    requires Run(start, q) == Some(x) && x !in E
    ensures Logged(start, Universe(start), log + [(x, |q|)], paths + [q], E + {x})
  {
    var log', paths' := log + [(x, |q|)], paths + [q];
    assert log'[..|log|] == log;
    InUniverse(start, x);
    forall i | 0 <= i < |log'|
      ensures |paths'[i]| == log'[i].1 && Run(start, paths'[i]) == Some(log'[i].0)
    {
      if i < |log| {
        assert log'[i] == log[i] && paths'[i] == paths[i];
      }
    }
  }

  /** The states logged before index h are expanded into E. */
  ghost predicate ExpandedBefore(log: seq<(string, int)>, h: int, E: set<string>) {
    forall i :: 0 <= i < h && i < |log| ==> Expanded(log[i].0, E)
  }

  /** Appending an expanded entry. */
  lemma ExpandedAppend(log: seq<(string, int)>, E: set<string>, e: (string, int))
    requires ExpandedBefore(log, |log|, E) && Expanded(e.0, E)
    ensures ExpandedBefore(log + [e], |log| + 1, E)
  {
    var log' := log + [e];
    forall i | 0 <= i < |log| ensures log'[i] == log[i] {
    }
  }

  /** A search whose every logged state is expanded has logged every reachable state. */
  lemma LoggedClosed(start: string, log: seq<(string, int)>, paths: seq<seq<Action>>, E: set<string>)
    requires |start| == 9 && Blank in start && Logged(start, Universe(start), log, paths, E)
    requires ExpandedBefore(log, |log|, E)
    ensures forall p :: Run(start, p).Some? ==> Run(start, p).value in E
  {
    forall t | t in E ensures |t| == 9 && multiset(t) == multiset(start) && Expanded(t, E) {
      StatesMember(log, t);
      var i :| 0 <= i < |log| && log[i].0 == t;
      assert Run(start, paths[i]) == Some(t);
    }
    forall q ensures Run(start, q).Some? ==> Run(start, q).value in E {
      ReachClosed(start, E, q);
    }
  }
}
