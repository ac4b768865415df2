/** The 8-puzzle board of BFS.py: a state is a 9-character string read row by row, a board
    the same cells as 3 rows of 3, and '#' marks the blank. A move slides the blank one cell
    up, down, left or right. */
module EightPuzzle {
  import opened Optional

  type Board = seq<seq<char>>

  /** The four action names of the source, in the order availActions tries them. */
  datatype Action = Up | Down | Left | Right

  const Blank := '#'
  const AllActions: seq<Action> := [Up, Down, Left, Right]

  /** 3 rows of 3 cells. */
  predicate IsBoard(b: Board) {
    |b| == 3 && forall i :: 0 <= i < 3 ==> |b[i]| == 3
  }

  /** makeBoard(s): the consecutive 3-character slices of s; the last may be shorter. */
  function MakeBoard(s: string): (r: Board)
    ensures |r| == (|s| + 2) / 3
    decreases |s|
  {
    if |s| == 0 then []
    else if |s| <= 3 then [s]
    else [s[..3]] + MakeBoard(s[3..])
  }

  /** The row and column of cell k in row-major order: the divmod(k, 3) of the source,
      written by cases. */
  function Row(k: int): int {
    if k < 3 then 0 else if k < 6 then 1 else 2
  }

  function Col(k: int): int {
    k - 3 * Row(k)
  }

  /** The cells of a board, row by row. */
  function Cells(b: Board): (r: string)
    requires IsBoard(b)
    ensures |r| == 9 && forall k :: 0 <= k < 9 ==> r[k] == b[Row(k)][Col(k)]
  {
    b[0] + b[1] + b[2]
  }

  /** makeString(board): the nested loops append board[i][j] row by row. */
  method MakeString(board: Board) returns (str: string)
    requires IsBoard(board)
    ensures str == Cells(board)
  {
    str := "";
    for i := 0 to 3
      invariant |str| == 3 * i && forall k :: 0 <= k < 3 * i ==> str[k] == board[Row(k)][Col(k)]
    {
      for j := 0 to 3
        invariant |str| == 3 * i + j
        invariant forall k :: 0 <= k < 3 * i + j ==> str[k] == board[Row(k)][Col(k)]
      {
        str := str + [board[i][j]];
      }
    }
  }

  /** A 9-character string survives makeBoard then makeString, and makeBoard gives 3 rows of 3. */
  lemma StringRoundTrip(s: string)
    requires |s| == 9
    ensures IsBoard(MakeBoard(s)) && Cells(MakeBoard(s)) == s
  {
    var b := MakeBoard(s);
    assert s[3..][3..] == s[6..] && s[3..][..3] == s[3..6];
    assert MakeBoard(s[3..]) == [s[3..6], s[6..]];
    assert b == [s[..3], s[3..6], s[6..]];
  }

  /** A board survives makeString then makeBoard. */
  lemma BoardRoundTrip(b: Board)
    requires IsBoard(b)
    ensures MakeBoard(Cells(b)) == b
  {
    var s := Cells(b);
    StringRoundTrip(s);
    var r := MakeBoard(s);
    assert s[..3] == b[0] && s[3..6] == b[1] && s[6..] == b[2];
  }

  /** isValid(x, y): both coordinates inside the 3 by 3 grid. */
  predicate IsValid(x: int, y: int) {
    0 <= x < 3 && 0 <= y < 3
  }

  /** The (row, column) offset of an action: the table in availActions, and the neighbour
      makeMove swaps with. */
  function Delta(a: Action): (int, int) {
    match a
    case Up => (-1, 0)
    case Down => (1, 0)
    case Left => (0, -1)
    case Right => (0, 1)
  }

  /** The blank at cell k can slide in direction a. */
  predicate CanSlide(k: int, a: Action) {
    IsValid(Row(k) + Delta(a).0, Col(k) + Delta(a).1)
  }

  /** The cell the blank at k moves to. */
  function TargetOf(k: int, a: Action): int {
    3 * (Row(k) + Delta(a).0) + Col(k) + Delta(a).1
  }

  /** The first blank, at cell k or later in row-major order, that can slide in direction a:
      makeMove keeps scanning past a blank whose neighbour is off the grid. */
  function FirstMover(s: string, a: Action, k: nat): (r: Option<nat>)
    requires |s| == 9 && k <= 9
    ensures r.Some? ==> k <= r.value < 9 && s[r.value] == Blank && CanSlide(r.value, a)
    decreases |s| - k, 1
  {
    if k == 9 then None else MoverAt(s, a, k)
  }

  /** Cell k, then the cells after it. */
  function MoverAt(s: string, a: Action, k: nat): (r: Option<nat>)
    requires |s| == 9 && k < 9
    ensures r.Some? ==> k <= r.value < 9 && s[r.value] == Blank && CanSlide(r.value, a)
    decreases |s| - k, 0
  {
    if s[k] == Blank && CanSlide(k, a) then Some(k) else FirstMover(s, a, k + 1)
  }

  /** No blank from k on can slide when the scan finds none. */
  lemma {:induction false} NoMover(s: string, a: Action, k: nat)
    requires |s| == 9 && k <= 9 && FirstMover(s, a, k).None?
    ensures forall j :: k <= j < 9 && s[j] == Blank ==> !CanSlide(j, a)
    decreases 9 - k
  {
    if k < 9 {
      NoMover(s, a, k + 1);
    }
  }

  /** The state after sliding the blank at p to q, written as makeMove writes it: '#' at q, and
      the tile that was at q at p. */
  function Slide(s: string, p: int, q: int): string
    requires 0 <= p < |s| && 0 <= q < |s|
  {
    s[q := Blank][p := s[q]]
  }

  /** The result of makeMove on a state: None when no blank can slide in direction a. */
  function Moved(s: string, a: Action): (r: Option<string>)
    requires |s| == 9
    ensures r.Some? ==> |r.value| == 9 && multiset(r.value) == multiset(s)
  {
    match FirstMover(s, a, 0)
    case None => None
    case Some(p) =>
      var q := TargetOf(p, a);
      assert s[p] == Blank;
      Some(Slide(s, p, q))
  }

  /** What makeMove returns for the board of state s: the new board and its string. */
  function MoveResult(s: string, a: Action): (r: Option<(Board, string)>)
    requires |s| == 9
    ensures r.None? <==> Moved(s, a).None?
    ensures r.Some? ==> IsBoard(r.value.0) && r.value.1 == Moved(s, a).value &&
                        r.value.1 == Cells(r.value.0) && r.value.0 == MakeBoard(r.value.1)
  {
    match Moved(s, a)
    case None => None
    case Some(t) =>
      StringRoundTrip(t);
      Some((MakeBoard(t), t))
  }

  /** makeMove(board, action): scan the cells row by row; at the first blank whose neighbour
      in the action's direction is on the grid, copy the board, put '#' on the neighbour and
      the neighbour's tile on the blank, and return the new board and its string. The
      horizontal and vertical branches of the source differ only in the offset. Falling off
      the end returns nothing (the source's implicit None). */
  method MakeMove(board: Board, action: Action) returns (r: Option<(Board, string)>)
    requires IsBoard(board)
    ensures r == MoveResult(Cells(board), action)
  {
    ghost var s := Cells(board);
    ghost var m := FirstMover(s, action, 0);
    for i := 0 to 3
      invariant m == FirstMover(s, action, 3 * i)
    {
      for j := 0 to 3
        invariant m == FirstMover(s, action, 3 * i + j)
      {
        r := TryCell(board, action, i, j);
        if r.Some? {
          return;
        }
      }
      assert 3 * i + 3 == 3 * (i + 1);
    }
    return None;
  }

  /** The body of makeMove's loops at cell (i, j): when it holds a blank whose neighbour in
      the action's direction is on the grid, slide it. */
  method TryCell(board: Board, action: Action, i: int, j: int) returns (r: Option<(Board, string)>)
    requires IsBoard(board) && 0 <= i < 3 && 0 <= j < 3
    ensures var s, k := Cells(board), 3 * i + j;
      (r.None? ==> FirstMover(s, action, k) == FirstMover(s, action, k + 1)) &&
      (r.Some? ==> FirstMover(s, action, k) == Some(k) &&
                   r == Some((MakeBoard(Slide(s, k, TargetOf(k, action))), Slide(s, k, TargetOf(k, action)))))
  {
    ghost var s := Cells(board);
    assert s[3 * i + j] == board[i][j] by { CellIndex(i, j); }
    SlideFrom(i, j, action);
    if board[i][j] == Blank {
      var (dy, dx) := Delta(action);
      var onY, onX := i + dy, j + dx;
      if IsValid(onY, onX) {
        var newBoard, str := SlideBoard(board, i, j, onY, onX);
        return Some((newBoard, str));
      }
    }
    return None;
  }

  /** The branch of makeMove that moves: a copy of the board with '#' on (y, x) and the tile
      from (y, x) on (i, j), and its string. */
  method SlideBoard(board: Board, i: int, j: int, y: int, x: int) returns (newBoard: Board, str: string)
    requires IsBoard(board) && 0 <= i < 3 && 0 <= j < 3 && IsValid(y, x)
    ensures str == Slide(Cells(board), 3 * i + j, 3 * y + x) && newBoard == MakeBoard(str)
  {
    newBoard := board;
    var temp := newBoard[y][x];
    newBoard := newBoard[y := newBoard[y][x := Blank]];
    newBoard := newBoard[i := newBoard[i][j := temp]];
    str := MakeString(newBoard);
    SlideCells(board, newBoard, i, j, y, x);
    BoardRoundTrip(newBoard);
  }

  /** The board update of makeMove is Slide on the cells. */
  lemma SlideCells(board: Board, newBoard: Board, i: int, j: int, y: int, x: int)
    requires IsBoard(board) && 0 <= i < 3 && 0 <= j < 3 && IsValid(y, x)
    requires newBoard == board[y := board[y][x := Blank]][i := board[y := board[y][x := Blank]][i][j := board[y][x]]]
    ensures IsBoard(newBoard) && Cells(newBoard) == Slide(Cells(board), 3 * i + j, 3 * y + x)
  {
    var s, t := Cells(board), Cells(newBoard);
    forall k | 0 <= k < 9 ensures t[k] == Slide(s, 3 * i + j, 3 * y + x)[k] {
      assert k == 3 * Row(k) + Col(k);
    }
  }

  /** The index of the last blank of t, or -1: availActions overwrites its (spaceY, spaceX)
      at every blank, so the last one wins. */
  function LastBlankIn(t: string): (r: int)
    ensures -1 <= r < |t| && (r >= 0 ==> t[r] == Blank)
    ensures forall j :: r < j < |t| ==> t[j] != Blank
  {
    if |t| == 0 then -1
    else if t[|t| - 1] == Blank then |t| - 1
    else LastBlankIn(t[..|t| - 1])
  }

  /** The last blank of a state that has one. */
  function LastBlank(s: string): (r: nat)
    requires |s| == 9 && Blank in s
    ensures r < 9 && s[r] == Blank && forall j :: r < j < 9 ==> s[j] != Blank
  {
    LastBlankIn(s)
  }

  /** The actions of the list that can move the blank at k, in list order. */
  function Offered(acts: seq<Action>, k: int): (r: seq<Action>)
    ensures forall a :: a in r <==> a in acts && CanSlide(k, a)
  {
    if acts == [] then []
    else if CanSlide(k, acts[0]) then [acts[0]] + Offered(acts[1..], k)
    else Offered(acts[1..], k)
  }

  /** The actions availActions offers in a state with a blank. */
  function Avail(s: string): seq<Action>
    requires |s| == 9 && Blank in s
  {
    Offered(AllActions, LastBlank(s))
  }

  /** availActions(board): find the last blank, then keep the actions of the table, in order,
      whose neighbour is on the grid. */
  method AvailActions(board: Board) returns (avail: seq<Action>)
    requires IsBoard(board) && Blank in Cells(board)
    ensures avail == Avail(Cells(board))
  {
    var spaceY, spaceX := FindBlank(board);
    ghost var k := 3 * spaceY + spaceX;
    avail := [];
    for n := 0 to 4
      invariant avail + Offered(AllActions[n..], k) == Offered(AllActions, k)
    {
      var a := AllActions[n];
      var (moveY, moveX) := Delta(a);
      SlideFrom(spaceY, spaceX, a);
      OfferedStep(n, k);
      if IsValid(spaceY + moveY, spaceX + moveX) {
        AppendAssoc(avail, [a], Offered(AllActions[n + 1..], k));
        avail := avail + [a];
      }
    }
  }

  /** The first loop of availActions: the row and column of the last blank. */
  method FindBlank(board: Board) returns (spaceY: int, spaceX: int)
    requires IsBoard(board) && Blank in Cells(board)
    ensures 0 <= spaceY < 3 && 0 <= spaceX < 3 && 3 * spaceY + spaceX == LastBlank(Cells(board))
  {
    ghost var s := Cells(board);
    spaceY, spaceX := -1, -1;
    for i := 0 to 3
      invariant (spaceY == -1 && spaceX == -1) || (0 <= spaceY < 3 && 0 <= spaceX < 3)
      invariant Found(spaceY, spaceX) == LastBlankIn(s[..3 * i])
    {
      for j := 0 to 3
        invariant (spaceY == -1 && spaceX == -1) || (0 <= spaceY < 3 && 0 <= spaceX < 3)
        invariant Found(spaceY, spaceX) == LastBlankIn(s[..3 * i + j])
      {
        assert s[..3 * i + j + 1][..3 * i + j] == s[..3 * i + j];
        assert s[3 * i + j] == board[i][j] by { CellIndex(i, j); }
        if board[i][j] == Blank {
          spaceY, spaceX := i, j;
        }
      }
    }
    assert s[..9] == s;
  }

  /** The cell number FindBlank's variables stand for; -1 while no blank is seen. */
  function Found(spaceY: int, spaceX: int): int {
    if spaceY == -1 then -1 else 3 * spaceY + spaceX
  }

  /** Row-major cell numbering. */
  lemma CellIndex(i: int, j: int)
    requires 0 <= i < 3 && 0 <= j < 3
    ensures Row(3 * i + j) == i && Col(3 * i + j) == j
  {
  }

  /** The blank at row y, column x slides in direction a iff the offset cell is on the grid. */
  lemma SlideFrom(y: int, x: int, a: Action)
    requires 0 <= y < 3 && 0 <= x < 3
    ensures CanSlide(3 * y + x, a) <==> IsValid(y + Delta(a).0, x + Delta(a).1)
    ensures TargetOf(3 * y + x, a) == 3 * (y + Delta(a).0) + x + Delta(a).1
  {
    CellIndex(y, x);
  }

  /** One step of the filter over the action table. */
  lemma OfferedStep(n: int, k: int)
    requires 0 <= n < 4
    ensures Offered(AllActions[n..], k) ==
      (if CanSlide(k, AllActions[n]) then [AllActions[n]] else []) + Offered(AllActions[n + 1..], k)
  {
    assert AllActions[n..] == [AllActions[n]] + AllActions[n + 1..];
  }

  lemma AppendAssoc<T>(a: seq<T>, b: seq<T>, c: seq<T>)
    ensures a + (b + c) == (a + b) + c
  {
  }

  /** The actions' positions in the table availActions walks. */
  function Rank(a: Action): int {
    match a
    case Up => 0
    case Down => 1
    case Left => 2
    case Right => 3
  }

  /** availActions lists exactly the actions that keep the last blank on the grid, each once,
      in the order UP, DOWN, LEFT, RIGHT. */
  lemma AvailExact(s: string)
    requires |s| == 9 && Blank in s
    ensures forall a :: a in Avail(s) <==> CanSlide(LastBlank(s), a)
    ensures forall i, j :: 0 <= i < j < |Avail(s)| ==> Rank(Avail(s)[i]) < Rank(Avail(s)[j])
  {
    var k := LastBlank(s);
    forall a ensures a in AllActions {
      assert AllActions[Rank(a)] == a;
    }
    assert forall i, j :: 0 <= i < j < |AllActions| ==> Rank(AllActions[i]) < Rank(AllActions[j]);
    OfferedOrdered(AllActions, k);
  }

  lemma {:induction false} OfferedOrdered(acts: seq<Action>, k: int)
    requires forall i, j :: 0 <= i < j < |acts| ==> Rank(acts[i]) < Rank(acts[j])
    ensures forall i, j :: 0 <= i < j < |Offered(acts, k)| ==>
      Rank(Offered(acts, k)[i]) < Rank(Offered(acts, k)[j])
  {
    if acts != [] {
      OfferedOrdered(acts[1..], k);
      var rest := Offered(acts[1..], k);
      forall a | a in rest ensures Rank(acts[0]) < Rank(a) {
        var m :| 0 <= m < |acts[1..]| && acts[1..][m] == a;
        assert acts[m + 1] == a;
      }
    }
  }

  /** Every action availActions offers lets makeMove move: at worst the last blank slides. */
  lemma AvailMoves(s: string, a: Action)
    requires |s| == 9 && Blank in s && a in Avail(s)
    ensures Moved(s, a).Some?
  {
    AvailExact(s);
    var last := LastBlank(s);
    if FirstMover(s, a, 0).None? {
      NoMover(s, a, 0);
      assert false;
    }
  }

  /** With a single blank at p, makeMove moves iff p's neighbour in direction a is on the grid;
      the new state has the blank on that neighbour, the neighbour's tile at p, every other
      cell unchanged, and the same tiles. */
  lemma SingleBlankMove(s: string, p: int, a: Action)
    requires |s| == 9 && 0 <= p < 9 && s[p] == Blank
    requires forall j :: 0 <= j < 9 && j != p ==> s[j] != Blank
    ensures Moved(s, a).Some? <==> CanSlide(p, a)
    ensures CanSlide(p, a) ==>
      var t, q := Moved(s, a).value, TargetOf(p, a);
      0 <= q < 9 && q != p && t[q] == Blank && t[p] == s[q] &&
      (forall j :: 0 <= j < 9 && j != p && j != q ==> t[j] == s[j]) &&
      multiset(t) == multiset(s)
  {
    if FirstMover(s, a, 0).None? {
      NoMover(s, a, 0);
    }
  }
}
