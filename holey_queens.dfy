/*
 * src/holeynqueensbatman.rs: the number of ways to place n queens on an
 * n x n board with holes, no two attacking each other and none on a hole.
 * Every placement is generated once per board size by backtracking over a
 * `QueenBoard` of twelve rows, bit c of a row marking a queen in column c;
 * each test case then counts the boards that leave its holes free.
 */
module HoleyQueens {
  import opened QueensSpec

  /** `min` of two numbers. */
  function Min(a: int, b: int): int
  {
    if a < b then a else b
  }

  /** The first loop of `valid_placement`: no queen above in column col. */
  method ColumnClear(board: array<int>, row: nat, col: nat, ghost cols: seq<int>) returns (ok: bool)
    requires board.Length == ROWS && row == |cols| <= ROWS
    requires forall r | 0 <= r < |cols| :: cols[r] >= 0
    requires board[..] == BoardOf(cols)
    ensures ok <==> FreeColumn(cols, col)
  {
    for i := 0 to row
      invariant forall j | 0 <= j < i :: cols[j] != col
    {
      QueenBits(cols, i, col);
      assert board[i] == board[..][i];
      if Bit(board[i], col) == 1 {
        return false;
      }
    }
    return true;
  }

  /** The second loop of `valid_placement`: no queen on the diagonal up and to the left. */
  method UpLeftClear(board: array<int>, row: nat, col: nat, ghost cols: seq<int>) returns (ok: bool)
    requires board.Length == ROWS && row == |cols| <= ROWS
    requires forall r | 0 <= r < |cols| :: cols[r] >= 0
    requires board[..] == BoardOf(cols)
    ensures ok <==> FreeUpLeft(cols, col)
  {
    for i := 1 to Min(row, col) + 1
      invariant forall r | row - i < r < row :: col - cols[r] != row - r
    {
      QueenBits(cols, row - i, col - i);
      assert board[row - i] == board[..][row - i];
      if Bit(board[row - i], col - i) == 1 {
        return false;
      }
    }
    forall r | 0 <= r < row
      ensures col - cols[r] != row - r
    {
    }
    return true;
  }

  /** The third loop of `valid_placement`: no queen on the diagonal up and to the right. */
  method UpRightClear(board: array<int>, size: nat, row: nat, col: nat, ghost cols: seq<int>) returns (ok: bool)
    requires board.Length == ROWS && row == |cols| <= ROWS && col < size
    requires forall r | 0 <= r < |cols| :: 0 <= cols[r] < size
    requires board[..] == BoardOf(cols)
    ensures ok <==> FreeUpRight(cols, col)
  {
    for i := 1 to Min(row, size - col) + 1
      invariant forall r | row - i < r < row :: cols[r] - col != row - r
    {
      QueenBits(cols, row - i, col + i);
      assert board[row - i] == board[..][row - i];
      if Bit(board[row - i], col + i) == 1 {
        return false;
      }
    }
    forall r | 0 <= r < row
      ensures cols[r] - col != row - r
    {
    }
    return true;
  }

  /**
   * `valid_placement`: a queen in row `row`, column col attacks none of the
   * queens above it: the column first, then the two diagonals going up.
   */
  method ValidPlacement(board: array<int>, size: nat, row: nat, col: nat, ghost cols: seq<int>) returns (ok: bool)
    requires board.Length == ROWS && row == |cols| < size <= ROWS && col < size
    requires Within(cols, size) && board[..] == BoardOf(cols)
    ensures ok <==> Safe(cols, col)
  {
    ok := ColumnClear(board, row, col, cols);
    if !ok {
      return;
    }
    ok := UpLeftClear(board, row, col, cols);
    if !ok {
      return;
    }
    ok := UpRightClear(board, size, row, col, cols);
  }

  /**
   * `generate_boards`: every completion of the queens already on the board,
   * in column order, after which the board is as it was.
   */
  method GenerateBoards(board: array<int>, size: nat, row: nat, ghost cols: seq<int>) returns (result: seq<seq<int>>)
    requires board.Length == ROWS && row == |cols| <= size <= ROWS
    requires Within(cols, size) && NonAttacking(cols) && board[..] == BoardOf(cols)
    modifies board
    ensures board[..] == old(board[..])
    ensures Drawable(Completions(cols, size)) && result == Boards(Completions(cols, size))
    decreases size - row, 1
  {
    if row == size {
      assert Boards([cols]) == [BoardOf(cols)];
      return [board[..]];
    }
    result := [];
    GeneratedEnds(cols, size, result);
    for col := 0 to size
      invariant board[..] == BoardOf(cols)
      invariant Generated(cols, size, col, result)
    {
      var ok := ValidPlacement(board, size, row, col, cols);
      if ok {
        var sub := Descend(board, size, row, col, cols);
        GeneratedStep(cols, size, col, result, ok, sub);
        result := result + sub;
      } else {
        GeneratedStep(cols, size, col, result, ok, []);
      }
    }
    GeneratedEnds(cols, size, result);
  }

  /** The queen in column col, the boards that complete it, and the queen taken away again. */
  method Descend(board: array<int>, size: nat, row: nat, col: nat, ghost cols: seq<int>) returns (sub: seq<seq<int>>)
    requires board.Length == ROWS && row == |cols| < size <= ROWS && col < size
    requires Within(cols, size) && NonAttacking(cols) && board[..] == BoardOf(cols) && Safe(cols, col)
    modifies board
    ensures board[..] == old(board[..])
    ensures Within(cols + [col], size) && NonAttacking(cols + [col])
    ensures Drawable(Completions(cols + [col], size)) && sub == Boards(Completions(cols + [col], size))
    decreases size - row, 0
  {
    ghost var next := cols + [col];
    SafeExtends(cols, col);
    WithinExtends(cols, size, col);
    board[row] := Pow2(col);
    assert board[..] == BoardOf(next);
    sub := GenerateBoards(board, size, row + 1, next);
    board[row] := 0;
    assert board[..] == BoardOf(cols);
  }

  /** A hole is a row and a column; the row indexes the twelve rows of a board. */
  type Hole = h: (nat, nat) | h.0 < ROWS witness (0, 0)

  /** No hole of the list holds a queen. */
  ghost predicate Clear(board: seq<int>, holes: seq<Hole>)
    requires |board| == ROWS
  {
    forall k | 0 <= k < |holes| :: Bit(board[holes[k].0], holes[k].1) != 1
  }

  /** The boards of the list that leave every hole free. */
  ghost function NumClear(boards: seq<seq<int>>, holes: seq<Hole>): nat
    requires forall k | 0 <= k < |boards| :: |boards[k]| == ROWS
  {
    if boards == [] then 0 else (if Clear(boards[0], holes) then 1 else 0) + NumClear(boards[1..], holes)
  }

  /** A board leaves the holes free exactly when no queen stands on one. */
  lemma ClearQueens(cols: seq<int>, holes: seq<Hole>)
    requires |cols| <= ROWS && forall r | 0 <= r < |cols| :: cols[r] >= 0
    ensures Clear(BoardOf(cols), holes) <==> forall k | 0 <= k < |holes| :: !(holes[k].0 < |cols| && cols[holes[k].0] == holes[k].1)
  {
    forall k | 0 <= k < |holes|
      ensures Bit(BoardOf(cols)[holes[k].0], holes[k].1) == 1 <==> holes[k].0 < |cols| && cols[holes[k].0] == holes[k].1
    {
      QueenBits(cols, holes[k].0, holes[k].1);
    }
  }

  /** The inner loop of the count in `solve`: does the board leave every hole free? */
  method Free(board: seq<int>, holes: seq<Hole>) returns (free: bool)
    requires |board| == ROWS
    ensures free <==> Clear(board, holes)
  {
    for k := 0 to |holes|
      invariant forall j | 0 <= j < k :: Bit(board[holes[j].0], holes[j].1) != 1
    {
      var (row, col) := holes[k];
      if Bit(board[row], col) == 1 {
        return false;
      }
    }
    return true;
  }

  /** The count in `solve`: the boards that leave every hole free. */
  method CountClear(boards: seq<seq<int>>, holes: seq<Hole>) returns (count: nat)
    requires forall k | 0 <= k < |boards| :: |boards[k]| == ROWS
    ensures count == NumClear(boards, holes)
  {
    count := 0;
    for k := 0 to |boards|
      invariant count + NumClear(boards[k..], holes) == NumClear(boards, holes)
    {
      assert boards[k..][1..] == boards[k + 1..];
      var free := Free(boards[k], holes);
      if free {
        count := count + 1;
      }
    }
  }

  /**
   * One test case of `solve`: the number of generated boards (the
   * placements of n queens, none attacking another) that leave the holes
   * free.  The boards are not shown to be pairwise distinct.
   */
  method TestCase(n: nat, holes: seq<Hole>) returns (count: nat)
    requires 1 <= n <= ROWS
    ensures forall b :: b in Completions([], n) <==> Solution(b, n)
    ensures Drawable(Completions([], n)) && count == NumClear(Boards(Completions([], n)), holes)
  {
    var board := new int[ROWS](_ => 0);
    assert board[..] == BoardOf([]);
    ghost var sols := Completions([], n);
    var boards := GenerateBoards(board, n, 0, []);
    forall b
      ensures b in sols <==> Solution(b, n)
    {
      if b in sols {
        CompletionsSound([], n, b);
      }
      if Solution(b, n) {
        CompletionsComplete([], n, b);
      }
    }
    count := CountClear(boards, holes);
  }
}
