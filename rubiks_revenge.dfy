/*
 * src/rubiksrevenge.rs: a 4x4 board of four colours, one byte per row and
 * two bits per cell.  A move rotates one row left or right, or one column
 * up or down.  The moves work on the bytes; their properties are proved on
 * the grid of cells the bytes encode.
 */
module RubiksRevenge {
  import opened Wrappers

  /** The four rows, two bits per cell. */
  type Rubik = r: seq<bv8> | |r| == 4 witness [0, 0, 0, 0]

  const R: bv8 := 0
  const G: bv8 := 1
  const B: bv8 := 2
  const Y: bv8 := 3

  /** Each row holds one colour, row k the colour k: the solved board. */
  const GOAL: Rubik := [0x00, 0x55, 0xAA, 0xFF]

  // ---- The grid of cells, whatever the cells are

  /** Four rows of four cells. */
  ghost predicate Square<T>(g: seq<seq<T>>)
  {
    |g| == 4 && forall k | 0 <= k < 4 :: |g[k]| == 4
  }

  /** A row with every cell moved one place up: cell c takes cell c - 1, cell 0 the last. */
  function RowLeft<T>(x: seq<T>): (y: seq<T>)
    requires |x| == 4
    ensures |y| == 4 && forall c | 0 <= c < 4 :: y[c] == x[if c == 0 then 3 else c - 1]
  {
    [x[3], x[0], x[1], x[2]]
  }

  /** A row with every cell moved one place down: cell c takes cell c + 1, the last cell 0. */
  function RowRight<T>(x: seq<T>): (y: seq<T>)
    requires |x| == 4
    ensures |y| == 4 && forall c | 0 <= c < 4 :: y[c] == x[if c == 3 then 0 else c + 1]
  {
    [x[1], x[2], x[3], x[0]]
  }

  /** Cell i of every row taken from the row below, the bottom row's from the top row. */
  function ColUp<T>(g: seq<seq<T>>, i: nat): (h: seq<seq<T>>)
    requires Square(g) && i < 4
    ensures Square(h)
  {
    [g[0][i := g[1][i]], g[1][i := g[2][i]], g[2][i := g[3][i]], g[3][i := g[0][i]]]
  }

  /** Cell i of every row taken from the row above, the top row's from the bottom row. */
  function ColDown<T>(g: seq<seq<T>>, i: nat): (h: seq<seq<T>>)
    requires Square(g) && i < 4
    ensures Square(h)
  {
    [g[0][i := g[3][i]], g[1][i := g[0][i]], g[2][i := g[1][i]], g[3][i := g[2][i]]]
  }

  /** All cells, row by row. */
  function Cells<T>(g: seq<seq<T>>): seq<T>
    requires Square(g)
  {
    g[0] + g[1] + g[2] + g[3]
  }

  /** Moving a row left and right, either way round, gives the row back; four moves left also do. */
  lemma RowInverse<T>(x: seq<T>)
    requires |x| == 4
    ensures RowRight(RowLeft(x)) == x && RowLeft(RowRight(x)) == x
    ensures RowLeft(RowLeft(RowLeft(RowLeft(x)))) == x
  {
    assert RowRight(RowLeft(x)) == [x[0], x[1], x[2], x[3]] == x;
    assert RowLeft(RowRight(x)) == [x[0], x[1], x[2], x[3]];
    assert RowLeft(RowLeft(RowLeft(RowLeft(x)))) == [x[0], x[1], x[2], x[3]];
  }

  /** Two square grids with the same cells everywhere are equal. */
  lemma SquareEqual<T>(g: seq<seq<T>>, h: seq<seq<T>>)
    requires Square(g) && Square(h)
    requires forall k, c | 0 <= k < 4 && 0 <= c < 4 :: g[k][c] == h[k][c]
    ensures g == h
  {
    forall k | 0 <= k < 4
      ensures g[k] == h[k]
    {
    }
  }

  /** Moving a column up and down, either way round, gives the grid back. */
  lemma ColInverse<T>(g: seq<seq<T>>, i: nat)
    requires Square(g) && i < 4
    ensures ColDown(ColUp(g, i), i) == g && ColUp(ColDown(g, i), i) == g
  {
    SquareEqual(ColDown(ColUp(g, i), i), g);
    SquareEqual(ColUp(ColDown(g, i), i), g);
  }

  /** Four moves up of a column give the grid back. */
  lemma ColFour<T>(g: seq<seq<T>>, i: nat)
    requires Square(g) && i < 4
    ensures ColUp(ColUp(ColUp(ColUp(g, i), i), i), i) == g
  {
    var g1 := ColUp(g, i);
    var g2 := ColUp(g1, i);
    var g3 := ColUp(g2, i);
    SquareEqual(ColUp(g3, i), g);
  }

  /** 1 when the cell is v. */
  function Is<T(==)>(x: T, v: T): nat
  {
    if x == v then 1 else 0
  }

  /** The cells of a row equal to v. */
  function RowCount<T(==)>(x: seq<T>, v: T): nat
    requires |x| == 4
  {
    Is(x[0], v) + Is(x[1], v) + Is(x[2], v) + Is(x[3], v)
  }

  /** The cells of the grid equal to v. */
  function Count<T(==)>(g: seq<seq<T>>, v: T): nat
    requires Square(g)
  {
    RowCount(g[0], v) + RowCount(g[1], v) + RowCount(g[2], v) + RowCount(g[3], v)
  }

  /** Moving a row left or right keeps the number of cells of each value. */
  lemma RowMove<T>(g: seq<seq<T>>, i: nat, v: T)
    requires Square(g) && i < 4
    ensures Square(g[i := RowLeft(g[i])]) && Count(g[i := RowLeft(g[i])], v) == Count(g, v)
    ensures Square(g[i := RowRight(g[i])]) && Count(g[i := RowRight(g[i])], v) == Count(g, v)
  {
    var x := g[i];
    assert RowCount(RowLeft(x), v) == RowCount(x, v);
    assert RowCount(RowRight(x), v) == RowCount(x, v);
  }

  /** Moving a column up keeps the number of cells of each value. */
  lemma ColUpCount<T>(g: seq<seq<T>>, i: nat, v: T)
    requires Square(g) && i < 4
    ensures Count(ColUp(g, i), v) == Count(g, v)
  {
    var u := ColUp(g, i);
    assert RowCount(u[0], v) == RowCount(g[0], v) - Is(g[0][i], v) + Is(g[1][i], v);
    assert RowCount(u[1], v) == RowCount(g[1], v) - Is(g[1][i], v) + Is(g[2][i], v);
    assert RowCount(u[2], v) == RowCount(g[2], v) - Is(g[2][i], v) + Is(g[3][i], v);
    assert RowCount(u[3], v) == RowCount(g[3], v) - Is(g[3][i], v) + Is(g[0][i], v);
  }

  /** Moving a column down keeps the number of cells of each value. */
  lemma ColDownCount<T>(g: seq<seq<T>>, i: nat, v: T)
    requires Square(g) && i < 4
    ensures Count(ColDown(g, i), v) == Count(g, v)
  {
    var d := ColDown(g, i);
    assert RowCount(d[0], v) == RowCount(g[0], v) - Is(g[0][i], v) + Is(g[3][i], v);
    assert RowCount(d[1], v) == RowCount(g[1], v) - Is(g[1][i], v) + Is(g[0][i], v);
    assert RowCount(d[2], v) == RowCount(g[2], v) - Is(g[2][i], v) + Is(g[1][i], v);
    assert RowCount(d[3], v) == RowCount(g[3], v) - Is(g[3][i], v) + Is(g[2][i], v);
  }

  // ---- The bytes of the board

  /** The four cells of a row byte, cell c in bits 2c and 2c + 1 (cell 3 is the first letter of the row). */
  function Unpack(x: bv8): (cells: seq<bv8>)
    ensures |cells| == 4 && forall c | 0 <= c < 4 :: cells[c] <= 3
  {
    [x & 3, (x >> 2) & 3, (x >> 4) & 3, x >> 6]
  }

  /** The grid of cells of the board. */
  function Grid(r: Rubik): (g: seq<seq<bv8>>)
    ensures Square(g)
  {
    [Unpack(r[0]), Unpack(r[1]), Unpack(r[2]), Unpack(r[3])]
  }

  /** A row byte is determined by its cells. */
  lemma UnpackInjective(x: bv8, y: bv8)
    requires Unpack(x) == Unpack(y)
    ensures x == y
  {
    assert x & 3 == y & 3 && (x >> 2) & 3 == (y >> 2) & 3;
    assert (x >> 4) & 3 == (y >> 4) & 3 && x >> 6 == y >> 6;
  }

  /** A board is determined by its grid. */
  lemma GridInjective(r: Rubik, s: Rubik)
    requires Grid(r) == Grid(s)
    ensures r == s
  {
    forall k | 0 <= k < 4
      ensures r[k] == s[k]
    {
      assert Unpack(r[k]) == Grid(r)[k] == Grid(s)[k] == Unpack(s[k]);
      UnpackInjective(r[k], s[k]);
    }
  }

  /** The row rotated left by one cell: `(x << 2) + (x >> 6)`. */
  function RotLeft(x: bv8): (y: bv8)
    ensures Unpack(y) == RowLeft(Unpack(x))
  {
    var y := (x << 2) + (x >> 6);
    assert y & 3 == x >> 6 && (y >> 2) & 3 == x & 3;
    assert (y >> 4) & 3 == (x >> 2) & 3 && y >> 6 == (x >> 4) & 3;
    y
  }

  /** The row rotated right by one cell: `(x >> 2) + ((x & 0b11) << 6)`. */
  function RotRight(x: bv8): (y: bv8)
    ensures Unpack(y) == RowRight(Unpack(x))
  {
    var y := (x >> 2) + ((x & 3) << 6);
    assert y & 3 == (x >> 2) & 3 && (y >> 2) & 3 == (x >> 4) & 3;
    assert (y >> 4) & 3 == x >> 6 && y >> 6 == x & 3;
    y
  }

  /**
   * Cell i of y in place of cell i of x, `(x & !mask) + (y & mask)` with
   * `mask = 0b11 << i*2`, written out for each of the four masks.
   */
  function Splice(x: bv8, y: bv8, i: nat): (z: bv8)
    requires i < 4
    ensures Unpack(z) == Unpack(x)[i := Unpack(y)[i]]
  {
    if i == 0 then Splice0(x, y); (x & 0xFC) + (y & 0x03)
    else if i == 1 then Splice1(x, y); (x & 0xF3) + (y & 0x0C)
    else if i == 2 then Splice2(x, y); (x & 0xCF) + (y & 0x30)
    else Splice3(x, y); (x & 0x3F) + (y & 0xC0)
  }

  lemma Splice0(x: bv8, y: bv8)
    ensures Unpack((x & 0xFC) + (y & 0x03)) == Unpack(x)[0 := Unpack(y)[0]]
  {
    var z := (x & 0xFC) + (y & 0x03);
    assert z & 3 == y & 3 && (z >> 2) & 3 == (x >> 2) & 3 && (z >> 4) & 3 == (x >> 4) & 3 && z >> 6 == x >> 6;
  }

  lemma Splice1(x: bv8, y: bv8)
    ensures Unpack((x & 0xF3) + (y & 0x0C)) == Unpack(x)[1 := Unpack(y)[1]]
  {
    var z := (x & 0xF3) + (y & 0x0C);
    assert z & 3 == x & 3 && (z >> 2) & 3 == (y >> 2) & 3 && (z >> 4) & 3 == (x >> 4) & 3 && z >> 6 == x >> 6;
  }

  lemma Splice2(x: bv8, y: bv8)
    ensures Unpack((x & 0xCF) + (y & 0x30)) == Unpack(x)[2 := Unpack(y)[2]]
  {
    var z := (x & 0xCF) + (y & 0x30);
    assert z & 3 == x & 3 && (z >> 2) & 3 == (x >> 2) & 3 && (z >> 4) & 3 == (y >> 4) & 3 && z >> 6 == x >> 6;
  }

  lemma Splice3(x: bv8, y: bv8)
    ensures Unpack((x & 0x3F) + (y & 0xC0)) == Unpack(x)[3 := Unpack(y)[3]]
  {
    var z := (x & 0x3F) + (y & 0xC0);
    assert z & 3 == x & 3 && (z >> 2) & 3 == (x >> 2) & 3 && (z >> 4) & 3 == (x >> 4) & 3 && z >> 6 == y >> 6;
  }

  /** ACTIONS[0], Left: row i rotated left by one cell; the other rows unchanged. */
  function Left(r: Rubik, i: nat): (r': Rubik)
    requires i < 4
    ensures forall k | 0 <= k < 4 && k != i :: r'[k] == r[k]
    ensures Grid(r') == Grid(r)[i := RowLeft(Grid(r)[i])]
  {
    var r' := r[i := RotLeft(r[i])];
    assert Grid(r') == Grid(r)[i := RowLeft(Grid(r)[i])] by {
      SquareEqual(Grid(r'), Grid(r)[i := RowLeft(Grid(r)[i])]);
    }
    r'
  }

  /** ACTIONS[1], Right: row i rotated right by one cell; the other rows unchanged. */
  function Right(r: Rubik, i: nat): (r': Rubik)
    requires i < 4
    ensures forall k | 0 <= k < 4 && k != i :: r'[k] == r[k]
    ensures Grid(r') == Grid(r)[i := RowRight(Grid(r)[i])]
  {
    var r' := r[i := RotRight(r[i])];
    assert Grid(r') == Grid(r)[i := RowRight(Grid(r)[i])] by {
      SquareEqual(Grid(r'), Grid(r)[i := RowRight(Grid(r)[i])]);
    }
    r'
  }

  /** ACTIONS[2], Up: column cell i of each row from the row below, the bottom row's from the top row. */
  function Up(r: Rubik, i: nat): (r': Rubik)
    requires i < 4
    ensures Grid(r') == ColUp(Grid(r), i)
  {
    // the source saves row 0's cell in `tmp` because it overwrites row 0 first
    var r' := [Splice(r[0], r[1], i), Splice(r[1], r[2], i), Splice(r[2], r[3], i), Splice(r[3], r[0], i)];
    r'
  }

  /** ACTIONS[3], Down: column cell i of each row from the row above, the top row's from the bottom row. */
  function Down(r: Rubik, i: nat): (r': Rubik)
    requires i < 4
    ensures Grid(r') == ColDown(Grid(r), i)
  {
    // the source saves row 3's cell in `tmp` because it overwrites row 3 first
    var r' := [Splice(r[0], r[3], i), Splice(r[1], r[0], i), Splice(r[2], r[1], i), Splice(r[3], r[2], i)];
    r'
  }

  /** Replacing row i twice keeps the second replacement. */
  lemma UpdateTwice<T>(g: seq<seq<T>>, i: nat, x: seq<T>, y: seq<T>)
    requires i < |g|
    ensures g[i := x][i := y] == g[i := y] && g[i := g[i]] == g
  {
  }

  /** Left and Right on the same row undo each other, and four Lefts change nothing. */
  lemma LeftRight(r: Rubik, i: nat)
    requires i < 4
    ensures Right(Left(r, i), i) == r && Left(Right(r, i), i) == r
    ensures Left(Left(Left(Left(r, i), i), i), i) == r
  {
    var g := Grid(r);
    var x := g[i];
    RowInverse(x);
    var l, rr := Left(r, i), Right(r, i);
    UpdateTwice(g, i, RowLeft(x), RowRight(RowLeft(x)));
    UpdateTwice(g, i, RowRight(x), RowLeft(RowRight(x)));
    assert Grid(Right(l, i)) == g;
    GridInjective(Right(l, i), r);
    assert Grid(Left(rr, i)) == g;
    GridInjective(Left(rr, i), r);
    var l2 := Left(l, i);
    var l3 := Left(l2, i);
    UpdateTwice(g, i, RowLeft(x), RowLeft(RowLeft(x)));
    UpdateTwice(g, i, RowLeft(RowLeft(x)), RowLeft(RowLeft(RowLeft(x))));
    UpdateTwice(g, i, RowLeft(RowLeft(RowLeft(x))), RowLeft(RowLeft(RowLeft(RowLeft(x)))));
    assert Grid(l3) == g[i := RowLeft(RowLeft(RowLeft(x)))];
    assert Grid(Left(l3, i)) == g;
    GridInjective(Left(l3, i), r);
  }

  /** Up and Down on the same column undo each other, and four Ups change nothing. */
  lemma UpDown(r: Rubik, i: nat)
    requires i < 4
    ensures Down(Up(r, i), i) == r && Up(Down(r, i), i) == r
    ensures Up(Up(Up(Up(r, i), i), i), i) == r
  {
    var g := Grid(r);
    ColInverse(g, i);
    ColFour(g, i);
    GridInjective(Down(Up(r, i), i), r);
    GridInjective(Up(Down(r, i), i), r);
    GridInjective(Up(Up(Up(Up(r, i), i), i), i), r);
  }

  /** The four entries of ACTIONS. */
  datatype Action = MoveLeft | MoveRight | MoveUp | MoveDown

  /** `ACTIONS[a](r, i)`: every action moves the cells around, so each colour keeps its number of cells. */
  function Act(a: Action, r: Rubik, i: nat): (r': Rubik)
    requires i < 4
    ensures forall col: bv8 :: Count(Grid(r'), col) == Count(Grid(r), col)
  {
    forall col: bv8
      ensures Count(Grid(Left(r, i)), col) == Count(Grid(r), col)
      ensures Count(Grid(Right(r, i)), col) == Count(Grid(r), col)
      ensures Count(Grid(Up(r, i)), col) == Count(Grid(r), col)
      ensures Count(Grid(Down(r, i)), col) == Count(Grid(r), col)
    {
      RowMove(Grid(r), i, col);
      ColUpCount(Grid(r), i, col);
      ColDownCount(Grid(r), i, col);
    }
    match a
    case MoveLeft => Left(r, i)
    case MoveRight => Right(r, i)
    case MoveUp => Up(r, i)
    case MoveDown => Down(r, i)
  }

  /** The board after a sequence of moves, each an action and its row or column. */
  function Run(r: Rubik, moves: seq<(Action, nat)>): Rubik
    requires forall m | m in moves :: m.1 < 4
    decreases |moves|
  {
    if moves == [] then r else Run(Act(moves[0].0, r, moves[0].1), moves[1..])
  }

  /** Any sequence of moves keeps the number of cells of every colour. */
  lemma {:induction false} RunCount(r: Rubik, moves: seq<(Action, nat)>, col: bv8)
    requires forall m | m in moves :: m.1 < 4
    ensures Count(Grid(Run(r, moves)), col) == Count(Grid(r), col)
    decreases |moves|
  {
    if moves != [] {
      RunCount(Act(moves[0].0, r, moves[0].1), moves[1..], col);
    }
  }

  /** The solved board is reachable only from a board with four cells of each colour. */
  lemma Solvable(r: Rubik, moves: seq<(Action, nat)>, col: bv8)
    requires forall m | m in moves :: m.1 < 4
    requires Run(r, moves) == GOAL && col <= 3
    ensures Count(Grid(r), col) == 4
  {
    RunCount(r, moves, col);
    assert Unpack(0x00) == [0, 0, 0, 0] && Unpack(0x55) == [1, 1, 1, 1];
    assert Unpack(0xAA) == [2, 2, 2, 2] && Unpack(0xFF) == [3, 3, 3, 3];
  }

  /** The base case of `find_path`: a solved board needs no move; otherwise the search runs. */
  function FindPathBase(r: Rubik): (d: Option<nat>)
    ensures d == Some(0) <==> r == GOAL
    ensures d.Some? ==> Run(r, []) == GOAL
  {
    if r == GOAL then Some(0) else None
  }

  // ---- Reading and printing rows

  /** The colour letters of `solve`; None where `solve` panics. */
  function Colour(ch: char): (o: Option<bv8>)
    ensures o.Some? <==> ch in "RGBY"
    ensures o.Some? ==> o.value <= 3
  {
    match ch
    case 'R' => Some(R)
    case 'G' => Some(G)
    case 'B' => Some(B)
    case 'Y' => Some(Y)
    case _ => None
  }

  /** The letter of a colour, as `print_rubik` writes it. */
  function Letter(c: bv8): (ch: char)
    requires c <= 3
    ensures Colour(ch) == Some(c)
  {
    if c == R then 'R' else if c == G then 'G' else if c == B then 'B' else 'Y'
  }

  lemma Pack(a: bv8, b: bv8, c: bv8, d: bv8)
    requires a <= 3 && b <= 3 && c <= 3 && d <= 3
    ensures Unpack((a << 6) + (b << 4) + (c << 2) + d) == [d, c, b, a]
  {
    var x := (a << 6) + (b << 4) + (c << 2) + d;
    assert x & 3 == d && (x >> 2) & 3 == c && (x >> 4) & 3 == b && x >> 6 == a;
  }

  /** Letter c at position k of a line, as `solve` maps it: its colour shifted to cell 3 - k. */
  function Shifted(c: char, k: nat): (o: Option<bv8>)
    requires k <= 3
    ensures o.Some? <==> c in "RGBY"
  {
    match Colour(c)
    case None => None
    case Some(v) => Some(v << (2 * (3 - k)))
  }

  /** The sum of the shifted letters k.. of a line; None if one of them is unknown. */
  function Packed(line: string, k: nat): (o: Option<bv8>)
    requires k <= |line| <= 4
    ensures o.Some? <==> forall j | k <= j < |line| :: line[j] in "RGBY"
    decreases |line| - k
  {
    if k == |line| then Some(0)
    else
      match (Shifted(line[k], k), Packed(line, k + 1))
      case (Some(a), Some(b)) => Some(a + b)
      case _ => None
  }

  /** A line of fewer than four letters, completed with R, the colour 0. */
  function Pad(line: string): (p: string)
    requires |line| <= 4
    ensures |p| == 4 && p[..|line|] == line && forall k | |line| <= k < 4 :: p[k] == 'R'
  {
    line + seq(4 - |line|, _ => 'R')
  }

  /** An R after the end of a line adds 0 to its sum. */
  lemma {:induction false} PackedR(line: string, k: nat)
    requires k <= |line| < 4
    ensures Packed(line + ['R'], k) == Packed(line, k)
    decreases |line| - k
  {
    var longer := line + ['R'];
    if k == |line| {
      assert longer[k] == 'R' && Packed(longer, k + 1) == Some(0);
    } else {
      assert longer[k] == line[k];
      PackedR(line, k + 1);
    }
  }

  /** A line sums to what the line completed with R sums to. */
  lemma {:induction false} Padded(line: string)
    requires |line| <= 4
    ensures Packed(Pad(line), 0) == Packed(line, 0)
    decreases 4 - |line|
  {
    if |line| < 4 {
      assert Pad(line + ['R']) == Pad(line);
      PackedR(line, 0);
      Padded(line + ['R']);
    } else {
      assert Pad(line) == line;
    }
  }

  /** One step of the sum: letter k's shifted colour plus the sum of the rest. */
  lemma PackedStep(line: string, k: nat, shifted: bv8, rest: bv8)
    requires k < |line| <= 4 && Shifted(line[k], k) == Some(shifted) && Packed(line, k + 1) == Some(rest)
    ensures Packed(line, k) == Some(shifted + rest)
  {
  }

  /** The shifts of the four positions of a line: 6, 4, 2 and 0 bits. */
  lemma Shifts(line: string, c0: bv8, c1: bv8, c2: bv8, c3: bv8)
    requires |line| == 4
    requires Colour(line[0]) == Some(c0) && Colour(line[1]) == Some(c1)
    requires Colour(line[2]) == Some(c2) && Colour(line[3]) == Some(c3)
    ensures Shifted(line[3], 3) == Some(c3) && Shifted(line[2], 2) == Some(c2 << 2)
    ensures Shifted(line[1], 1) == Some(c1 << 4) && Shifted(line[0], 0) == Some(c0 << 6)
  {
    assert c3 << 0 == c3;
  }

  /** The sum of four known letters, the shifts written out. */
  lemma FourSum(line: string, c0: bv8, c1: bv8, c2: bv8, c3: bv8)
    requires |line| == 4
    requires Colour(line[0]) == Some(c0) && Colour(line[1]) == Some(c1)
    requires Colour(line[2]) == Some(c2) && Colour(line[3]) == Some(c3)
    ensures Packed(line, 0) == Some((c0 << 6) + (c1 << 4) + (c2 << 2) + c3)
  {
    Shifts(line, c0, c1, c2, c3);
    PackedStep(line, 3, c3, 0);
    PackedStep(line, 2, c2 << 2, c3 + 0);
    PackedStep(line, 1, c1 << 4, (c2 << 2) + (c3 + 0));
    PackedStep(line, 0, c0 << 6, (c1 << 4) + ((c2 << 2) + (c3 + 0)));
    Regroup(c0 << 6, c1 << 4, c2 << 2, c3);
  }

  lemma Regroup(a: bv8, b: bv8, c: bv8, d: bv8)
    ensures a + (b + (c + (d + 0))) == a + b + c + d
  {
  }

  /** The sum of four known letters puts letter k into cell 3 - k. */
  lemma Four(line: string)
    requires |line| == 4 && forall k | 0 <= k < 4 :: line[k] in "RGBY"
    ensures Packed(line, 0).Some?
    ensures Unpack(Packed(line, 0).value)
         == [Colour(line[3]).value, Colour(line[2]).value, Colour(line[1]).value, Colour(line[0]).value]
  {
    var c0, c1, c2, c3 := Colour(line[0]).value, Colour(line[1]).value, Colour(line[2]).value, Colour(line[3]).value;
    FourSum(line, c0, c1, c2, c3);
    Pack(c0, c1, c2, c3);
  }

  /**
   * One line of `solve`: letter k is shifted to cell 3 - k and the letters
   * are added up, so a line of fewer than four letters leaves the cells
   * after it R; None on an unknown letter.
   */
  function EncodeRow(line: string): (o: Option<bv8>)
    requires |line| <= 4
    ensures o.Some? <==> forall k | 0 <= k < |line| :: line[k] in "RGBY"
    ensures o.Some? ==> forall c | 0 <= c < 4 :: Unpack(o.value)[c] == if 3 - c < |line| then Colour(line[3 - c]).value else R
  {
    Padded(line);
    var pad := Pad(line);
    assert forall k | 0 <= k < |line| :: pad[k] == line[k];
    if Packed(line, 0).Some? then Four(pad); Packed(line, 0) else Packed(line, 0)
  }

  /** `print_rubik`'s reading of one row: the letter of cell 3 - o at position o. */
  function DecodeRow(x: bv8): (line: string)
    ensures |line| == 4 && forall o | 0 <= o < 4 :: Colour(line[o]) == Some(Unpack(x)[3 - o])
  {
    var cells := Unpack(x);
    [Letter(cells[3]), Letter(cells[2]), Letter(cells[1]), Letter(cells[0])]
  }

  /**
   * Reading a row of colour letters and printing it gives the row back,
   * completed with R when it is short; printing and reading give the byte back.
   */
  lemma RowRoundTrip(line: string, x: bv8)
    requires |line| <= 4 && forall k | 0 <= k < |line| :: line[k] in "RGBY"
    ensures EncodeRow(line).Some? && DecodeRow(EncodeRow(line).value) == Pad(line)
    ensures |line| == 4 ==> DecodeRow(EncodeRow(line).value) == line
    ensures EncodeRow(DecodeRow(x)) == Some(x)
  {
    var y := EncodeRow(line).value;
    var back := DecodeRow(y);
    var pad := Pad(line);
    forall k | 0 <= k < 4
      ensures back[k] == pad[k]
    {
      assert Colour(back[k]) == Some(Unpack(y)[3 - k]);
      assert Unpack(y)[3 - k] == if k < |line| then Colour(line[k]).value else R;
      if k < |line| {
        assert pad[k] == pad[..|line|][k] == line[k];
        assert Colour(line[k]).Some?;
      } else {
        assert pad[k] == 'R' && Colour('R') == Some(R);
      }
      assert Colour(back[k]) == Colour(pad[k]);
      ColourInjective(back[k], pad[k]);
    }
    if |line| == 4 {
      assert pad == pad[..|line|] == line;
    }
    var z := EncodeRow(DecodeRow(x)).value;
    forall c | 0 <= c < 4
      ensures Unpack(z)[c] == Unpack(x)[c]
    {
      assert Unpack(z)[3 - (3 - c)] == Colour(DecodeRow(x)[3 - c]).value;
    }
    assert Unpack(z) == Unpack(x);
    UnpackInjective(z, x);
  }

  lemma ColourInjective(a: char, b: char)
    requires Colour(a).Some? && Colour(a) == Colour(b)
    ensures a == b
  {
  }
}
