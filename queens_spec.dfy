/*
 * What the backtracking of src/holeynqueensbatman.rs computes: queens as
 * one column per row, boards as the program's twelve rows with bit c of a
 * row set for a queen in column c, and every placement of queens on the
 * first rows extended in column order.
 */
module QueensSpec {
  import opened NumberTheory

  /** The rows of a `QueenBoard`. */
  const ROWS: nat := 12

  /** A queen in column c as its row's value, `1 << c`. */
  function Pow2(c: nat): (r: int)
    ensures r >= 1
  {
    if c == 0 then 1 else 2 * Pow2(c - 1)
  }

  /** Bit c of a row, `x >> c & 1`. */
  function Bit(x: int, c: nat): int
  {
    (x / Pow2(c)) % 2
  }

  lemma {:induction false} Pow2Below(c: nat, d: nat)
    requires c < d
    ensures Pow2(c) < Pow2(d)
    decreases d
  {
    if c < d - 1 {
      Pow2Below(c, d - 1);
    }
  }

  lemma {:induction false} Pow2Add(c: nat, d: nat)
    ensures Pow2(c + d) == Pow2(c) * Pow2(d)
    decreases c
  {
    if c > 0 {
      Pow2Add(c - 1, d);
      assert 2 * (Pow2(c - 1) * Pow2(d)) == (2 * Pow2(c - 1)) * Pow2(d);
    }
  }

  /** A queen in column c sets bit c of its row and no other. */
  lemma QueenBit(c: nat, d: nat)
    ensures Bit(Pow2(c), d) == if c == d then 1 else 0
  {
    if c < d {
      Pow2Below(c, d);
      ModUnique(Pow2(c), Pow2(d), 0, Pow2(c));
    } else {
      var k := c - d;
      Pow2Add(k, d);
      ModUnique(Pow2(c), Pow2(d), Pow2(k), 0);
      if k > 0 {
        ModUnique(Pow2(k), 2, Pow2(k - 1), 0);
      }
    }
  }

  /** A row without a queen has no bit set. */
  lemma EmptyBit(d: nat)
    ensures Bit(0, d) == 0
  {
  }

  /** Every queen stands in one of the size columns. */
  ghost predicate Within(cols: seq<int>, size: nat)
  {
    forall r | 0 <= r < |cols| :: 0 <= cols[r] < size
  }

  /** No two queens share a column or a diagonal. */
  ghost predicate NonAttacking(cols: seq<int>)
  {
    forall i, j | 0 <= i < j < |cols| :: cols[i] != cols[j] && cols[j] - cols[i] != j - i && cols[i] - cols[j] != j - i
  }

  /** No queen of cols stands in column col. */
  ghost predicate FreeColumn(cols: seq<int>, col: int)
  {
    forall i | 0 <= i < |cols| :: cols[i] != col
  }

  /** No queen of cols stands on the diagonal going up and left from column col of the next row. */
  ghost predicate FreeUpLeft(cols: seq<int>, col: int)
  {
    forall i | 0 <= i < |cols| :: col - cols[i] != |cols| - i
  }

  /** No queen of cols stands on the diagonal going up and right from column col of the next row. */
  ghost predicate FreeUpRight(cols: seq<int>, col: int)
  {
    forall i | 0 <= i < |cols| :: cols[i] - col != |cols| - i
  }

  /** A queen in column col of the next row attacks none of the queens of cols. */
  ghost predicate Safe(cols: seq<int>, col: int)
  {
    FreeColumn(cols, col) && FreeUpLeft(cols, col) && FreeUpRight(cols, col)
  }

  /** A queen in column col of the next row keeps the queens within size columns. */
  lemma WithinExtends(cols: seq<int>, size: nat, col: int)
    requires Within(cols, size) && 0 <= col < size
    ensures Within(cols + [col], size)
  {
    var next := cols + [col];
    forall r | 0 <= r < |next|
      ensures 0 <= next[r] < size
    {
      if r < |cols| {
        assert next[r] == cols[r];
      }
    }
  }

  /** Adding a queen keeps the queens apart exactly when it is safe. */
  lemma SafeExtends(cols: seq<int>, col: int)
    ensures NonAttacking(cols + [col]) <==> NonAttacking(cols) && Safe(cols, col)
  {
    var c := cols + [col];
    if NonAttacking(c) {
      forall i, j | 0 <= i < j < |cols|
        ensures cols[i] != cols[j] && cols[j] - cols[i] != j - i && cols[i] - cols[j] != j - i
      {
        assert c[i] == cols[i] && c[j] == cols[j];
      }
      forall i | 0 <= i < |cols|
        ensures cols[i] != col && col - cols[i] != |cols| - i && cols[i] - col != |cols| - i
      {
        assert c[i] == cols[i] && c[|cols|] == col;
      }
    }
  }

  /** The twelve rows of the board holding the queens of cols. */
  function BoardOf(cols: seq<int>): (b: seq<int>)
    requires |cols| <= ROWS && forall r | 0 <= r < |cols| :: cols[r] >= 0
    ensures |b| == ROWS
  {
    seq(ROWS, r requires 0 <= r < ROWS => if r < |cols| then Pow2(cols[r]) else 0)
  }

  /** Every row of a board holds one queen bit, at its queen's column, up to |cols|, and no bit after. */
  lemma QueenBits(cols: seq<int>, r: nat, c: nat)
    requires |cols| <= ROWS && forall k | 0 <= k < |cols| :: cols[k] >= 0
    requires r < ROWS
    ensures Bit(BoardOf(cols)[r], c) == 1 <==> r < |cols| && cols[r] == c
  {
    if r < |cols| {
      QueenBit(cols[r], c);
    } else {
      EmptyBit(c);
    }
  }

  /**
   * The boards that complete the queens of cols on size rows, in the order
   * the backtracking finds them.
   */
  ghost function Completions(cols: seq<int>, size: nat): seq<seq<int>>
    requires |cols| <= size
    decreases size - |cols|, size + 1
  {
    if |cols| == size then [cols] else Extend(cols, size, 0)
  }

  /** The completions with the next queen in column col or after. */
  ghost function Extend(cols: seq<int>, size: nat, col: nat): seq<seq<int>>
    requires |cols| < size
    decreases size - |cols|, size - col
  {
    if col >= size then []
    else (if Safe(cols, col) then Completions(cols + [col], size) else []) + Extend(cols, size, col + 1)
  }

  /** A full placement: size queens, one per row, in the size columns, none attacking another. */
  ghost predicate Solution(b: seq<int>, size: nat)
  {
    |b| == size && Within(b, size) && NonAttacking(b)
  }

  /** Every completion is a solution extending cols. */
  lemma {:induction false} CompletionsSound(cols: seq<int>, size: nat, b: seq<int>)
    requires |cols| <= size && Within(cols, size) && NonAttacking(cols)
    requires b in Completions(cols, size)
    ensures Solution(b, size) && cols <= b
    decreases size - |cols|, size + 1
  {
    if |cols| < size {
      ExtendSound(cols, size, 0, b);
    }
  }

  lemma {:induction false} ExtendSound(cols: seq<int>, size: nat, col: nat, b: seq<int>)
    requires |cols| < size && Within(cols, size) && NonAttacking(cols)
    requires b in Extend(cols, size, col)
    ensures Solution(b, size) && cols <= b
    decreases size - |cols|, size - col
  {
    if col < size {
      if Safe(cols, col) && b in Completions(cols + [col], size) {
        SafeExtends(cols, col);
        var c := cols + [col];
        assert Within(c, size) by {
          forall r | 0 <= r < |c|
            ensures 0 <= c[r] < size
          {
            if r < |cols| {
              assert c[r] == cols[r];
            }
          }
        }
        CompletionsSound(c, size, b);
        assert cols <= c;
      } else {
        assert b in Extend(cols, size, col + 1);
        ExtendSound(cols, size, col + 1, b);
      }
    }
  }

  /** Every solution is among the completions of each of its prefixes. */
  lemma {:induction false} CompletionsComplete(cols: seq<int>, size: nat, b: seq<int>)
    requires Solution(b, size) && cols <= b
    ensures |cols| <= size && b in Completions(cols, size)
    decreases size - |cols|, size + 1
  {
    if |cols| < size {
      ExtendComplete(cols, size, 0, b);
    } else {
      assert cols == b;
    }
  }

  lemma {:induction false} ExtendComplete(cols: seq<int>, size: nat, col: nat, b: seq<int>)
    requires Solution(b, size) && cols <= b && |cols| < size && col <= b[|cols|]
    ensures b in Extend(cols, size, col)
    decreases size - |cols|, size - col
  {
    var n := |cols|;
    if col == b[n] {
      var c := cols + [col];
      assert c == b[..n + 1];
      assert c <= b;
      assert Safe(cols, col) by {
        forall i | 0 <= i < n
          ensures cols[i] != col && col - cols[i] != n - i && cols[i] - col != n - i
        {
          assert cols[i] == b[i];
        }
        assert FreeColumn(cols, col) && FreeUpLeft(cols, col) && FreeUpRight(cols, col);
      }
      CompletionsComplete(c, size, b);
    } else {
      ExtendComplete(cols, size, col + 1, b);
    }
  }

  /** The boards of a list of placements. */
  function Boards(sols: seq<seq<int>>): (r: seq<seq<int>>)
    requires forall k | 0 <= k < |sols| :: |sols[k]| <= ROWS && forall r | 0 <= r < |sols[k]| :: sols[k][r] >= 0
    ensures |r| == |sols| && forall k | 0 <= k < |sols| :: r[k] == BoardOf(sols[k])
  {
    if sols == [] then [] else [BoardOf(sols[0])] + Boards(sols[1..])
  }

  /** Placements that BoardOf can draw. */
  ghost predicate Drawable(sols: seq<seq<int>>)
  {
    forall k | 0 <= k < |sols| :: |sols[k]| <= ROWS && forall r | 0 <= r < |sols[k]| :: sols[k][r] >= 0
  }

  /** Completions on at most twelve rows can be drawn. */
  lemma ExtendDrawable(cols: seq<int>, size: nat, col: nat)
    requires |cols| < size <= ROWS && Within(cols, size) && NonAttacking(cols)
    ensures Drawable(Extend(cols, size, col))
  {
    var e := Extend(cols, size, col);
    forall k | 0 <= k < |e|
      ensures |e[k]| <= ROWS && forall r | 0 <= r < |e[k]| :: e[k][r] >= 0
    {
      ExtendSound(cols, size, col, e[k]);
    }
  }

  /** Completions on at most twelve rows can be drawn. */
  lemma CompletionsDrawable(cols: seq<int>, size: nat)
    requires |cols| <= size <= ROWS && Within(cols, size) && NonAttacking(cols)
    ensures Drawable(Completions(cols, size))
  {
    if |cols| < size {
      ExtendDrawable(cols, size, 0);
    }
  }

  /** Drawing a concatenation draws both parts. */
  lemma BoardsAppend(a: seq<seq<int>>, b: seq<seq<int>>)
    requires Drawable(a) && Drawable(b)
    ensures Drawable(a + b) && Boards(a + b) == Boards(a) + Boards(b)
  {
    assert Drawable(a + b) by {
      forall k | 0 <= k < |a + b|
        ensures |(a + b)[k]| <= ROWS && forall r | 0 <= r < |(a + b)[k]| :: (a + b)[k][r] >= 0
      {
        if k >= |a| {
          assert (a + b)[k] == b[k - |a|];
        }
      }
    }
  }

  /**
   * The loop of `generate_boards` before column col: the boards found so far
   * and those still to come are all of them.
   */
  ghost predicate Generated(cols: seq<int>, size: nat, col: nat, result: seq<seq<int>>)
    requires |cols| < size <= ROWS && Within(cols, size) && NonAttacking(cols)
  {
    ExtendDrawable(cols, size, 0);
    ExtendDrawable(cols, size, col);
    Boards(Extend(cols, size, 0)) == result + Boards(Extend(cols, size, col))
  }

  /** Column col adds the boards of its completions when it is safe, and nothing otherwise. */
  lemma GeneratedStep(cols: seq<int>, size: nat, col: nat, result: seq<seq<int>>, ok: bool, sub: seq<seq<int>>)
    requires |cols| < size <= ROWS && col < size && Within(cols, size) && NonAttacking(cols)
    requires Generated(cols, size, col, result)
    requires ok <==> Safe(cols, col)
    requires ok ==> Within(cols + [col], size) && NonAttacking(cols + [col])
    requires ok ==> Drawable(Completions(cols + [col], size)) && sub == Boards(Completions(cols + [col], size))
    ensures Generated(cols, size, col + 1, if ok then result + sub else result)
  {
    ExtendDrawable(cols, size, col);
    ExtendDrawable(cols, size, col + 1);
    if ok {
      BoardsAppend(Completions(cols + [col], size), Extend(cols, size, col + 1));
    }
  }

  /** Before the first column no board is found; after the last every completion is. */
  lemma GeneratedEnds(cols: seq<int>, size: nat, result: seq<seq<int>>)
    requires |cols| < size <= ROWS && Within(cols, size) && NonAttacking(cols)
    ensures Generated(cols, size, 0, [])
    ensures Generated(cols, size, size, result) ==> Drawable(Completions(cols, size)) && result == Boards(Completions(cols, size))
  {
    ExtendDrawable(cols, size, 0);
  }
}
