/*
 * src/closestpair2.rs: the coordinates of a point are read as fixed-point
 * numbers scaled by 100, and the closest pair is the least triple (squared
 * distance, first point, second point) in Rust's lexicographic order.
 */
module ClosestPair {
  import opened Wrappers

  // ---- parse_float

  /** The characters `to_digit(10)` accepts. */
  predicate IsDigit(c: char)
  {
    '0' <= c <= '9'
  }

  /** The digits of s, in order. */
  function Digits(s: string): (ds: string)
    ensures forall k | 0 <= k < |ds| :: IsDigit(ds[k])
  {
    if s == [] then [] else Digits(s[..|s| - 1]) + (if IsDigit(s[|s| - 1]) then [s[|s| - 1]] else [])
  }

  /** The number the digits spell, most significant first. */
  function Value(ds: string): (v: int)
    requires forall k | 0 <= k < |ds| :: IsDigit(ds[k])
    ensures v >= 0
  {
    if ds == [] then 0
    else
      assert IsDigit(ds[|ds| - 1]);
      Value(ds[..|ds| - 1]) * 10 + (ds[|ds| - 1] as int - '0' as int)
  }

  /** The number of digits of s that follow a '.'. */
  function Decimals(s: string): nat
  {
    if s == [] then 0
    else Decimals(s[..|s| - 1]) + (if IsDigit(s[|s| - 1]) && '.' in s[..|s| - 1] then 1 else 0)
  }

  /** Only signs, dots and digits. */
  predicate Numeral(s: string)
  {
    forall k | 0 <= k < |s| :: s[k] == '-' || s[k] == '.' || IsDigit(s[k])
  }

  /**
   * What `parse_float` computes: the digits of s as one number, times 100
   * with no decimal, times 10 with one, negated when s holds a '-'.
   */
  function Scaled(s: string): int
    requires Numeral(s)
  {
    var v := Value(Digits(s));
    var count := Decimals(s);
    var w := if count == 0 then v * 100 else if count == 1 then v * 10 else v;
    if '-' in s then -w else w
  }

  /** Reading one more character. */
  lemma Snoc(s: string, c: char)
    ensures Digits(s + [c]) == if IsDigit(c) then Digits(s) + [c] else Digits(s)
    ensures Decimals(s + [c]) == if IsDigit(c) && '.' in s then Decimals(s) + 1 else Decimals(s)
    ensures ('-' in s + [c]) == ('-' in s || c == '-') && ('.' in s + [c]) == ('.' in s || c == '.')
    ensures Numeral(s + [c]) <==> Numeral(s) && (c == '-' || c == '.' || IsDigit(c))
  {
    assert (s + [c])[..|s|] == s;
    assert (s + [c])[|s|] == c;
    assert Numeral(s + [c]) ==> Numeral(s) by {
      if Numeral(s + [c]) {
        forall k | 0 <= k < |s|
          ensures s[k] == '-' || s[k] == '.' || IsDigit(s[k])
        {
          assert s[k] == (s + [c])[k];
        }
      }
    }
  }

  /** One more digit: the number shifts one place and takes it. */
  lemma ValueSnoc(ds: string, c: char)
    requires forall k | 0 <= k < |ds| :: IsDigit(ds[k])
    requires IsDigit(c)
    ensures forall k | 0 <= k < |ds + [c]| :: IsDigit((ds + [c])[k])
    ensures Value(ds + [c]) == Value(ds) * 10 + (c as int - '0' as int)
  {
    assert (ds + [c])[..|ds|] == ds;
  }

  /**
   * `parse_float`: the digits read into one number and the decimals counted,
   * then scaled to hundredths; None where `to_digit(10).unwrap()` panics.
   */
  method ParseFloat(inp: string) returns (r: Option<int>)
    ensures r.Some? <==> Numeral(inp)
    ensures r.Some? ==> r.value == Scaled(inp)
  {
    var ans := 0;
    var minus := false;
    var count := 0;
    var afterDot := false;
    for i := 0 to |inp|
      invariant Numeral(inp[..i])
      invariant ans == Value(Digits(inp[..i])) && count == Decimals(inp[..i])
      invariant minus == ('-' in inp[..i]) && afterDot == ('.' in inp[..i])
    {
      var c := inp[i];
      assert inp[..i + 1] == inp[..i] + [c];
      Snoc(inp[..i], c);
      if c == '-' {
        minus := true;
      } else if c == '.' {
        afterDot := true;
      } else if IsDigit(c) {
        ValueSnoc(Digits(inp[..i]), c);
        ans := ans * 10 + (c as int - '0' as int);
        if afterDot {
          count := count + 1;
        }
      } else {
        assert !Numeral(inp) by {
          assert inp[i] == c;
        }
        return None;
      }
    }
    assert inp[..|inp|] == inp;
    if count == 0 {
      ans := ans * 100;
    } else if count == 1 {
      ans := ans * 10;
    }
    if minus {
      r := Some(-ans);
    } else {
      r := Some(ans);
    }
  }

  /** Ten to the power e. */
  function Pow10(e: nat): (r: int)
    ensures r >= 1
  {
    if e == 0 then 1 else 10 * Pow10(e - 1)
  }

  lemma Shift(x: int, p: int, v: int, d: int)
    ensures (x * p + v) * 10 + d == x * (10 * p) + (v * 10 + d)
  {
  }

  /** The digits of a + b: those of a shifted past b's, then b's. */
  lemma {:induction false} ValueAppend(a: string, b: string)
    requires forall k | 0 <= k < |a| :: IsDigit(a[k])
    requires forall k | 0 <= k < |b| :: IsDigit(b[k])
    ensures forall k | 0 <= k < |a + b| :: IsDigit((a + b)[k])
    ensures Value(a + b) == Value(a) * Pow10(|b|) + Value(b)
    decreases |b|
  {
    if b == [] {
      assert a + b == a;
    } else {
      var b' := b[..|b| - 1];
      var c := b[|b| - 1];
      assert b == b' + [c];
      assert a + b == (a + b') + [c];
      ValueAppend(a, b');
      ValueSnoc(a + b', c);
      ValueSnoc(b', c);
      Shift(Value(a), Pow10(|b'|), Value(b'), c as int - '0' as int);
    }
  }

  /** A string of digits only. */
  predicate AllDigits(s: string)
  {
    forall k | 0 <= k < |s| :: IsDigit(s[k])
  }

  /** Digits alone are a numeral with neither sign nor dot, read as themselves. */
  lemma {:induction false} PlainDigits(s: string)
    requires AllDigits(s)
    ensures Digits(s) == s && Decimals(s) == 0 && '.' !in s && '-' !in s && Numeral(s)
  {
    if s != [] {
      var s' := s[..|s| - 1];
      assert s == s' + [s[|s| - 1]];
      PlainDigits(s');
      Snoc(s', s[|s| - 1]);
    }
  }

  /** The digits and decimals of head + tail, where tail holds only digits. */
  lemma {:induction false} AppendDigits(head: string, tail: string)
    requires AllDigits(tail)
    ensures Digits(head + tail) == Digits(head) + tail
    ensures Decimals(head + tail) == Decimals(head) + (if '.' in head then |tail| else 0)
    ensures ('-' in head + tail) == ('-' in head) && ('.' in head + tail) == ('.' in head)
    ensures Numeral(head + tail) <==> Numeral(head)
    decreases |tail|
  {
    if tail == [] {
      assert head + tail == head;
    } else {
      var t' := tail[..|tail| - 1];
      var c := tail[|tail| - 1];
      assert tail == t' + [c];
      assert head + tail == (head + t') + [c];
      AppendDigits(head, t');
      Snoc(head + t', c);
    }
  }

  /** The optional sign: a numeral with no digits, minus exactly when the sign is there. */
  lemma Sign(neg: bool)
    ensures var sign := if neg then "-" else "";
      Numeral(sign) && Digits(sign) == [] && Decimals(sign) == 0 && '.' !in sign && ('-' in sign <==> neg)
  {
    if neg {
      assert "-" == [] + ['-'];
      Snoc([], '-');
    }
  }

  /** The part of a numeral before its decimals: `[-]whole[.]`. */
  lemma Head(neg: bool, whole: string, dot: bool)
    requires AllDigits(whole)
    ensures var head := (if neg then "-" else "") + whole + (if dot then "." else "");
      Numeral(head) && Digits(head) == whole && Decimals(head) == 0 &&
      ('.' in head <==> dot) && ('-' in head <==> neg)
  {
    var sign := if neg then "-" else "";
    Sign(neg);
    AppendDigits(sign, whole);
    PlainDigits(whole);
    var front := sign + whole;
    if dot {
      Snoc(front, '.');
      assert front + (if dot then "." else "") == front + ['.'];
    } else {
      assert front + (if dot then "." else "") == front;
    }
  }

  /** Scaling by the decimals missing up to two gives hundredths. */
  lemma Hundredths(w: int, f: int, n: nat)
    requires n <= 2
    ensures var v := w * Pow10(n) + f;
      (if n == 0 then v * 100 else if n == 1 then v * 10 else v) == w * 100 + f * Pow10(2 - n)
  {
    assert Pow10(1) == 10;
    assert Pow10(2) == 100;
  }

  /** Up to two decimals after a head read as a whole number are read as hundredths. */
  lemma Decimal(head: string, whole: string, frac: string, neg: bool)
    requires AllDigits(whole) && AllDigits(frac) && |frac| <= 2
    requires Numeral(head) && Digits(head) == whole && Decimals(head) == 0
    requires ('-' in head) == neg && ('.' in head || frac == [])
    ensures var hundredths := Value(whole) * 100 + Value(frac) * Pow10(2 - |frac|);
      Numeral(head + frac) && Scaled(head + frac) == if neg then -hundredths else hundredths
  {
    AppendDigits(head, frac);
    ValueAppend(whole, frac);
    Hundredths(Value(whole), Value(frac), |frac|);
  }

  /**
   * A numeral `[-]whole[.frac]` with at most two decimals is read as its
   * value times 100.
   */
  lemma ParseNumeral(neg: bool, whole: string, frac: string, dot: bool)
    requires AllDigits(whole) && AllDigits(frac)
    requires |frac| <= 2 && (!dot ==> frac == [])
    ensures var s := (if neg then "-" else "") + whole + (if dot then "." else "") + frac;
      var hundredths := Value(whole) * 100 + Value(frac) * Pow10(2 - |frac|);
      Numeral(s) && Scaled(s) == if neg then -hundredths else hundredths
  {
    Head(neg, whole, dot);
    Decimal((if neg then "-" else "") + whole + (if dot then "." else ""), whole, frac, neg);
  }

  // ---- Points

  /** A point: its coordinates in hundredths and its input line. */
  datatype Point = Point(x: int, y: int, s: string)

  /** `Point::dist`: the squared Euclidean distance. */
  function Dist(a: Point, b: Point): (d: int)
    ensures d >= 0
  {
    SquareFacts(a.x - b.x);
    SquareFacts(a.y - b.y);
    (a.x - b.x) * (a.x - b.x) + (a.y - b.y) * (a.y - b.y)
  }

  lemma SquareFacts(v: int)
    ensures v * v >= 0 && v * v == (-v) * (-v) && (v * v == 0 <==> v == 0)
  {
  }

  /** The distance is symmetric and zero exactly between points at the same place. */
  lemma DistFacts(a: Point, b: Point)
    ensures Dist(a, b) == Dist(b, a)
    ensures Dist(a, b) == 0 <==> a.x == b.x && a.y == b.y
  {
    SquareFacts(a.x - b.x);
    SquareFacts(a.y - b.y);
  }

  // ---- Rust's derived order

  datatype Ordering = Less | Equal | Greater

  /** Compare two integers. */
  function IntCmp(a: int, b: int): Ordering
  {
    if a < b then Less else if a == b then Equal else Greater
  }

  /** `String`'s order: lexicographic, a proper prefix first. */
  function StrCmp(a: string, b: string): (o: Ordering)
    ensures o == Equal <==> a == b
  {
    if a == [] then (if b == [] then Equal else Less)
    else if b == [] then Greater
    else if a[0] < b[0] then Less
    else if a[0] > b[0] then Greater
    else
      var o := StrCmp(a[1..], b[1..]);
      assert o == Equal ==> a == [a[0]] + a[1..] == [b[0]] + b[1..] == b;
      assert a == b ==> a[1..] == b[1..];
      o
  }

  /** The order of Point's fields x, y, s in turn, as `#[derive(Ord)]` gives it. */
  function PointCmp(a: Point, b: Point): (o: Ordering)
    ensures o == Equal <==> a == b
  {
    if a.x != b.x then IntCmp(a.x, b.x)
    else if a.y != b.y then IntCmp(a.y, b.y)
    else StrCmp(a.s, b.s)
  }

  /** A candidate answer: the squared distance and the two points. */
  type Triple = (int, Point, Point)

  /** The order of `(IntSize, &Point, &Point)`: lexicographic. */
  function TripleCmp(a: Triple, b: Triple): (o: Ordering)
    ensures o == Equal <==> a == b
  {
    if a.0 != b.0 then IntCmp(a.0, b.0)
    else if a.1 != b.1 then PointCmp(a.1, b.1)
    else PointCmp(a.2, b.2)
  }

  /** a comes no later than b. */
  predicate Le(a: Triple, b: Triple)
  {
    TripleCmp(a, b) != Greater
  }

  /** `cmp::min`: the first argument unless the second is smaller. */
  function Min(a: Triple, b: Triple): (m: Triple)
    ensures Le(m, a) && Le(m, b) && (m == a || m == b)
  {
    TripleTotal(a, b);
    TripleLeRefl(a);
    if TripleCmp(a, b) == Greater then b else a
  }

  lemma {:induction false} StrFlip(a: string, b: string)
    ensures StrCmp(a, b) == Greater <==> StrCmp(b, a) == Less
  {
    if a != [] && b != [] && a[0] == b[0] {
      StrFlip(a[1..], b[1..]);
    }
  }

  lemma {:induction false} StrTrans(a: string, b: string, c: string)
    requires StrCmp(a, b) != Greater && StrCmp(b, c) != Greater
    ensures StrCmp(a, c) != Greater
  {
    if a != [] && b != [] && c != [] && a[0] == b[0] == c[0] {
      StrTrans(a[1..], b[1..], c[1..]);
    }
  }

  lemma PointFlip(a: Point, b: Point)
    ensures PointCmp(a, b) == Greater <==> PointCmp(b, a) == Less
  {
    StrFlip(a.s, b.s);
  }

  lemma PointTrans(a: Point, b: Point, c: Point)
    requires PointCmp(a, b) != Greater && PointCmp(b, c) != Greater
    ensures PointCmp(a, c) != Greater
  {
    if a.x == b.x == c.x && a.y == b.y == c.y {
      StrTrans(a.s, b.s, c.s);
    }
  }

  lemma TripleLeRefl(a: Triple)
    ensures Le(a, a)
  {
  }

  /** Of two triples one comes no later than the other. */
  lemma TripleTotal(a: Triple, b: Triple)
    ensures Le(a, b) || Le(b, a)
    ensures TripleCmp(a, b) == Greater ==> Le(b, a)
  {
    PointFlip(a.1, b.1);
    PointFlip(a.2, b.2);
  }

  /** The order of triples is transitive. */
  lemma TripleTrans(a: Triple, b: Triple, c: Triple)
    requires Le(a, b) && Le(b, c)
    ensures Le(a, c)
  {
    if a.0 == b.0 == c.0 {
      if a.1 == b.1 && b.1 == c.1 {
        PointTrans(a.2, b.2, c.2);
      } else if a.1 == b.1 || b.1 == c.1 {
      } else {
        PointTrans(a.1, b.1, c.1);
        PointFlip(a.1, c.1);
        if a.1 == c.1 {
          PointFlip(a.1, b.1);
        }
      }
    }
  }

  // ---- min_distance_full

  /** The candidate for the pair of points i and o. */
  function Pair(points: seq<Point>, i: nat, o: nat): (t: Triple)
    requires i < |points| && o < |points|
    ensures t.0 == Dist(t.1, t.2)
  {
    (Dist(points[i], points[o]), points[i], points[o])
  }

  /** t is the candidate of some pair i < o. */
  ghost predicate IsPair(points: seq<Point>, t: Triple)
  {
    exists i, o | 0 <= i < o < |points| :: t == Pair(points, i, o)
  }

  /** The inner loop of `min_distance_full`: the pairs of point i with the points after it. */
  method Row(points: seq<Point>, i: nat, ans: Triple) returns (ans': Triple)
    requires i < |points| && IsPair(points, ans)
    ensures IsPair(points, ans') && Le(ans', ans)
    ensures forall o | i < o < |points| :: Le(ans', Pair(points, i, o))
  {
    ans' := ans;
    TripleLeRefl(ans);
    for o := i + 1 to |points|
      invariant IsPair(points, ans') && Le(ans', ans)
      invariant forall o' | i < o' < o :: Le(ans', Pair(points, i, o'))
    {
      var c := Pair(points, i, o);
      var m := Min(ans', c);
      forall o' | i < o' < o
        ensures Le(m, Pair(points, i, o'))
      {
        TripleTrans(m, ans', Pair(points, i, o'));
      }
      TripleTrans(m, ans', ans);
      ans' := m;
    }
  }

  /**
   * `min_distance_full`: the least candidate over all pairs i < o, so its
   * distance is the least distance between two of the points.
   */
  method MinDistanceFull(points: seq<Point>) returns (ans: Triple)
    requires |points| >= 2
    ensures IsPair(points, ans) && ans.0 == Dist(ans.1, ans.2)
    ensures forall i, o | 0 <= i < o < |points| :: Le(ans, Pair(points, i, o)) && ans.0 <= Dist(points[i], points[o])
  {
    ans := Pair(points, 0, 1);
    for i := 0 to |points|
      invariant IsPair(points, ans)
      invariant forall i', o | 0 <= i' < i && i' < o < |points| :: Le(ans, Pair(points, i', o))
    {
      var next := Row(points, i, ans);
      forall i', o | 0 <= i' < i && i' < o < |points|
        ensures Le(next, Pair(points, i', o))
      {
        TripleTrans(next, ans, Pair(points, i', o));
      }
      ans := next;
    }
  }
}
