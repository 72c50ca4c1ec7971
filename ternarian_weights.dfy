/*
 * The digit loop of src/ternarianweights.rs: an object of mass m on the
 * left pan is balanced with weights 1, 3, 9, ... on both pans, one of each
 * at most, by writing m in balanced ternary.  A counter `rest` above 0 means
 * a carry of one into the next digit.
 */
module TernarianWeights {
  import opened TernarianPans

  /** `reverse`: the elements of s from last to first. */
  function Reverse(s: seq<int>): (r: seq<int>)
    ensures |r| == |s| && forall k | 0 <= k < |s| :: r[k] == s[|s| - 1 - k]
  {
    if s == [] then [] else [s[|s| - 1]] + Reverse(s[..|s| - 1])
  }

  /** Reversing keeps the sum and the elements, and turns increasing into decreasing. */
  lemma {:induction false} ReverseFacts(s: seq<int>)
    ensures Sum(Reverse(s)) == Sum(s)
    ensures forall x :: x in Reverse(s) <==> x in s
    ensures Increasing(s) ==> Decreasing(Reverse(s))
  {
    if s != [] {
      var n := |s| - 1;
      ReverseFacts(s[..n]);
      SumCons(s[n], Reverse(s[..n]));
      assert forall x :: x in s <==> x in s[..n] || x == s[n] by {
        assert s == s[..n] + [s[n]];
      }
    }
  }

  lemma {:induction false} SumCons(x: int, s: seq<int>)
    ensures Sum([x] + s) == x + Sum(s)
    decreases |s|
  {
    if s != [] {
      var n := |s| - 1;
      assert ([x] + s)[..n + 1] == [x] + s[..n];
      SumCons(x, s[..n]);
    }
  }

  /** One digit: m counts modi * m as modi * 3 * (m / 3) plus modi times its last ternary digit. */
  lemma Digit(m: nat, modi: nat)
    ensures modi * m == modi * 3 * (m / 3) + modi * (m % 3)
  {
    assert m == 3 * (m / 3) + m % 3;
    assert modi * m == modi * (3 * (m / 3)) + modi * (m % 3);
  }

  /** The balance after one digit: the digit's weight moves from the mass still to weigh to the pans. */
  lemma Balance(m0: int, m: nat, modi: nat, before: int, after: int)
    requires before + modi * m == m0
    requires (m % 3 == 0 && after == before) || (m % 3 == 1 && after == before + modi) ||
             (m % 3 == 2 && after == before + 2 * modi)
    ensures after + (3 * modi) * (m / 3) == m0
  {
    Digit(m, modi);
    assert modi * 3 * (m / 3) == (3 * modi) * (m / 3);
    if m % 3 == 1 {
      assert modi * (m % 3) == modi;
    } else if m % 3 == 2 {
      assert modi * (m % 3) == modi * 2;
    }
  }

  lemma Pow3Times(x: int)
    requires IsPow3(x)
    ensures IsPow3(3 * x) && x >= 1
  {
    assert (3 * x) / 3 == x;
  }

  /** Pushing modi, a power of 3 above the weights of s, keeps s increasing and adds modi to its sum. */
  lemma Push(s: seq<int>, modi: int)
    requires Increasing(s) && Below(s, modi) && IsPow3(modi)
    ensures Increasing(s + [modi]) && Below(s + [modi], 3 * modi) && Sum(s + [modi]) == Sum(s) + modi
    ensures forall x :: x in s + [modi] <==> x in s || x == modi
  {
    Pow3Times(modi);
    assert (s + [modi])[..|s|] == s;
    forall j | 0 <= j < |s|
      ensures s[j] < modi
    {
      assert s[j] in s;
    }
  }

  /** The bound on the weights rises with modi. */
  lemma Raise(s: seq<int>, modi: int)
    requires Below(s, modi) && IsPow3(modi)
    ensures Below(s, 3 * modi)
  {
    Pow3Times(modi);
  }

  /**
   * Pushing modi on at most one pan keeps both pans increasing, apart and
   * below the next power of 3, and adds modi to that pan's sum.
   */
  lemma Kept(left: seq<int>, right: seq<int>, modi: int, left': seq<int>, right': seq<int>)
    requires IsPow3(modi) && Increasing(left) && Increasing(right) && Below(left, modi) && Below(right, modi)
    requires forall x | x in left :: x !in right
    requires left' == left || left' == left + [modi]
    requires right' == right || right' == right + [modi]
    requires left' == left || right' == right
    ensures IsPow3(3 * modi) && Increasing(left') && Increasing(right')
    ensures Below(left', 3 * modi) && Below(right', 3 * modi)
    ensures forall x | x in left' :: x !in right'
    ensures Sum(left') == Sum(left) + (if left' == left then 0 else modi)
    ensures Sum(right') == Sum(right) + (if right' == right then 0 else modi)
  {
    Push(left, modi);
    Push(right, modi);
    Raise(left, modi);
    Raise(right, modi);
    if left' != left {
      assert left' != left + [] && right' == right;
    }
    if right' != right {
      assert right' != right + [];
    }
  }

  /** One pass of the loop at lines 23-44: the pans for the next digit. */
  method Step(ghost m0: nat, m: nat, modi: nat, rest: nat, left: seq<int>, right: seq<int>)
    returns (m': nat, modi': nat, rest': nat, left': seq<int>, right': seq<int>)
    requires m != 0 && Pans(m0, m, modi, rest, left, right)
    ensures m' == m / 3 && modi' == 3 * modi && Pans(m0, m', modi', rest', left', right')
  {
    rest', left', right' := rest, left, right;
    ghost var before := Sum(right) - Sum(left) + (if rest > 0 then modi else 0);
    if m % 3 == 0 {
      if rest > 0 {
        rest' := 0;
        right' := right + [modi];
      }
    } else if m % 3 == 1 {
      if rest > 0 {
        left' := left + [modi];
      } else {
        right' := right + [modi];
      }
    } else {
      if rest == 0 {
        left' := left + [modi];
      }
      rest' := rest + 1;
    }
    Kept(left, right, modi, left', right');
    Balance(m0, m, modi, before, Sum(right') - Sum(left') + (if rest' > 0 then 3 * modi else 0));
    m' := m / 3;
    modi' := 3 * modi;
  }

  /**
   * Lines 15-51 for one mass m: the weights on the left pan (with the
   * object) and on the right pan, both in decreasing order.  The right pan
   * outweighs the left by exactly m, every weight is a power of 3, and no
   * power appears twice.
   */
  method Weigh(m0: nat) returns (left: seq<int>, right: seq<int>)
    ensures Sum(right) - Sum(left) == m0
    ensures forall x | x in left :: IsPow3(x)
    ensures forall x | x in right :: IsPow3(x)
    ensures Decreasing(left) && Decreasing(right)
    ensures forall x | x in left :: x !in right
    ensures m0 == 0 ==> left == [] && right == []
  {
    var m := m0;
    left, right := [], [];
    var modi := 1;
    var rest := 0;
    while m != 0
      invariant Pans(m0, m, modi, rest, left, right)
      invariant m0 == 0 ==> left == [] && right == [] && rest == 0
    {
      m, modi, rest, left, right := Step(m0, m, modi, rest, left, right);
    }
    if rest > 0 {
      Push(right, modi);
      right := right + [modi];
    }
    ReverseFacts(left);
    ReverseFacts(right);
    left := Reverse(left);
    right := Reverse(right);
  }
}
