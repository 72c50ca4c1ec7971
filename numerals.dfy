/*
 * Decimal text as the programs read and write it: Rust's `str::split(' ')`,
 * and `str::parse` for `usize` and `isize` (an optional sign, at least one
 * decimal digit, nothing else, and the value inside the type's range on a
 * 64-bit target).
 */
module Numerals {
  import opened Wrappers

  const USIZE_MAX: nat := 0xFFFF_FFFF_FFFF_FFFF
  const ISIZE_MAX: int := 0x7FFF_FFFF_FFFF_FFFF
  const ISIZE_MIN: int := -0x8000_0000_0000_0000

  predicate IsDigit(c: char)
  {
    '0' <= c <= '9'
  }

  predicate AllDigits(s: string)
  {
    forall k | 0 <= k < |s| :: IsDigit(s[k])
  }

  /** The value of a string of decimal digits, most significant first. */
  function DigitsValue(s: string): nat
    requires AllDigits(s)
  {
    if s == [] then 0 else 10 * DigitsValue(s[..|s| - 1]) + (s[|s| - 1] - '0') as nat
  }

  /** s without a leading '+'. */
  function Unsigned(s: string): (u: string)
    ensures |u| <= |s|
  {
    if |s| > 0 && s[0] == '+' then s[1..] else s
  }

  /** `s.parse::<usize>()`: an optional '+', then one or more digits, at most USIZE_MAX. */
  function ParseUsize(s: string): (r: Option<nat>)
    ensures r.Some? <==> var u := Unsigned(s); u != [] && AllDigits(u) && DigitsValue(u) <= USIZE_MAX
    ensures r.Some? ==> r.value <= USIZE_MAX && s != []
  {
    var u := Unsigned(s);
    if u != [] && AllDigits(u) && DigitsValue(u) <= USIZE_MAX then Some(DigitsValue(u)) else None
  }

  /** `s.parse::<isize>()`: an optional '+' or '-', then one or more digits, within -2^63 ..= 2^63 - 1. */
  function ParseIsize(s: string): (r: Option<int>)
    ensures r.Some? ==> ISIZE_MIN <= r.value <= ISIZE_MAX
    ensures r.Some? && r.value < 0 ==> |s| > 0 && s[0] == '-'
  {
    var negative := |s| > 0 && s[0] == '-';
    var u := if |s| > 0 && (s[0] == '+' || s[0] == '-') then s[1..] else s;
    if u == [] || !AllDigits(u) then None
    else if negative then (if DigitsValue(u) <= -ISIZE_MIN then Some(-(DigitsValue(u) as int)) else None)
    else if DigitsValue(u) <= ISIZE_MAX then Some(DigitsValue(u) as int) else None
  }

  /** The decimal digits of n, without leading zeros. */
  function Show(n: nat): (s: string)
    ensures s != [] && AllDigits(s) && s[0] != '+' && s[0] != '-' && ' ' !in s
  {
    if n < 10 then [('0' as int + n) as char] else Show(n / 10) + [('0' as int + n % 10) as char]
  }

  /** i in decimal, '-' first when it is negative. */
  function ShowInt(i: int): (s: string)
    ensures ' ' !in s
  {
    if i < 0 then "-" + Show(-i) else Show(i)
  }

  lemma {:induction false} ShowValue(n: nat)
    ensures DigitsValue(Show(n)) == n
  {
    if n >= 10 {
      ShowValue(n / 10);
      var s := Show(n);
      assert s[..|s| - 1] == Show(n / 10);
    }
  }

  /** Printing a usize and parsing it back gives it again. */
  lemma ParseShowUsize(n: nat)
    requires n <= USIZE_MAX
    ensures ParseUsize(Show(n)) == Some(n)
  {
    ShowValue(n);
  }

  /** z zero digits. */
  function Zeros(z: nat): (s: string)
    ensures |s| == z && AllDigits(s)
  {
    seq(z, _ => '0')
  }

  /** Digits of value 0 are all zeros. */
  lemma {:induction false} ValueZero(u: string)
    requires AllDigits(u) && DigitsValue(u) == 0
    ensures u == Zeros(|u|)
  {
    if u != [] {
      var init := u[..|u| - 1];
      ValueZero(init);
      assert u == init + [u[|u| - 1]];
    }
  }

  /** Leading zeros add nothing to the value of a number's decimal digits. */
  lemma {:induction false} ZerosThenShow(z: nat, n: nat)
    ensures AllDigits(Zeros(z) + Show(n)) && DigitsValue(Zeros(z) + Show(n)) == n
  {
    var s := Zeros(z) + Show(n);
    if n < 10 {
      assert s[..|s| - 1] == Zeros(z);
      ZerosValue(z);
    } else {
      ZerosThenShow(z, n / 10);
      assert s[..|s| - 1] == Zeros(z) + Show(n / 10);
    }
  }

  lemma {:induction false} ZerosValue(z: nat)
    ensures DigitsValue(Zeros(z)) == 0
  {
    if z > 0 {
      assert Zeros(z)[..z - 1] == Zeros(z - 1);
      ZerosValue(z - 1);
    }
  }

  /** Digits of value v are some zeros, then v's own decimal digits. */
  lemma {:induction false} Canonical(u: string, v: nat)
    requires u != [] && AllDigits(u) && DigitsValue(u) == v
    ensures |Show(v)| <= |u| && u == Zeros(|u| - |Show(v)|) + Show(v)
  {
    var init, last := u[..|u| - 1], u[|u| - 1];
    assert u == init + [last];
    assert DigitsValue(u) == 10 * DigitsValue(init) + (last - '0') as nat;
    if v < 10 {
      ValueZero(init);
      assert [last] == Show(v);
    } else {
      Canonical(init, v / 10);
      assert [last] == [('0' as int + v % 10) as char];
    }
  }

  /** A string `parse::<usize>` accepts is an optional '+', zeros, then the decimal digits of its value. */
  lemma ParsedForm(s: string, v: nat)
    requires ParseUsize(s) == Some(v)
    ensures |Show(v)| <= |Unsigned(s)|
    ensures s == (if s[0] == '+' then "+" else "") + (Zeros(|Unsigned(s)| - |Show(v)|) + Show(v))
  {
    Canonical(Unsigned(s), v);
  }

  /** An optional '+', any number of zeros and the decimal digits of a usize parse to it. */
  lemma ParseForm(plus: bool, z: nat, n: nat)
    requires n <= USIZE_MAX
    ensures ParseUsize((if plus then "+" else "") + (Zeros(z) + Show(n))) == Some(n)
  {
    var digits := Zeros(z) + Show(n);
    ZerosThenShow(z, n);
    ParseDigits(digits, n);
    assert "" + digits == digits;
  }

  /** Digits of value n, with or without a '+' before them, parse to n. */
  lemma ParseDigits(digits: string, n: nat)
    requires digits != [] && AllDigits(digits) && DigitsValue(digits) == n <= USIZE_MAX
    ensures ParseUsize(digits) == Some(n) && ParseUsize("+" + digits) == Some(n)
  {
    assert IsDigit(digits[0]);
    assert ("+" + digits)[1..] == digits;
  }

  /** Printing an isize and parsing it back gives it again. */
  lemma ParseShowIsize(i: int)
    requires ISIZE_MIN <= i <= ISIZE_MAX
    ensures ParseIsize(ShowInt(i)) == Some(i)
  {
    if i < 0 {
      ShowValue(-i);
      assert ("-" + Show(-i))[1..] == Show(-i);
    } else {
      ShowValue(i);
    }
  }

  /** `s.split(' ')`: the pieces between the spaces, empty ones included. */
  function Split(s: string): (r: seq<string>)
    ensures |r| >= 1
  {
    if s == [] then [[]]
    else if s[0] == ' ' then [[]] + Split(s[1..])
    else var rest := Split(s[1..]); [[s[0]] + rest[0]] + rest[1..]
  }

  /** Splitting a word followed by a space and more text gives the word, then the pieces of the rest. */
  lemma {:induction false} SplitWord(a: string, b: string)
    requires ' ' !in a
    ensures Split(a + " " + b) == [a] + Split(b)
  {
    if a == [] {
      assert a + " " + b == " " + b;
      assert (" " + b)[1..] == b;
    } else {
      assert (a + " " + b)[1..] == a[1..] + " " + b;
      SplitWord(a[1..], b);
      assert [a[0]] + a[1..] == a;
    }
  }

  /** A text without spaces is one piece. */
  lemma {:induction false} SplitLast(a: string)
    requires ' ' !in a
    ensures Split(a) == [a]
  {
    if a != [] {
      SplitLast(a[1..]);
      assert [a[0]] + a[1..] == a;
    }
  }
}
