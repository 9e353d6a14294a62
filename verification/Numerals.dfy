/** Decimal numbers in strings of any kind of character, as sprintf prints them, and finding
    the first separator. */
module Numerals {
  import opened Bytes

  function Decimal<T>(n: nat, digit: nat -> T): (r: seq<T>)
    ensures |r| >= 1
  {
    if n < 10 then [digit(n)] else Decimal(n / 10, digit) + [digit(n % 10)]
  }

  /** The number that the first `n` characters stand for. */
  function DecimalValue<T>(s: seq<T>, n: nat, value: T -> Option<nat>): Option<nat>
    requires n <= |s|
  {
    if n == 0 then Some(0)
    else
      var v, d := DecimalValue(s, n - 1, value), value(s[n - 1]);
      if v.Some? && d.Some? then Some(10 * v.value + d.value) else None
  }

  lemma {:induction false} DecimalRoundTrip<T>(n: nat, digit: nat -> T, value: T -> Option<nat>, s: seq<T>)
    requires forall d: nat :: d <= 9 ==> value(digit(d)) == Some(d)
    requires Decimal(n, digit) <= s
    ensures DecimalValue(s, |Decimal(n, digit)|, value) == Some(n)
  {
    var len := |Decimal(n, digit)|;
    assert s[len - 1] == Decimal(n, digit)[len - 1];
    if n < 10 {
      assert DecimalValue(s, 0, value) == Some(0);
    } else {
      assert Decimal(n / 10, digit) <= Decimal(n, digit);
      DecimalRoundTrip(n / 10, digit, value, s);
    }
  }

  lemma {:induction false} DecimalLength<T>(n: nat, digit: nat -> T)
    ensures |Decimal(n, digit)| == if n < 10 then 1 else 1 + |Decimal(n / 10, digit)|
  {
  }

  lemma {:induction false} NotADigit<T>(n: nat, digit: nat -> T, mark: T)
    requires forall d: nat :: d <= 9 ==> digit(d) != mark
    ensures mark !in Decimal(n, digit)
  {
    if n < 10 {
    } else {
      NotADigit(n / 10, digit, mark);
    }
  }

  function FirstOf<T(==)>(s: seq<T>, mark: T): (r: nat)
    ensures r <= |s|
  {
    if s == [] || s[0] == mark then 0 else 1 + FirstOf(s[1..], mark)
  }

  lemma {:induction false} FirstOfAfter<T>(front: seq<T>, mark: T, rest: seq<T>)
    requires mark !in front
    ensures FirstOf(front + [mark] + rest, mark) == |front|
  {
    var all := front + [mark] + rest;
    if front == [] {
    } else {
      assert front[0] in front;
      FirstOfAfter(front[1..], mark, rest);
      assert all[1..] == front[1..] + [mark] + rest;
    }
  }

  lemma {:induction false} NotFound<T>(s: seq<T>, mark: T)
    requires mark !in s
    ensures FirstOf(s, mark) == |s|
  {
    if s == [] {
    } else {
      assert s[0] in s;
      NotFound(s[1..], mark);
    }
  }

  /** The front, cut off at the mark, and the rest. */
  lemma {:induction false} CutAtMark<T>(front: seq<T>, mark: T, rest: seq<T>)
    requires mark !in front
    ensures var all := front + [mark] + rest;
            FirstOf(all, mark) == |front| && all[..|front|] == front && all[|front| + 1..] == rest
  {
    FirstOfAfter(front, mark, rest);
  }
}
