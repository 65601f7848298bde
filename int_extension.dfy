/** `IntExtension`: parity of a C# `int`, whose `%` keeps the sign of the
    dividend. */
module IntExtension {
  import opened Common

  /** `IsEven`: the C# remainder by 2 is zero. */
  predicate IsEven(x: int32)
  {
    TruncRem(x as int, 2) == 0
  }

  /** `IsOdd`: `false` when `IsEven`, `true` otherwise. */
  predicate IsOdd(x: int32)
  {
    if IsEven(x) then false else true
  }

  /** The C# remainder by 2 is 0 for even numbers, 1 for positive odd ones
      and -1 for negative odd ones; parity is the mathematical one and odd is
      exactly not even. */
  lemma Parity(x: int32)
    ensures IsEven(x) <==> x as int % 2 == 0
    ensures IsOdd(x) <==> !IsEven(x)
    ensures x < 0 && !IsEven(x) ==> TruncRem(x as int, 2) == -1
    ensures x > 0 && !IsEven(x) ==> TruncRem(x as int, 2) == 1
  {
    var a: int := Abs(x as int);
    assert TruncRem(x as int, 2) == if x < 0 then -(a % 2) else a % 2;
    assert a % 2 == 0 <==> x as int % 2 == 0;
  }

  /** Negating a number keeps its parity, where the negation exists. */
  lemma NegationKeepsParity(x: int32)
    requires x as int > INT32_MIN
    ensures IsEven(x) == IsEven(-x)
  {
    Parity(x);
    Parity(-x);
  }

  /** Consecutive numbers have opposite parity, where the successor exists. */
  lemma ConsecutiveParity(x: int32)
    requires x as int < INT32_MAX
    ensures IsEven(x) != IsEven(x + 1)
    ensures IsOdd(x) != IsOdd(x + 1)
  {
    Parity(x);
    Parity(x + 1);
  }
}
