/** The Collatz lab: nextNumber in Java int arithmetic, and main's loop,
    which starts from 5 and prints each number until it reaches 1. The
    printed numbers are returned instead of written to the console. */
module Collatz {
  import opened JavaInt

  /** nextNumber: 3n + 1 when n % 2 == 1 under Java's remainder, and n / 2
      truncated toward zero otherwise; 3n + 1 wraps like an int. */
  function NextNumber(n: int): (m: int)
    requires InInt(n)
    ensures InInt(m)
  {
    if Rem(n, 2) == 1 then Wrap32(3 * n + 1) else Div(n, 2)
  }

  /** On positive numbers without overflow nextNumber is the documented
      rule: halve an even number, and take 3n + 1 for an odd one. */
  lemma NextNumberPositive(n: int)
    requires 0 < n && 3 * n + 1 <= INT_MAX
    ensures n % 2 == 0 ==> NextNumber(n) == n / 2 && NextNumber(n) < n
    ensures n % 2 == 1 ==> NextNumber(n) == 3 * n + 1
  {
  }

  /** Every even number, and every negative odd number, is halved toward
      zero, since Java's remainder of a negative odd number is -1: -3 goes
      to -1, not to -8. */
  lemma NextNumberHalves(n: int)
    requires InInt(n) && (n % 2 == 0 || n < 0)
    ensures NextNumber(n) == Div(n, 2)
    ensures n % 2 == 0 ==> 2 * NextNumber(n) == n
    ensures n < 0 && n % 2 == 1 ==> NextNumber(n) == (n + 1) / 2
  {
    DivRem(n, 2);
  }

  /** The numbers main visits from 5. */
  const Orbit: seq<int> := [5, 16, 8, 4, 2, 1]

  lemma OrbitSteps()
    ensures forall k :: 0 <= k < 5 ==> NextNumber(Orbit[k]) == Orbit[k + 1]
  {
    assert NextNumber(5) == 16;
    assert NextNumber(16) == 8;
    assert NextNumber(8) == 4;
    assert NextNumber(4) == 2;
    assert NextNumber(2) == 1;
  }

  /** main: from 5 the loop prints 5 16 8 4 2 1 and stops at 1. */
  method Main5() returns (printed: seq<int>)
    ensures printed == [5, 16, 8, 4, 2, 1]
  {
    var n := 5;
    printed := [n];
    ghost var k := 0;
    OrbitSteps();
    while n != 1
      invariant 0 <= k < 6 && n == Orbit[k] && printed == Orbit[..k + 1]
      decreases 5 - k
    {
      n := NextNumber(n);
      printed := printed + [n];
      k := k + 1;
    }
  }
}
