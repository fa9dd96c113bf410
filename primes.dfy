/** The Fermat primality test of the IntList lab: power is modular
    exponentiation by repeated squaring in Java int arithmetic, and isPrime
    tries three witnesses a and rejects n when a^(n-1) mod n is not 1.
    Math.random() is an input: the draws the test makes. */
module Primes {
  import opened JavaInt

  /** The largest modulus p for which (p - 1) * (p - 1) fits in an int, so
      that power never overflows. */
  const MAX_EXACT_MODULUS: int := 46341

  /** a to the n-th power. */
  function Pow(a: int, n: nat): int
  {
    if n == 0 then 1 else a * Pow(a, n - 1)
  }

  /** The loop of power run from the state (res, a, n) to its end, in Java
      int arithmetic: n & 1 is n % 2 and n >> 1 is n / 2 while n > 0. */
  function PowerLoop(res: int, a: int, n: int, p: int): int
    requires p != 0
    decreases n
  {
    if n <= 0 then res
    else PowerLoop(if n % 2 == 1 then Rem(Wrap32(res * a), p) else res, Rem(Wrap32(a * a), p), n / 2, p)
  }

  /** What power(a, n, p) returns. */
  function JavaPower(a: int, n: int, p: int): int
    requires p != 0
  {
    PowerLoop(1, Rem(a, p), n, p)
  }

  /** power: the loop keeps res * a^n congruent to the original a^n modulo
      p. With no overflow (0 <= a, 0 <= n and 2 <= p <= 46341) the result is
      a^n mod p. A zero p fails on a % p. */
  method Power(a: int, n: int, p: int) returns (res: int)
    requires p != 0
    ensures res == JavaPower(a, n, p)
    ensures 0 <= a && 0 <= n && 2 <= p <= MAX_EXACT_MODULUS ==> res == Pow(a, n) % p
  {
    res := 1;
    var x := Rem(a, p);
    var k := n;
    while k > 0
      invariant PowerLoop(res, x, k, p) == JavaPower(a, n, p)
    {
      if k % 2 == 1 {
        res := Rem(Wrap32(res * x), p);
      }
      k := k / 2;
      x := Rem(Wrap32(x * x), p);
    }
    if 0 <= a && 0 <= n && 2 <= p <= MAX_EXACT_MODULUS {
      PowerExact(a, n, p);
    }
  }

  /** Without overflow, power computes a^n mod p. */
  lemma PowerExact(a: int, n: nat, p: int)
    requires 0 <= a && 2 <= p <= MAX_EXACT_MODULUS
    ensures JavaPower(a, n, p) == Pow(a, n) % p
  {
    PowerLoopExact(1, a % p, n, p);
    PowMod(a, n, p);
  }

  /** The loop invariant: from a state with 0 <= res, a < p the loop ends
      with res * a^n mod p. */
  lemma {:induction false} PowerLoopExact(res: int, a: int, n: nat, p: int)
    requires 2 <= p <= MAX_EXACT_MODULUS && 0 <= res < p && 0 <= a < p
    ensures PowerLoop(res, a, n, p) == (res * Pow(a, n)) % p
    decreases n
  {
    if n > 0 {
      MulFits(res, a, p);
      MulFits(a, a, p);
      var res' := if n % 2 == 1 then (res * a) % p else res;
      var a' := (a * a) % p;
      var h := n / 2;
      PowerLoopExact(res', a', h, p);
      calc {
        (res' * Pow(a', h)) % p;
        { MulModRight(res', Pow(a', h), p); }
        (res' * (Pow(a', h) % p)) % p;
        { PowMod(a * a, h, p); }
        (res' * (Pow(a * a, h) % p)) % p;
        { MulModRight(res', Pow(a * a, h), p); }
        (res' * Pow(a * a, h)) % p;
      }
      PowSquare(a, h);
      if n % 2 == 1 {
        calc {
          (res' * Pow(a * a, h)) % p;
          { MulModLeft(res * a, Pow(a * a, h), p); }
          ((res * a) * Pow(a * a, h)) % p;
          { MulAssoc(res, a, Pow(a * a, h)); }
          (res * (a * Pow(a, 2 * h))) % p;
          (res * Pow(a, n)) % p;
        }
      }
    }
  }

  lemma MulAssoc(x: int, y: int, z: int)
    ensures (x * y) * z == x * (y * z)
  {
  }

  /** A product of two residues below 46341 fits in an int. */
  lemma MulFits(x: int, y: int, p: int)
    requires 2 <= p <= MAX_EXACT_MODULUS && 0 <= x < p && 0 <= y < p
    ensures 0 <= x * y <= INT_MAX
    ensures Wrap32(x * y) == x * y && Rem(Wrap32(x * y), p) == (x * y) % p
  {
    var c := MAX_EXACT_MODULUS - 1;
    MulLe(x, y, c);
    MulLe(c, x, c);
    assert c * c == 2147395600;
  }

  lemma MulLe(x: int, y: int, c: int)
    requires 0 <= x && 0 <= y <= c
    ensures 0 <= x * y <= x * c
  {
    assert x * c - x * y == x * (c - y);
  }

  /** Adding multiples of m does not change a remainder modulo m. */
  lemma ModAddMultiple(x: int, k: int, m: int)
    requires m > 0
    ensures (x + k * m) % m == x % m
  {
    assert x + k * m == (x / m + k) * m + x % m;
    ModUnique(x + k * m, m, x / m + k, x % m);
  }

  lemma MulModLeft(a: int, b: int, m: int)
    requires m > 0
    ensures (a * b) % m == ((a % m) * b) % m
  {
    assert a * b == (a % m) * b + ((a / m) * b) * m;
    ModAddMultiple((a % m) * b, (a / m) * b, m);
  }

  lemma MulModRight(a: int, b: int, m: int)
    requires m > 0
    ensures (a * b) % m == (a * (b % m)) % m
  {
    MulModLeft(b, a, m);
  }

  /** Reducing the base first does not change a power modulo m. */
  lemma {:induction false} PowMod(a: int, n: nat, m: int)
    requires m > 0
    ensures Pow(a % m, n) % m == Pow(a, n) % m
  {
    if n > 0 {
      var r := a % m;
      calc {
        Pow(r, n) % m;
        (r * Pow(r, n - 1)) % m;
        { MulModLeft(a, Pow(r, n - 1), m); }
        (a * Pow(r, n - 1)) % m;
        { MulModRight(a, Pow(r, n - 1), m); }
        (a * (Pow(r, n - 1) % m)) % m;
        { PowMod(a, n - 1, m); }
        (a * (Pow(a, n - 1) % m)) % m;
        { MulModRight(a, Pow(a, n - 1), m); }
        Pow(a, n) % m;
      }
    }
  }

  /** An even power modulo m, from the square of the base modulo m. */
  lemma PowEven(x: int, h: nat, m: int)
    requires m > 0
    ensures Pow(x, 2 * h) % m == Pow((x * x) % m, h) % m
  {
    PowSquare(x, h);
    PowMod(x * x, h, m);
  }

  /** Squaring the base halves the exponent. */
  lemma {:induction false} PowSquare(a: int, h: nat)
    ensures Pow(a * a, h) == Pow(a, 2 * h)
    ensures Pow(a, 2 * h + 1) == a * Pow(a, 2 * h)
  {
    if h > 0 {
      PowSquare(a, h - 1);
      assert Pow(a, 2 * h) == a * (a * Pow(a, 2 * h - 2));
    }
  }

  /** Java's (int) cast of a finite double: truncation toward zero. */
  function Truncate(x: real): int
  {
    if x >= 0.0 then x.Floor else -((-x).Floor)
  }

  /** Java's % on doubles: x minus the truncated quotient times y. */
  function FRem(x: real, y: real): real
    requires y != 0.0
  {
    x - y * Truncate(x / y) as real
  }

  /** A remainder by d >= 1 of some r in [0, 1) is r itself. */
  lemma FRemOfFraction(r: real, d: real)
    requires 0.0 <= r < 1.0 && d >= 1.0
    ensures FRem(r, d) == r
  {
    assert r / d <= r by {
      assert r / d * d == r;
    }
    assert Truncate(r / d) == 0;
  }

  /** The witness isPrime draws from Math.random() = r, for n > 4. It is
      always 2: r is below n - 4, so the remainder is r itself, and the
      cast truncates it to 0. */
  function Witness(r: real, n: int): (a: int)
    requires 0.0 <= r < 1.0 && n > 4
    ensures a == 2
  {
    FRemOfFraction(r, (n - 4) as real);
    2 + Truncate(FRem(r, (n - 4) as real))
  }

  /** The three rounds of the test: true iff a^(n-1) mod n is 1, as power
      computes it, for each witness a. */
  method FermatRounds(n: int, witnesses: seq<int>) returns (b: bool)
    requires n > 4 && |witnesses| == 3
    ensures b <==> forall i :: 0 <= i < 3 ==> JavaPower(witnesses[i], n - 1, n) == 1
  {
    var k := 3;
    while k > 0
      invariant 0 <= k <= 3
      invariant forall i :: 0 <= i < 3 - k ==> JavaPower(witnesses[i], n - 1, n) == 1
    {
      var a := witnesses[3 - k];
      var x := Power(a, n - 1, n);
      if x != 1 {
        return false;
      }
      k := k - 1;
    }
    return true;
  }

  /** isPrime with Math.random() answering draws: false for n <= 1 and for
      4, true for 2 and 3, and for n > 4 true iff every witness passes.
      Since every witness is 2, the test is a fixed base-2 Fermat test: it
      accepts exactly the n with 2^(n-1) mod n == 1 when n <= 46341. */
  method IsPrime(n: int, draws: seq<real>) returns (b: bool)
    requires |draws| == 3 && forall i :: 0 <= i < 3 ==> 0.0 <= draws[i] < 1.0
    ensures n <= 1 || n == 4 ==> !b
    ensures n == 2 || n == 3 ==> b
    ensures n > 4 ==> (b <==> forall i :: 0 <= i < 3 ==> JavaPower(Witness(draws[i], n), n - 1, n) == 1)
    ensures n > 4 ==> (b <==> JavaPower(2, n - 1, n) == 1)
    ensures 4 < n <= MAX_EXACT_MODULUS ==> (b <==> Pow(2, n - 1) % n == 1)
  {
    if n <= 1 || n == 4 {
      return false;
    }
    if n <= 3 {
      return true;
    }
    var ws := seq(3, i requires 0 <= i < 3 => Witness(draws[i], n));
    assert ws[0] == 2;
    b := FermatRounds(n, ws);
    assert b <==> JavaPower(ws[0], n - 1, n) == 1;
    if n <= MAX_EXACT_MODULUS {
      PowerExact(2, n - 1, n);
    }
  }

  /** 341 = 11 * 31 passes the base-2 test: 2^10 = 1024 = 3 * 341 + 1, so
      2^340 = (2^10)^34 is 1 modulo 341. The values are parameters so that
      the powers are unfolded one step at a time. */
  lemma Pseudoprime341(a: int, e: int, p: int)
    requires a == 2 && e == 340 && p == 341
    ensures p == 11 * 31 && JavaPower(a, e, p) == 1
  {
    PowerExact(a, e, p);
    assert Pow(a, 1) == 2;
    assert Pow(a, 2) == 4;
    assert Pow(a, 3) == 8;
    assert Pow(a, 4) == 16;
    assert Pow(a, 5) == 32;
    assert Pow(a, 6) == 64;
    assert Pow(a, 7) == 128;
    assert Pow(a, 8) == 256;
    assert Pow(a, 9) == 512;
    assert Pow(a, 10) == 1024;
    PowMul(a, 10, 34);
    ModUnique(Pow(a, 10), p, 3, 1);
    PowMod(Pow(a, 10), 34, p);
    var k := 34;
    PowOne(k);
    ModUnique(1, p, 0, 1);
  }




  /** As written, isPrime calls the composite 341 prime, whatever
      Math.random() answers. */
  method IsPrimeAccepts341(n: int, draws: seq<real>) returns (b: bool)
    requires n == 341 && |draws| == 3 && forall i :: 0 <= i < 3 ==> 0.0 <= draws[i] < 1.0
    ensures b && n == 11 * 31
  {
    Pseudoprime341(2, n - 1, n);
    b := IsPrime(n, draws);
  }

  lemma {:induction false} PowMul(a: int, m: nat, k: nat)
    ensures Pow(a, m * k) == Pow(Pow(a, m), k)
  {
    if k > 0 {
      PowMul(a, m, k - 1);
      PowAdd(a, m, m * (k - 1));
      assert m * k == m + m * (k - 1);
    }
  }

  lemma {:induction false} PowAdd(a: int, i: nat, j: nat)
    ensures Pow(a, i + j) == Pow(a, i) * Pow(a, j)
  {
    if i > 0 {
      PowAdd(a, i - 1, j);
    }
  }

  lemma {:induction false} PowOne(k: nat)
    ensures Pow(1, k) == 1
  {
    if k > 0 {
      PowOne(k - 1);
    }
  }

  /** The witness the comment asks for: a draw r in [0, 1) scaled onto
      [2, n - 2]. */
  function IntendedWitness(r: real, n: int): (a: int)
    requires 0.0 <= r < 1.0 && n > 4
    ensures 2 <= a <= n - 2
  {
    2 + (r * (n - 3) as real).Floor
  }

  /** Every a in [2, n - 2] is the intended witness of some draw. */
  lemma IntendedWitnessReaches(n: int, a: int)
    requires n > 4 && 2 <= a <= n - 2
    ensures var r := (a - 2) as real / (n - 3) as real;
      0.0 <= r < 1.0 && IntendedWitness(r, n) == a
  {
    var d := (n - 3) as real;
    var r := (a - 2) as real / d;
    assert r * d == (a - 2) as real;
  }

  /** 3^340 mod 341 is 56, so the witness 3 shows that 341 is composite:
      3^10 = 59049 leaves c = 56, and modulo 341 the square of 56 is 67 and
      the square of 67 is 56 again. */
  lemma ThreeExposes341(a: int, e: int, p: int)
    requires a == 3 && e == 340 && p == 341
    ensures JavaPower(a, e, p) == 56
  {
    PowerExact(a, e, p);
    assert Pow(a, 1) == 3;
    assert Pow(a, 2) == 9;
    assert Pow(a, 3) == 27;
    assert Pow(a, 4) == 81;
    assert Pow(a, 5) == 243;
    assert Pow(a, 6) == 729;
    assert Pow(a, 7) == 2187;
    assert Pow(a, 8) == 6561;
    assert Pow(a, 9) == 19683;
    assert Pow(a, 10) == 59049;
    PowMul(a, 10, 34);
    var c, d := 56, 67;
    ModUnique(Pow(a, 10), p, 173, c);
    PowMod(Pow(a, 10), 34, p);
    ModUnique(c * c, p, 9, d);
    ModUnique(d * d, p, 13, c);
    PowEven(c, 17, p);
    PowSquare(d, 8);
    MulModRight(d, Pow(d, 16), p);
    PowEven(d, 8, p);
    PowEven(c, 4, p);
    PowEven(d, 2, p);
    PowEven(c, 1, p);
    assert Pow(d, 1) == d;
    ModUnique(d, p, 0, d);
  }

  /** isPrime with the intended witnesses. */
  method IsPrimeCorrected(n: int, draws: seq<real>) returns (b: bool)
    requires |draws| == 3 && forall i :: 0 <= i < 3 ==> 0.0 <= draws[i] < 1.0
    ensures n <= 1 || n == 4 ==> !b
    ensures n == 2 || n == 3 ==> b
    ensures n > 4 ==> (b <==> forall i :: 0 <= i < 3 ==> JavaPower(IntendedWitness(draws[i], n), n - 1, n) == 1)
  {
    if n <= 1 || n == 4 {
      return false;
    }
    if n <= 3 {
      return true;
    }
    var ws := seq(3, i requires 0 <= i < 3 => IntendedWitness(draws[i], n));
    b := FermatRounds(n, ws);
    assert forall i :: 0 <= i < 3 ==> ws[i] == IntendedWitness(draws[i], n);
  }

  /** With the intended witnesses a draw that picks 3 exposes 341:
      3^340 mod 341 is 56. */
  method IsPrimeCorrectedRejects341(n: int, draws: seq<real>) returns (b: bool)
    requires n == 341 && |draws| == 3 && forall i :: 0 <= i < 3 ==> 0.0 <= draws[i] < 1.0
    requires draws[0] == 1.0 / 338.0
    ensures !b
  {
    IntendedWitnessReaches(n, 3);
    assert IntendedWitness(draws[0], n) == 3;
    ThreeExposes341(3, n - 1, n);
    b := IsPrimeCorrected(n, draws);
    assert JavaPower(IntendedWitness(draws[0], n), n - 1, n) != 1;
  }
}
