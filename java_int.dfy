/** Java's 32-bit int arithmetic, written out over Dafny's unbounded integers. */
module JavaInt {

  const INT_MIN: int := -0x8000_0000
  const INT_MAX: int := 0x7FFF_FFFF
  const TWO_32: int := 0x1_0000_0000

  predicate InInt(x: int) { INT_MIN <= x <= INT_MAX }

  function Abs(x: int): nat { if x < 0 then -x else x }

  /** The int that x wraps to (two's complement truncation to 32 bits). */
  function Wrap32(x: int): (r: int)
    ensures InInt(r)
    ensures InInt(x) ==> r == x
  {
    (x - INT_MIN) % TWO_32 + INT_MIN
  }

  /** Java's `/` on ints: the quotient truncated toward zero. */
  function Div(x: int, y: int): (q: int)
    requires y != 0
    ensures x >= 0 && y > 0 ==> q == x / y
    ensures (x >= 0) == (y > 0) ==> q >= 0
    ensures (x >= 0) != (y > 0) ==> q <= 0
  {
    if x >= 0 && y > 0 then x / y
    else if x >= 0 then -(x / -y)
    else if y > 0 then -(-x / y)
    else -x / -y
  }

  /** Java's `%` on ints: the remainder takes the sign of the dividend and
      its magnitude is smaller than the divisor's. */
  function Rem(x: int, y: int): (r: int)
    requires y != 0
    ensures Abs(r) < Abs(y)
    ensures x >= 0 ==> r >= 0 && (y > 0 ==> r == x % y)
    ensures x <= 0 ==> r <= 0
  {
    if x >= 0 then x % Abs(y) else -((-x) % Abs(y))
  }

  /** Java's division identity: (x / y) * y + x % y == x. */
  lemma {:induction false} DivRem(x: int, y: int)
    requires y != 0
    ensures Div(x, y) * y + Rem(x, y) == x
  {
    var ax: int, ay: int := Abs(x), Abs(y);
    assert ax == (ax / ay) * ay + ax % ay;
    if x >= 0 && y > 0 {
    } else if x >= 0 {
      assert Div(x, y) * y == (ax / ay) * ay;
    } else if y > 0 {
      assert Div(x, y) * y == -((ax / ay) * ay);
    } else {
      assert Div(x, y) * y == -((ax / ay) * ay);
    }
  }

  /** Euclidean remainder is determined by any decomposition a == q*m + r with 0 <= r < m. */
  lemma {:induction false} ModUnique(a: int, m: int, q: int, r: int)
    requires m > 0 && 0 <= r < m && a == q * m + r
    ensures a % m == r && a / m == q
  {
    var q', r' := a / m, a % m;
    assert q' * m + r' == q * m + r;
    assert (q - q') * m == r' - r;
    if q - q' >= 1 {
      MulAtLeast(q - q', m);
    } else if q - q' <= -1 {
      MulAtLeast(q' - q, m);
    }
  }

  lemma {:induction false} MulAtLeast(d: int, m: int)
    requires d >= 1 && m > 0
    ensures d * m >= m
  {
    assert d * m == m + (d - 1) * m;
  }

  /** Wrapping ignores multiples of 2^32. */
  lemma {:induction false} WrapShift(x: int, k: int)
    ensures Wrap32(x + k * TWO_32) == Wrap32(x)
  {
    var y := x - INT_MIN;
    var q, r := y / TWO_32, y % TWO_32;
    assert y + k * TWO_32 == (q + k) * TWO_32 + r;
    ModUnique(y + k * TWO_32, TWO_32, q + k, r);
  }

  /** Wrapping is compatible with addition: adding wrapped values and
      wrapping again gives the wrapped exact sum. */
  lemma {:induction false} Wrap32Add(a: int, b: int)
    ensures Wrap32(Wrap32(a) + Wrap32(b)) == Wrap32(a + b)
  {
    var ya, yb := a - INT_MIN, b - INT_MIN;
    var ka, kb := ya / TWO_32, yb / TWO_32;
    assert Wrap32(a) == a - ka * TWO_32;
    assert Wrap32(b) == b - kb * TWO_32;
    assert Wrap32(a) + Wrap32(b) == (a + b) + (-(ka + kb)) * TWO_32;
    WrapShift(a + b, -(ka + kb));
  }
}
