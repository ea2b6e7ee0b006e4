/**
 Java's 32-bit two's-complement `int` arithmetic, written out over Dafny's
 unbounded integers: every operator the calculator applies yields the value
 a JVM would store.
 */
module JavaInt {

  const MIN: int := -0x8000_0000
  const MAX: int := 0x7fff_ffff
  /** 2^32, the period of `int` wrap-around. */
  const MODULUS: int := 0x1_0000_0000

  predicate IsInt32(x: int) {
    MIN <= x <= MAX
  }

  /** The `int` a JVM keeps for the mathematical value `x`: the one 32-bit
      value congruent to `x` modulo 2^32. */
  function Wrap(x: int): (r: int)
    ensures IsInt32(r)
    ensures (x - r) % MODULUS == 0
    ensures IsInt32(x) ==> r == x
  {
    (x - MIN) % MODULUS + MIN
  }

  /** Two 32-bit values that agree modulo 2^32 are equal, so `Wrap` picks the
      only possible candidate. */
  lemma WrapUnique(x: int, y: int)
    requires IsInt32(y) && (x - y) % MODULUS == 0
    ensures y == Wrap(x)
  {
    var w := Wrap(x);
    var k := (x - y) / MODULUS;
    var j := (x - w) / MODULUS;
    assert x - y == k * MODULUS;
    assert x - w == j * MODULUS;
    assert w - y == (k - j) * MODULUS;
    assert -MODULUS < w - y < MODULUS;
  }

  /** `a + b` on Java ints. */
  function Add(a: int, b: int): (r: int)
    requires IsInt32(a) && IsInt32(b)
    ensures a + b > MAX ==> r == a + b - MODULUS
    ensures a + b < MIN ==> r == a + b + MODULUS
    ensures IsInt32(a + b) ==> r == a + b
  {
    Wrap(a + b)
  }

  /** `a - b` on Java ints. */
  function Sub(a: int, b: int): (r: int)
    requires IsInt32(a) && IsInt32(b)
    ensures a - b > MAX ==> r == a - b - MODULUS
    ensures a - b < MIN ==> r == a - b + MODULUS
    ensures IsInt32(a - b) ==> r == a - b
  {
    Wrap(a - b)
  }

  /** `a * b` on Java ints: the low 32 bits of the exact product. */
  function Mul(a: int, b: int): (r: int)
    ensures IsInt32(r)
    ensures (a * b - r) % MODULUS == 0
  {
    Wrap(a * b)
  }

  lemma {:induction false} ScaleMonotone(q: nat, y: nat, k: nat)
    requires k <= y
    ensures q * k <= q * y
    decreases q
  {
    if q > 0 {
      ScaleMonotone(q - 1, y, k);
      assert q * k == (q - 1) * k + k;
      assert q * y == (q - 1) * y + y;
    }
  }

  /** The magnitude of `x`. */
  function Abs(x: int): nat {
    if x < 0 then -x else x
  }

  /** The quotient of naturals: the largest `q` whose multiple of `y` does
      not exceed `x`. */
  function Quotient(x: nat, y: nat): (q: nat)
    requires y >= 1
    ensures q * y <= x < q * y + y
    ensures q <= x
    ensures y >= 2 && x > 0 ==> q < x
  {
    var q := x / y;
    assert q * y + x % y == x;
    ScaleMonotone(q, y, if y >= 2 then 2 else 1);
    q
  }

  /** `a / b` on Java ints: the quotient is truncated toward zero (Dafny's own
      `/` rounds toward negative infinity for a negative numerator), and
      `MIN / -1`, the one quotient beyond `MAX`, wraps back to `MIN`. Apart
      from that case the quotient's magnitude is the quotient of the
      magnitudes, and it is negative only when the signs of `a` and `b`
      differ. */
  function Div(a: int, b: int): (r: int)
    requires IsInt32(a) && IsInt32(b) && b != 0
    ensures IsInt32(r)
    ensures !(a == MIN && b == -1) ==>
      && Abs(r) == Quotient(Abs(a), Abs(b))
      && (r > 0 ==> (a < 0) == (b < 0))
      && (r < 0 ==> (a < 0) != (b < 0))
    ensures a == MIN && b == -1 ==> r == Wrap(-MIN)
  {
    if a == MIN && b == -1 then MIN
    else
      var q: int := Quotient(Abs(a), Abs(b));
      if (a < 0) == (b < 0) then q else -q
  }

  /** On non-negative operands Java's quotient is the mathematical one. */
  lemma DivOfNaturals(a: int, b: int)
    requires 0 <= a <= MAX && 0 < b <= MAX
    ensures Div(a, b) == a / b
  {
    assert a / b * b + a % b == a;
  }

  /** `base` raised to `exp`, exactly. */
  function Power(base: nat, exp: nat): nat
    decreases exp
  {
    if exp == 0 then 1 else base * Power(base, exp - 1)
  }

  /** `(int) Math.pow(base, exp)` for non-negative operands: the power, except
      that a value beyond `MAX` saturates at `MAX`, as the cast from `double`
      to `int` does. */
  function PowClamped(base: nat, exp: nat): (r: nat)
    ensures r <= MAX
    ensures r <= Power(base, exp)
    ensures Power(base, exp) <= MAX ==> r == Power(base, exp)
    ensures Power(base, exp) > MAX ==> r == MAX
  {
    var p := Power(base, exp);
    if p > MAX then MAX else p
  }

  /** A difference of two non-negative ints never leaves the `int` range, so
      the calculator's subtraction never wraps. */
  lemma SubOfNaturalsExact(a: int, b: int)
    requires 0 <= a <= MAX && 0 <= b <= MAX
    ensures Sub(a, b) == a - b
  {
  }
}
