/** Exact semantics of the C++ built-in operations the numeric classes are made of:
    the 32-bit `int` range and the modular conversion into it, truncation toward zero
    (`static_cast<int>` of a float, and `/` on `int`), POSIX `toascii`, and the
    `std::complex` operators. Floating-point values are modelled as exact reals. */
module Native {

  const IntMin: int := -0x8000_0000
  const IntMax: int := 0x7FFF_FFFF
  const Modulus32: int := 0x1_0000_0000

  /** The values a C++ `int` can hold. */
  predicate InInt32(x: int) {
    IntMin <= x <= IntMax
  }

  function Abs(x: int): nat {
    if x < 0 then -x else x
  }

  function Pow2(k: nat): (p: nat)
    ensures p >= 1
  {
    if k == 0 then 1 else 2 * Pow2(k - 1)
  }

  lemma MultipleMod(m: int, q: int)
    requires q >= 1
    ensures (m * q) % q == 0
  {
    var r := (m * q) % q;
    var k := m - (m * q) / q;
    assert r == k * q;
    assert k >= 1 ==> k * q >= q;
    assert k <= -1 ==> k * q <= -q;
  }

  /** The value an integer of a wider or unsigned type takes when it is converted to
      `int`: reduction modulo 2^32 into the signed range (the rule C++20 fixes). */
  function ToInt32(v: int): (r: int)
    ensures InInt32(r)
    ensures (v - r) % Modulus32 == 0
    ensures InInt32(v) ==> r == v
  {
    var shifted := v - IntMin;
    assert v - ((shifted % Modulus32) + IntMin) == (shifted / Modulus32) * Modulus32;
    MultipleMod(shifted / Modulus32, Modulus32);
    shifted % Modulus32 + IntMin
  }

  /** `static_cast<int>` of a floating value: truncation toward zero. */
  function Trunc(x: real): (n: int)
    ensures 0.0 <= x ==> 0 <= n && n as real <= x < n as real + 1.0
    ensures x < 0.0 ==> n <= 0 && n as real - 1.0 < x <= n as real
  {
    if x >= 0.0 then x.Floor else -((-x).Floor)
  }

  /** `x / y` on C++ integers: the quotient rounded toward zero, so that the
      remainder is smaller than the divisor and carries the sign of the dividend. */
  function TruncDiv(x: int, y: int): (q: int)
    requires y != 0
    ensures Abs(x - q * y) < Abs(y)
    ensures x - q * y == 0 || (x - q * y < 0 <==> x < 0)
  {
    var m := Abs(x) / Abs(y);
    var q := if (x < 0) == (y < 0) then m else -m;
    TruncDivRemainder(x, y, m, q);
    q
  }

  lemma TruncDivRemainder(x: int, y: int, m: int, q: int)
    requires y != 0 && m == Abs(x) / Abs(y)
    requires q == if (x < 0) == (y < 0) then m else -m
    ensures x - q * y == if x < 0 then -(Abs(x) % Abs(y)) else Abs(x) % Abs(y)
  {
    var a, b := Abs(x), Abs(y);
    var p := m * b;
    assert a == p + a % b;
    if y < 0 {
      assert q * y == (-q) * b;
    } else {
      assert q * y == q * b;
    }
    if (x < 0) == (y < 0) {
      assert q * y == (if x < 0 then -p else p);
    } else {
      assert q * y == (if x < 0 then -p else p);
    }
  }

  /** The low `k` bits of the two's-complement representation of `x`, as a number. */
  function LowBits(x: int, k: nat): (r: int)
    decreases k
    ensures 0 <= r < Pow2(k)
    ensures (x - r) % Pow2(k) == 0
  {
    if k == 0 then 0
    else
      var rest := LowBits(x / 2, k - 1);
      HalfStep(x, rest, Pow2(k - 1));
      x % 2 + 2 * rest
  }

  lemma HalfStep(x: int, rest: int, p: int)
    requires p >= 1
    requires (x / 2 - rest) % p == 0
    ensures (x - (x % 2 + 2 * rest)) % (2 * p) == 0
  {
    var m := (x / 2 - rest) / p;
    assert x / 2 - rest == m * p;
    assert x - (x % 2 + 2 * rest) == m * (2 * p);
    MultipleMod(m, 2 * p);
  }

  /** Congruence modulo 128: equal low seven bits. */
  predicate Congruent(x: int, y: int) {
    (x - y) % 128 == 0
  }

  lemma CongruentSum(x: int, y: int, u: int, v: int)
    requires Congruent(x, y) && Congruent(u, v)
    ensures Congruent(x + u, y + v) && Congruent(x - u, y - v)
  {
    var a, b := (x - y) / 128, (u - v) / 128;
    assert x - y == 128 * a && u - v == 128 * b;
    MultipleMod(a + b, 128);
    MultipleMod(a - b, 128);
    assert (x + u) - (y + v) == (a + b) * 128;
    assert (x - u) - (y - v) == (a - b) * 128;
  }

  lemma CongruentTrans(x: int, y: int, z: int)
    requires Congruent(x, y) && Congruent(y, z)
    ensures Congruent(x, z)
  {
    var a, b := (x - y) / 128, (y - z) / 128;
    assert x - y == 128 * a && y - z == 128 * b;
    assert x - z == (a + b) * 128;
    MultipleMod(a + b, 128);
  }

  /** Two 7-bit codes congruent to the same number modulo 128 are equal. */
  lemma SevenBitUnique(v: int, r1: int, r2: int)
    requires 0 <= r1 < 128 && 0 <= r2 < 128
    requires Congruent(v, r1) && Congruent(v, r2)
    ensures r1 == r2
  {
    var a, b := (v - r1) / 128, (v - r2) / 128;
    assert v - r1 == 128 * a && v - r2 == 128 * b;
    assert r2 - r1 == 128 * (a - b);
  }

  /** POSIX `toascii(c)`, which is `c & 0x7f`: a 7-bit code congruent to the
      argument modulo 128. */
  function ToAscii(v: int): (r: int)
    ensures 0 <= r < 128
    ensures Congruent(v, r)
  {
    MultipleMod(v / 128, 128);
    v % 128
  }

  /** `toascii` keeps exactly the low seven bits of the two's-complement argument. */
  lemma ToAsciiIsLowBits(v: int)
    ensures ToAscii(v) == LowBits(v, 7)
  {
    assert Pow2(7) == 128;
    SevenBitUnique(v, ToAscii(v), LowBits(v, 7));
  }

  /** A `std::complex<T>` value over exact reals. */
  datatype Cx = Cx(re: real, im: real)

  const CxZero: Cx := Cx(0.0, 0.0)

  lemma ProductPositive(x: real, y: real)
    requires x > 0.0 && y > 0.0
    ensures x * y > 0.0
  {}

  lemma SquarePositive(x: real)
    requires x != 0.0
    ensures x * x > 0.0
  {
    if x > 0.0 {
      ProductPositive(x, x);
    } else {
      ProductPositive(-x, -x);
      assert x * x == (-x) * (-x);
    }
  }

  lemma SquareNonNegative(x: real)
    ensures x * x >= 0.0
  {
    if x != 0.0 {
      SquarePositive(x);
    }
  }

  lemma ScaledNormNonZero(t: real)
    ensures 1.0 + t * t != 0.0
  {
    SquareNonNegative(t);
  }

  function CxAdd(a: Cx, b: Cx): Cx {
    Cx(a.re + b.re, a.im + b.im)
  }

  function CxSub(a: Cx, b: Cx): Cx {
    Cx(a.re - b.re, a.im - b.im)
  }

  function CxMul(a: Cx, b: Cx): Cx {
    Cx(a.re * b.re - a.im * b.im, a.re * b.im + a.im * b.re)
  }

  /** Complex division; the quotient times the divisor gives back the dividend.
      With `b.re != 0` it divides by `b.re * (1 + t*t)`, `t = b.im / b.re`, which is
      the squared magnitude of `b` over `b.re`; over exact reals every formula for the
      quotient gives the same value. */
  function CxDiv(a: Cx, b: Cx): (q: Cx)
    requires b != CxZero
    ensures CxMul(q, b) == a
  {
    if b.re == 0.0 then
      Cx(a.im / b.im, -a.re / b.im)
    else
      var t := b.im / b.re;
      ScaledNormNonZero(t);
      var q := Cx((a.re + a.im * t) / (1.0 + t * t) / b.re,
                  (a.im - a.re * t) / (1.0 + t * t) / b.re);
      CxDivInverse(a, b, t, q);
      q
  }

  lemma CxDivInverse(a: Cx, b: Cx, t: real, q: Cx)
    requires b.re != 0.0 && t == b.im / b.re && 1.0 + t * t != 0.0
    requires q == Cx((a.re + a.im * t) / (1.0 + t * t) / b.re,
                     (a.im - a.re * t) / (1.0 + t * t) / b.re)
    ensures CxMul(q, b) == a
  {
    var d := 1.0 + t * t;
    var x, y := q.re * b.re, q.im * b.re;
    assert b.im == t * b.re;
    assert x * d == a.re + a.im * t;
    assert y * d == a.im - a.re * t;
    assert (x - y * t) * d == a.re * d;
    assert (x * t + y) * d == a.im * d;
    Cancel(x - y * t, a.re, d);
    Cancel(x * t + y, a.im, d);
  }

  lemma Cancel(x: real, y: real, d: real)
    requires d != 0.0 && x * d == y * d
    ensures x == y
  {
    assert (x - y) * d == 0.0;
  }

  /** The four arithmetic operations of the `Numeric` interface. */
  datatype ArithOp = Add | Sub | Mul | Div

  /** The three comparisons of the `Numeric` interface. */
  datatype CmpOp = Less | Greater | Equal

  /** An arithmetic operation on C++ `int`s, with unbounded result. */
  function IntOp(op: ArithOp, x: int, y: int): int
    requires op == Div ==> y != 0
  {
    match op
    case Add => x + y
    case Sub => x - y
    case Mul => x * y
    case Div => TruncDiv(x, y)
  }

  function RealOp(op: ArithOp, x: real, y: real): (r: real)
    requires op == Div ==> y != 0.0
    ensures op == Div ==> r * y == x
  {
    match op
    case Add => x + y
    case Sub => x - y
    case Mul => x * y
    case Div => x / y
  }

  function CxOp(op: ArithOp, a: Cx, b: Cx): (r: Cx)
    requires op == Div ==> b != CxZero
  {
    match op
    case Add => CxAdd(a, b)
    case Sub => CxSub(a, b)
    case Mul => CxMul(a, b)
    case Div => CxDiv(a, b)
  }

  function IntCmp(op: CmpOp, x: int, y: int): bool {
    match op
    case Less => x < y
    case Greater => x > y
    case Equal => x == y
  }

  function RealCmp(op: CmpOp, x: real, y: real): bool {
    match op
    case Less => x < y
    case Greater => x > y
    case Equal => x == y
  }
}
