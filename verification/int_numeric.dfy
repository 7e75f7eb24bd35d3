/** `IntNumeric`, src/Numeric.cpp. A sum promotes to the right operand's floating or
    complex type; every other operation converts the right operand to `int` and
    stays an `int`. */
module IntNumeric {
  import opened Wrappers
  import opened Native
  import opened Values
  import opened Convert

  /** The right operand as `int`: itself, or its `convertTo(typeid(IntNumeric))`. */
  function Operand(b: Numeric): (y: int)
    requires ConversionDefined(b, IntKind)
    ensures y == Trunc(Re(b))
    ensures InInt32(y)
  {
    match b
    case Int(y) => TruncOfInt(y); y
    case _ => ConvertTo(b, IntKind).value.i
  }

  /** The operations whose outcome C++ defines: no signed overflow, no `INT_MIN / -1`,
      no out-of-range float-to-int conversion of the right operand. */
  predicate Defined(op: ArithOp, x: int, b: Numeric) {
    if op == Add then
      b.Int? ==> InInt32(x + b.i)
    else
      var y := Trunc(Re(b));
      InInt32(y) && ((op == Div && y == 0) || InInt32(IntOp(op, x, y)))
  }

  /** `IntNumeric::sumOperation`: an `int` plus an `int` stays an `int`; plus a
      `float`/`double` or a complex of those, the sum takes the right operand's type
      and adds `x` to its real part; anything else is refused. */
  function Sum(x: int, b: Numeric): (r: Result<Numeric, Error>)
    requires InInt32(x) && WellFormed(b) && Defined(Add, x, b)
    ensures r.Success? <==> b.Int? || (!b.Char? && b.p != Extended)
    ensures r.Failure? ==> r.error == UnsupportedAddition
    ensures r.Success? ==> KindOf(r.value) == KindOf(b) && WellFormed(r.value)
    ensures r.Success? ==> Re(r.value) == x as real + Re(b) && Im(r.value) == Im(b)
  {
    match b
    case Int(y) => Success(Int(x + y))
    case Float(p, f) =>
      if p == Single || p == Double then Success(Float(p, x as real + f))
      else assert p == Extended; Failure(UnsupportedAddition)
    case Complex(p, z) =>
      if p == Single || p == Double then Success(Complex(p, CxAdd(Cx(x as real, 0.0), z)))
      else assert p == Extended; Failure(UnsupportedAddition)
    case Char(_, _) => Failure(UnsupportedAddition)
  }

  /** `subtractOperation`, `multiplyOperation`, `divideOperation`: the right operand
      is converted to `int` first; division fails exactly when that `int` is zero
      and otherwise truncates toward zero. */
  function Arith(op: ArithOp, x: int, b: Numeric): (r: Result<Numeric, Error>)
    requires op != Add && InInt32(x) && WellFormed(b) && Defined(op, x, b)
    ensures r.Failure? <==> op == Div && Trunc(Re(b)) == 0
    ensures r.Failure? ==> r.error == DivisionByZero
    ensures r.Success? ==> r.value.Int? && InInt32(r.value.i)
    ensures r.Success? && op == Sub ==> r.value.i + Trunc(Re(b)) == x
    ensures r.Success? && op == Mul ==> r.value.i == x * Trunc(Re(b))
    ensures r.Success? && op == Div ==>
      var y := Trunc(Re(b));
      Abs(x - r.value.i * y) < Abs(y) && (x - r.value.i * y == 0 || (x - r.value.i * y < 0 <==> x < 0))
  {
    var y := Operand(b);
    if op == Div && y == 0 then Failure(DivisionByZero)
    else Success(Int(IntOp(op, x, y)))
  }

  /** `lessThanOperation`, `greaterThanOperation`, `equalOperation`: the right
      operand is converted to `int` and the two `int`s are compared. */
  function Compare(op: CmpOp, x: int, b: Numeric): (r: bool)
    requires WellFormed(b) && InInt32(Trunc(Re(b)))
    ensures op == Less ==> (r <==> x < Trunc(Re(b)))
    ensures op == Greater ==> (r <==> x > Trunc(Re(b)))
    ensures op == Equal ==> (r <==> x == Trunc(Re(b)))
  {
    IntCmp(op, x, Operand(b))
  }

  /** Between two `IntNumeric`s exactly one of the three comparisons holds. */
  lemma Trichotomy(x: int, y: int)
    requires InInt32(y)
    ensures Compare(Less, x, Int(y)) || Compare(Equal, x, Int(y)) || Compare(Greater, x, Int(y))
    ensures !(Compare(Less, x, Int(y)) && Compare(Equal, x, Int(y)))
    ensures !(Compare(Less, x, Int(y)) && Compare(Greater, x, Int(y)))
    ensures !(Compare(Equal, x, Int(y)) && Compare(Greater, x, Int(y)))
  {
    TruncOfInt(y);
  }

  /** `a < b` between `IntNumeric`s is `b > a`, and equality is symmetric. */
  lemma Mirror(x: int, y: int)
    requires InInt32(x) && InInt32(y)
    ensures Compare(Less, x, Int(y)) == Compare(Greater, y, Int(x))
    ensures Compare(Equal, x, Int(y)) == Compare(Equal, y, Int(x))
  {
    TruncOfInt(x);
    TruncOfInt(y);
  }

  /** Subtracting what was added gives the `int` back. */
  lemma SumThenSubtract(x: int, y: int)
    requires InInt32(x) && InInt32(y) && InInt32(x + y)
    ensures Sum(x, Int(y)).Success?
    ensures Arith(Sub, Sum(x, Int(y)).value.i, Int(y)) == Success(Int(x))
  {
    TruncOfInt(y);
  }

  /** The decimal digit for `d`. */
  function DigitChar(d: int): (ch: char)
    requires 0 <= d < 10
    ensures '0' <= ch <= '9'
  {
    ('0' as int + d) as char
  }

  predicate IsDigits(s: string) {
    |s| > 0 && forall k :: 0 <= k < |s| ==> '0' <= s[k] <= '9'
  }

  /** The decimal digits of a natural number, most significant first, without
      leading zeros. */
  function Digits(n: nat): (s: string)
    ensures IsDigits(s)
    ensures s[0] == '0' <==> n == 0
    ensures n == 0 ==> s == "0"
    decreases n
  {
    if n < 10 then [DigitChar(n)]
    else Digits(n / 10) + [DigitChar(n % 10)]
  }

  /** `std::to_string(int)`: the decimal rendering, with a leading `-` for negatives. */
  function ToString(x: int): (s: string)
    ensures |s| > 0
    ensures s[0] == '-' <==> x < 0
    ensures x < 0 ==> IsDigits(s[1..]) && s[1] != '0'
    ensures x >= 0 ==> IsDigits(s) && (s[0] == '0' ==> s == "0")
  {
    if x < 0 then "-" + Digits(-x) else Digits(x)
  }

  /** The value of a string of decimal digits. */
  function DigitsValue(s: string): nat
    requires forall k :: 0 <= k < |s| ==> '0' <= s[k] <= '9'
  {
    if |s| == 0 then 0
    else DigitsValue(s[..|s| - 1]) * 10 + (s[|s| - 1] as int - '0' as int)
  }

  /** Reads back what `ToString` writes: an optional `-` and decimal digits. */
  function Parse(s: string): int
    requires IsDigits(s) || (|s| > 1 && s[0] == '-' && IsDigits(s[1..]))
  {
    if s[0] == '-' then 0 - DigitsValue(s[1..]) as int else DigitsValue(s)
  }

  lemma {:induction false} DigitsRoundTrip(n: nat)
    ensures DigitsValue(Digits(n)) == n
    decreases n
  {
    if n >= 10 {
      DigitsRoundTrip(n / 10);
      var s := Digits(n);
      assert s[..|s| - 1] == Digits(n / 10);
    }
  }

  /** `toString` loses nothing: the rendered text reads back as the same `int`. */
  lemma ToStringRoundTrip(x: int)
    ensures Parse(ToString(x)) == x
  {
    if x < 0 {
      DigitsRoundTrip(-x);
      assert ToString(x)[1..] == Digits(-x);
    } else {
      DigitsRoundTrip(x);
    }
  }

  /** Distinct `int`s are rendered differently. */
  lemma ToStringInjective(x: int, y: int)
    ensures ToString(x) == ToString(y) ==> x == y
  {
    ToStringRoundTrip(x);
    ToStringRoundTrip(y);
  }
}
