/** The virtual call `a.op(b)`: the left operand's class runs the operation. */
module Dispatch {
  import opened Wrappers
  import opened Native
  import opened Values
  import opened Convert
  import opened Promotion
  import IntNumeric
  import FloatNumeric
  import ComplexNumeric
  import CharNumeric

  /** Both operands are objects their classes can hold and the operation has no
      undefined behaviour. */
  predicate Defined(op: ArithOp, a: Numeric, b: Numeric) {
    && WellFormed(a)
    && WellFormed(b)
    && match a
       case Int(x) => IntNumeric.Defined(op, x, b)
       case Char(w, c) => CharNumeric.Defined(op, w, c, b)
       case _ => true
  }

  /** The divisor, once converted to the left operand's type, is zero. */
  predicate ZeroDivisor(op: ArithOp, a: Numeric, b: Numeric) {
    op == Div &&
    match a
    case Int(_) => Trunc(Re(b)) == 0
    case Float(_, _) => Re(b) == 0.0
    case Complex(_, _) => Re(b) == 0.0 && Im(b) == 0.0
    case Char(_, _) => false
  }

  /** `sumOperation`, `subtractOperation`, `multiplyOperation`, `divideOperation`
      on the left operand. The outcome follows the type table, and a division
      that the table allows fails exactly on a zero divisor. */
  function Arith(op: ArithOp, a: Numeric, b: Numeric): (r: Result<Numeric, Error>)
    requires Defined(op, a, b)
    ensures ArithCell(op, KindOf(a), KindOf(b)).Fails? ==>
      r == Failure(ArithCell(op, KindOf(a), KindOf(b)).error)
    ensures ArithCell(op, KindOf(a), KindOf(b)).Yields? && ZeroDivisor(op, a, b) ==>
      r == Failure(DivisionByZero)
    ensures ArithCell(op, KindOf(a), KindOf(b)).Yields? && !ZeroDivisor(op, a, b) ==>
      r.Success? && KindOf(r.value) == ArithCell(op, KindOf(a), KindOf(b)).kind
    ensures r.Success? ==> WellFormed(r.value)
  {
    match a
    case Int(x) =>
      if op == Add then IntNumeric.Sum(x, b) else IntNumeric.Arith(op, x, b)
    case Float(p, f) =>
      if op == Add then FloatNumeric.Sum(p, f, b) else FloatNumeric.Arith(op, p, f, b)
    case Complex(p, z) =>
      ComplexNumeric.Arith(op, p, z, b)
    case Char(w, c) =>
      if op == Add || op == Sub then CharNumeric.SumOrSub(op, w, c, b) else CharNumeric.MulOrDiv(op, b)
  }

  /** A comparison is defined unless an `int` is compared with a float or complex
      whose real part does not fit in `int`. */
  predicate CompareDefined(a: Numeric, b: Numeric) {
    WellFormed(a) && WellFormed(b) && (a.Int? ==> InInt32(Trunc(Re(b))))
  }

  /** `lessThanOperation`, `greaterThanOperation`, `equalOperation` on the left
      operand: answered exactly when the table says the types compare. */
  function Compare(op: CmpOp, a: Numeric, b: Numeric): (r: Result<bool, Error>)
    requires CompareDefined(a, b)
    ensures r.Success? <==> Comparable(KindOf(a), KindOf(b))
    ensures r.Failure? ==> r.error == UnsupportedConversion
  {
    match a
    case Int(x) => Success(IntNumeric.Compare(op, x, b))
    case Float(p, f) => FloatNumeric.Compare(op, p, f, b)
    case Complex(p, z) => ComplexNumeric.Compare(op, p, z, b)
    case Char(w, c) => CharNumeric.Compare(op, w, c, b)
  }

  /** Equality between an `int` and a float is not symmetric: the `int` side
      truncates the float, the float side does not. */
  lemma MixedEqualityAsymmetric()
    ensures Compare(Equal, Int(3), Float(Double, 3.5)) == Success(true)
    ensures Compare(Equal, Float(Double, 3.5), Int(3)) == Success(false)
  {
    assert Trunc(3.5) == 3;
  }

  /** An `int` divided by any float in (-1, 1) fails: the divisor truncates to 0. */
  lemma IntDivideBySmallFloat(x: int, p: Precision, f: real)
    requires InInt32(x) && -1.0 < f < 1.0
    ensures Arith(Div, Int(x), Float(p, f)) == Failure(DivisionByZero)
  {
  }

  /** An `int` minus a float is an `int`: the float is truncated toward zero. */
  lemma IntMinusFloat(x: int, p: Precision, f: real)
    requires Defined(Sub, Int(x), Float(p, f))
    ensures Arith(Sub, Int(x), Float(p, f)) == Success(Int(x - Trunc(f)))
  {
  }

  /** An `int` plus a character is refused, while minus the character subtracts
      its code point. */
  lemma IntWithChar(x: int, w: CharWidth, c: int)
    requires Defined(Sub, Int(x), Char(w, c))
    ensures Arith(Add, Int(x), Char(w, c)) == Failure(UnsupportedAddition)
    ensures Arith(Sub, Int(x), Char(w, c)) == Success(Int(x - CodePoint(c)))
  {
    TruncOfInt(CodePoint(c));
  }

  /** A character never multiplies or divides, whatever the right operand. */
  lemma CharNeverMultiplies(w: CharWidth, c: int, b: Numeric)
    requires InCharRange(w, c) && WellFormed(b)
    ensures Arith(Mul, Char(w, c), b) == Failure(CharMultiply)
    ensures Arith(Div, Char(w, c), b) == Failure(CharDivide)
  {
  }
}
