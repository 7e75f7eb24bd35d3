/** `ComplexNumeric<T>`, Include/Numeric.hpp. Every operation works in the left
    operand's type `ComplexNumeric<T>`: an `int` or a float `v` becomes `(v, 0)`, a
    complex of the other precision converts componentwise, and a character is
    refused because `charNumeric::convertTo` has no complex target. */
module ComplexNumeric {
  import opened Wrappers
  import opened Native
  import opened Values
  import opened Convert

  /** Whether a right operand can be brought to `ComplexNumeric<T>`. */
  predicate Accepts(p: Precision, b: Numeric) {
    KindOf(b) == ComplexKind(p) || Convertible(KindOf(b), ComplexKind(p))
  }

  /** The right operand as a `std::complex<T>`. */
  function Operand(p: Precision, b: Numeric): (r: Result<Cx, Error>)
    requires WellFormed(b)
    ensures r.Success? <==> Accepts(p, b)
    ensures r.Failure? ==> r.error == UnsupportedConversion
    ensures r.Success? ==> r.value == Cx(Re(b), Im(b))
  {
    if b.Complex? && b.p == p then Success(b.z)
    else
      var converted :- ConvertTo(b, ComplexKind(p));
      Success(converted.z)
  }

  /** The four arithmetic operations. A division fails when the converted divisor
      has `std::abs` zero, which over exact reals means it is `0 + 0i`. */
  function Arith(op: ArithOp, p: Precision, z: Cx, b: Numeric): (r: Result<Numeric, Error>)
    requires WellFormed(b)
    ensures r.Failure? <==> !Accepts(p, b) || (op == Div && Re(b) == 0.0 && Im(b) == 0.0)
    ensures r.Failure? ==> r.error == if Accepts(p, b) then DivisionByZero else UnsupportedConversion
    ensures r.Success? ==> r.value.Complex? && r.value.p == p
    ensures r.Success? && op == Add ==> r.value.z == Cx(z.re + Re(b), z.im + Im(b))
    ensures r.Success? && op == Sub ==> CxAdd(r.value.z, Cx(Re(b), Im(b))) == z
    ensures r.Success? && op == Mul ==> r.value.z == CxMul(z, Cx(Re(b), Im(b)))
    ensures r.Success? && op == Div ==> CxMul(r.value.z, Cx(Re(b), Im(b))) == z
  {
    var w :- Operand(p, b);
    if op == Div && w == CxZero then Failure(DivisionByZero)
    else Success(Complex(p, CxOp(op, z, w)))
  }

  /** The comparisons as `ComplexNumeric<T>::lessThanOperation` and its siblings write them: on equal real parts the imaginary
      parts decide, otherwise the real parts; equality is componentwise. */
  function CompareValues(op: CmpOp, a: Cx, b: Cx): bool {
    match op
    case Less => if a.re == b.re then a.im < b.im else a.re < b.re
    case Greater => if a.re == b.re then a.im > b.im else a.re > b.re
    case Equal => a == b
  }

  /** `lessThanOperation`, `greaterThanOperation`, `equalOperation`: lexicographic
      order on (real, imaginary). */
  function Compare(op: CmpOp, p: Precision, z: Cx, b: Numeric): (r: Result<bool, Error>)
    requires WellFormed(b)
    ensures r.Success? <==> Accepts(p, b)
    ensures r.Failure? ==> r.error == UnsupportedConversion
    ensures r.Success? && op == Less ==>
      (r.value <==> z.re < Re(b) || (z.re == Re(b) && z.im < Im(b)))
    ensures r.Success? && op == Greater ==>
      (r.value <==> z.re > Re(b) || (z.re == Re(b) && z.im > Im(b)))
    ensures r.Success? && op == Equal ==>
      (r.value <==> z.re == Re(b) && z.im == Im(b))
  {
    var w :- Operand(p, b);
    Success(CompareValues(op, z, w))
  }

  /** `a < b` between two complex values of one type. */
  function Precedes(p: Precision, a: Cx, b: Cx): bool {
    Compare(Less, p, a, Complex(p, b)).value
  }

  /** The lexicographic order is a strict total order: irreflexive, transitive, and
      exactly one of `a < b`, `a == b`, `b < a` holds; `a > b` is `b < a`. */
  lemma StrictTotalOrder(p: Precision, a: Cx, b: Cx, c: Cx)
    ensures !Precedes(p, a, a)
    ensures Precedes(p, a, b) && Precedes(p, b, c) ==> Precedes(p, a, c)
    ensures Precedes(p, a, b) || a == b || Precedes(p, b, a)
    ensures !(Precedes(p, a, b) && Precedes(p, b, a))
    ensures Compare(Greater, p, a, Complex(p, b)) == Success(Precedes(p, b, a))
    ensures Compare(Equal, p, a, Complex(p, b)) == Success(a == b)
  {
  }

  /** Subtracting what was added gives the value back. */
  lemma SumThenSubtract(p: Precision, z: Cx, w: Cx)
    ensures Arith(Add, p, z, Complex(p, w)).Success?
    ensures Arith(Sub, p, Arith(Add, p, z, Complex(p, w)).value.z, Complex(p, w)) == Success(Complex(p, z))
  {
  }

  /** Multiplying the quotient by the divisor gives the dividend back. */
  lemma DivideThenMultiply(p: Precision, z: Cx, w: Cx)
    requires w != CxZero
    ensures Arith(Div, p, z, Complex(p, w)).Success?
    ensures Arith(Mul, p, Arith(Div, p, z, Complex(p, w)).value.z, Complex(p, w)) == Success(Complex(p, z))
  {
    var q := Arith(Div, p, z, Complex(p, w)).value.z;
    assert CxMul(q, w) == z;
  }
}
