/** `FloatNumeric<T>`, Include/Numeric.hpp. The result always has the left operand's
    type `T`: the right operand is used as is when it has type `T` too and is
    otherwise converted to `FloatNumeric<T>`, which reads its real part. The one
    exception is a sum with a `ComplexNumeric<T>`, which is complex. */
module FloatNumeric {
  import opened Wrappers
  import opened Native
  import opened Values
  import opened Convert

  /** Whether a right operand can be brought to `FloatNumeric<T>`: it has that type
      already, or `convertTo` lists it (which it never does for `long double`). */
  predicate Accepts(p: Precision, b: Numeric) {
    KindOf(b) == FloatKind(p) || Convertible(KindOf(b), FloatKind(p))
  }

  /** The right operand as a `T`: its own value, or that of its conversion. */
  function Operand(p: Precision, b: Numeric): (r: Result<real, Error>)
    requires WellFormed(b)
    ensures r.Success? <==> Accepts(p, b)
    ensures r.Failure? ==> r.error == UnsupportedConversion
    ensures r.Success? ==> r.value == Re(b)
  {
    if b.Float? && b.p == p then Success(b.f)
    else
      var converted :- ConvertTo(b, FloatKind(p));
      Success(converted.f)
  }

  /** `FloatNumeric<T>::sumOperation`. */
  function Sum(p: Precision, f: real, b: Numeric): (r: Result<Numeric, Error>)
    requires WellFormed(b)
    ensures r.Success? <==> Accepts(p, b) || KindOf(b) == ComplexKind(p)
    ensures r.Failure? ==> r.error == UnsupportedConversion
    ensures KindOf(b) == ComplexKind(p) ==> r == Success(Complex(p, Cx(f + Re(b), Im(b))))
    ensures r.Success? && KindOf(b) != ComplexKind(p) ==> r.value == Float(p, f + Re(b))
  {
    if b.Float? && b.p == p then Success(Float(p, f + b.f))
    else if b.Complex? && b.p == p then Success(Complex(p, Cx(f + b.z.re, b.z.im)))
    else
      var g :- Operand(p, b);
      Success(Float(p, f + g))
  }

  /** `subtractOperation`, `multiplyOperation`, `divideOperation`: the conversion
      comes first, then the zero test on the converted divisor. */
  function Arith(op: ArithOp, p: Precision, f: real, b: Numeric): (r: Result<Numeric, Error>)
    requires op != Add && WellFormed(b)
    ensures r.Failure? <==> !Accepts(p, b) || (op == Div && Re(b) == 0.0)
    ensures r.Failure? ==> r.error == if Accepts(p, b) then DivisionByZero else UnsupportedConversion
    ensures r.Success? ==> r.value.Float? && r.value.p == p
    ensures r.Success? && op == Sub ==> r.value.f + Re(b) == f
    ensures r.Success? && op == Mul ==> r.value.f == f * Re(b)
    ensures r.Success? && op == Div ==> r.value.f * Re(b) == f
  {
    var g :- Operand(p, b);
    if op == Div && g == 0.0 then Failure(DivisionByZero)
    else Success(Float(p, RealOp(op, f, g)))
  }

  /** `lessThanOperation`, `greaterThanOperation`, `equalOperation`. */
  function Compare(op: CmpOp, p: Precision, f: real, b: Numeric): (r: Result<bool, Error>)
    requires WellFormed(b)
    ensures r.Success? <==> Accepts(p, b)
    ensures r.Failure? ==> r.error == UnsupportedConversion
    ensures r.Success? && op == Less ==> (r.value <==> f < Re(b))
    ensures r.Success? && op == Greater ==> (r.value <==> f > Re(b))
    ensures r.Success? && op == Equal ==> (r.value <==> f == Re(b))
  {
    var g :- Operand(p, b);
    Success(RealCmp(op, f, g))
  }

  /** Subtracting what was added gives the value back. */
  lemma SumThenSubtract(p: Precision, f: real, g: real)
    ensures Sum(p, f, Float(p, g)).Success?
    ensures Arith(Sub, p, Sum(p, f, Float(p, g)).value.f, Float(p, g)) == Success(Float(p, f))
  {
  }

  /** Multiplying the quotient by the divisor gives the dividend back. */
  lemma DivideThenMultiply(p: Precision, f: real, g: real)
    requires g != 0.0
    ensures Arith(Div, p, f, Float(p, g)).Success?
    ensures Arith(Mul, p, Arith(Div, p, f, Float(p, g)).value.f, Float(p, g)) == Success(Float(p, f))
  {
    var q := Arith(Div, p, f, Float(p, g)).value.f;
    assert q * g == f;
    assert Arith(Mul, p, q, Float(p, g)).value.f == q * g;
  }

  /** Between two floats of one type exactly one comparison holds, and `a < b` is `b > a`. */
  lemma Trichotomy(p: Precision, f: real, g: real)
    ensures Compare(Less, p, f, Float(p, g)).Success?
    ensures Compare(Equal, p, f, Float(p, g)).Success?
    ensures Compare(Greater, p, f, Float(p, g)).Success?
    ensures Compare(Less, p, f, Float(p, g)).value ==> !Compare(Equal, p, f, Float(p, g)).value
    ensures Compare(Less, p, f, Float(p, g)).value ==> !Compare(Greater, p, f, Float(p, g)).value
    ensures Compare(Equal, p, f, Float(p, g)).value ==> !Compare(Greater, p, f, Float(p, g)).value
    ensures Compare(Less, p, f, Float(p, g)).value || Compare(Equal, p, f, Float(p, g)).value
            || Compare(Greater, p, f, Float(p, g)).value
    ensures Compare(Less, p, f, Float(p, g)) == Compare(Greater, p, g, Float(p, f))
  {
  }
}
