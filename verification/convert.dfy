/** `convertTo(typeid(...))` of the four classes. Every class offers the same
    targets, `FloatNumeric<float|double>`, `ComplexNumeric<float|double>` and
    `IntNumeric`, except that a character has no complex target; no class offers
    a `long double` or a character target. */
module Convert {
  import opened Wrappers
  import opened Native
  import opened Values

  /** The conversion table, read off the chains of `typeid` tests. */
  predicate Convertible(from: Kind, to: Kind) {
    match to
    case IntKind => true
    case FloatKind(p) => p != Extended
    case ComplexKind(p) => p != Extended && !from.CharKind?
    case CharKind(_) => false
  }

  /** What a conversion needs to be defined: `static_cast<int>` of a floating
      value outside the `int` range is undefined behaviour. */
  predicate ConversionDefined(n: Numeric, to: Kind) {
    WellFormed(n) && (to == IntKind ==> InInt32(Trunc(Re(n))))
  }

  /** An integer read as a real truncates back to itself. */
  lemma TruncOfInt(i: int)
    ensures Trunc(i as real) == i
  {
  }

  /** Conversions of an `IntNumeric`, src/Numeric.cpp `IntNumeric::convertTo`. */
  function IntConvertTo(i: int, to: Kind): Result<Numeric, Error> {
    match to
    case FloatKind(p) =>
      if p == Single || p == Double then Success(Float(p, i as real)) else Failure(UnsupportedConversion)
    case ComplexKind(p) =>
      if p == Single || p == Double then Success(Complex(p, Cx(i as real, 0.0))) else Failure(UnsupportedConversion)
    case IntKind => Success(Int(i))
    case CharKind(_) => Failure(UnsupportedConversion)
  }

  /** Conversions of a `FloatNumeric<T>`. */
  function FloatConvertTo(f: real, to: Kind): Result<Numeric, Error> {
    match to
    case FloatKind(p) =>
      if p == Single || p == Double then Success(Float(p, f)) else Failure(UnsupportedConversion)
    case ComplexKind(p) =>
      if p == Single || p == Double then Success(Complex(p, Cx(f, 0.0))) else Failure(UnsupportedConversion)
    case IntKind => Success(Int(Trunc(f)))
    case CharKind(_) => Failure(UnsupportedConversion)
  }

  /** Conversions of a `ComplexNumeric<T>`: only the real part survives a
      conversion to a float or to an int. */
  function ComplexConvertTo(z: Cx, to: Kind): Result<Numeric, Error> {
    match to
    case FloatKind(p) =>
      if p == Single || p == Double then Success(Float(p, z.re)) else Failure(UnsupportedConversion)
    case ComplexKind(p) =>
      if p == Single || p == Double then Success(Complex(p, Cx(z.re, z.im))) else Failure(UnsupportedConversion)
    case IntKind => Success(Int(Trunc(z.re)))
    case CharKind(_) => Failure(UnsupportedConversion)
  }

  /** Conversions of a `charNumeric<T>`, all through `static_cast<int>`. */
  function CharConvertTo(c: int, to: Kind): Result<Numeric, Error> {
    match to
    case FloatKind(p) =>
      if p == Single || p == Double then Success(Float(p, CodePoint(c) as real)) else Failure(UnsupportedConversion)
    case IntKind => Success(Int(CodePoint(c)))
    case _ => Failure(UnsupportedConversion)
  }

  /** The virtual `convertTo`: it succeeds exactly on the listed targets, yields an
      object of the requested type, truncates toward zero into an `int`, and
      otherwise carries the real part (and, into a complex, the imaginary part). */
  function ConvertTo(n: Numeric, to: Kind): (r: Result<Numeric, Error>)
    requires ConversionDefined(n, to)
    ensures r.Success? <==> Convertible(KindOf(n), to)
    ensures r.Failure? ==> r.error == UnsupportedConversion
    ensures r.Success? ==> KindOf(r.value) == to && WellFormed(r.value)
    ensures r.Success? && to == IntKind ==> r.value == Int(Trunc(Re(n)))
    ensures r.Success? && to != IntKind ==> Re(r.value) == Re(n)
    ensures r.Success? && to.ComplexKind? ==> Im(r.value) == Im(n)
  {
    match n
    case Int(i) => TruncOfInt(i); IntConvertTo(i, to)
    case Float(_, f) => FloatConvertTo(f, to)
    case Complex(_, z) => ComplexConvertTo(z, to)
    case Char(_, c) => TruncOfInt(CodePoint(c)); CharConvertTo(c, to)
  }

  /** Converting an object to its own listed type gives it back unchanged. */
  lemma ConvertToOwnKind(n: Numeric)
    requires WellFormed(n) && Convertible(KindOf(n), KindOf(n))
    ensures ConvertTo(n, KindOf(n)) == Success(n)
  {
    if n.Int? {
      TruncOfInt(n.i);
    }
  }

  /** An `int` survives the trip through either floating type. */
  lemma IntThroughFloat(i: int, p: Precision)
    requires InInt32(i) && p != Extended
    ensures ConvertTo(Int(i), FloatKind(p)).Success?
    ensures ConvertTo(ConvertTo(Int(i), FloatKind(p)).value, IntKind) == Success(Int(i))
  {
    TruncOfInt(i);
  }

  /** A float survives the trip through a complex. */
  lemma FloatThroughComplex(p: Precision, f: real, q: Precision)
    requires p != Extended && q != Extended
    ensures ConvertTo(Float(p, f), ComplexKind(q)) == Success(Complex(q, Cx(f, 0.0)))
    ensures ConvertTo(Complex(q, Cx(f, 0.0)), FloatKind(p)) == Success(Float(p, f))
  {
  }

  /** The trip from a complex through a float loses exactly the imaginary part. */
  lemma ComplexThroughFloat(p: Precision, z: Cx, q: Precision)
    requires p != Extended && q != Extended
    ensures ConvertTo(Complex(p, z), FloatKind(q)).Success?
    ensures ConvertTo(ConvertTo(Complex(p, z), FloatKind(q)).value, ComplexKind(p)) == Success(Complex(p, Cx(z.re, 0.0)))
  {
  }

  /** No class converts into a character, so the character operations never accept
      an operand of another type. */
  lemma NothingBecomesChar(n: Numeric, w: CharWidth)
    requires WellFormed(n)
    ensures ConvertTo(n, CharKind(w)) == Failure(UnsupportedConversion)
  {
  }
}
