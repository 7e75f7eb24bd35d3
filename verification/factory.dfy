/** `Numeric::create<T>(value)`, Include/Numeric.hpp. The `if constexpr` chain tests
    `std::is_integral_v<T>` first, and the character types are integral, so a
    character argument becomes an `IntNumeric`; the `charNumeric` branch after it
    is never taken. */
module Factory {
  import opened Wrappers
  import opened Native
  import opened Values

  /** A C++ argument of `create`, by the category of its type `T`. */
  datatype Argument =
    | Integral(v: int)                  // bool, short, int, long, unsigned ..., any width
    | Character(w: CharWidth, c: int)   // char, wchar_t, char16_t, char32_t
    | Floating(p: Precision, x: real)   // float, double, long double
    | ComplexArg(p: Precision, z: Cx)   // std::complex<float|double|long double>
    | OtherType                         // anything else

  /** The argument is a value of its type. */
  predicate ValidArgument(a: Argument) {
    a.Character? ==> InCharRange(a.w, a.c)
  }

  /** `create`: integral arguments (characters included) pass through the
      `IntNumeric(int)` constructor, floating ones keep their type, complex ones are
      accepted for `float` and `double` only, and the rest is refused. */
  function Create(a: Argument): (r: Result<Numeric, Error>)
    requires ValidArgument(a)
    ensures r.Success? <==> !(a.OtherType? || (a.ComplexArg? && a.p == Extended))
    ensures r.Failure? ==> r.error == UnsupportedType
    ensures r.Success? ==> WellFormed(r.value) && !r.value.Char?
    ensures a.Integral? ==> r.Success? && r.value.Int? && (a.v - r.value.i) % Modulus32 == 0
    ensures a.Integral? && InInt32(a.v) ==> r == Success(Int(a.v))
    ensures a.Character? ==> r == Success(Int(CodePoint(a.c)))
    ensures a.Floating? ==> r == Success(Float(a.p, a.x))
    ensures a.ComplexArg? && r.Success? ==> r.value == Complex(a.p, a.z)
  {
    match a
    case Integral(v) => Success(Int(ToInt32(v)))
    case Character(_, c) => Success(Int(ToInt32(c)))
    case Floating(p, x) => Success(Float(p, x))
    case ComplexArg(p, z) =>
      if p == Single || p == Double then Success(Complex(p, z))
      else assert p == Extended; Failure(UnsupportedType)
    case OtherType => Failure(UnsupportedType)
  }

  /** `create('A')` is the `IntNumeric` 65, not a `charNumeric`: every character of a
      type other than `char32_t`, and every `char32_t` below 2^31, keeps its code. */
  lemma CharacterBecomesInt(w: CharWidth, c: int)
    requires InCharRange(w, c) && (w == Utf32 ==> c <= IntMax)
    ensures Create(Character(w, c)) == Success(Int(c))
  {
  }

  /** The value survives creation: reading the created object back gives the argument
      for floating and complex arguments and for integral arguments that fit `int`. */
  lemma CreatePreservesValue(a: Argument)
    requires ValidArgument(a) && Create(a).Success?
    requires a.Integral? ==> InInt32(a.v)
    requires a.Character? ==> InInt32(a.c)
    ensures a.Integral? ==> Re(Create(a).value) == a.v as real
    ensures a.Character? ==> Re(Create(a).value) == a.c as real
    ensures a.Floating? ==> Re(Create(a).value) == a.x
    ensures a.ComplexArg? ==> Re(Create(a).value) == a.z.re && Im(Create(a).value) == a.z.im
  {
  }
}
