/** The closed family of `Numeric` variants: `IntNumeric`, `FloatNumeric<T>`,
    `ComplexNumeric<T>` and `charNumeric<T>`, each with the template argument kept
    as a tag, together with the errors the classes throw. */
module Values {
  import opened Native

  /** The floating template argument: `float`, `double` or `long double`. */
  datatype Precision = Single | Double | Extended

  /** The character template argument: `char` (signed, 8 bits), `wchar_t` (signed,
      32 bits), `char16_t` and `char32_t` (unsigned, 16 and 32 bits). */
  datatype CharWidth = Narrow | Wide | Utf16 | Utf32

  /** One `Numeric` object. Payloads are exact: an `int`, a real for the floating
      value, a real pair for `std::complex<T>`, the code unit for a character. */
  datatype Numeric =
    | Int(i: int)
    | Float(p: Precision, f: real)
    | Complex(p: Precision, z: Cx)
    | Char(w: CharWidth, c: int)

  /** The dynamic type of a `Numeric` object, i.e. what `typeid` tells apart. */
  datatype Kind =
    | IntKind
    | FloatKind(p: Precision)
    | ComplexKind(p: Precision)
    | CharKind(w: CharWidth)

  function KindOf(n: Numeric): Kind {
    match n
    case Int(_) => IntKind
    case Float(p, _) => FloatKind(p)
    case Complex(p, _) => ComplexKind(p)
    case Char(w, _) => CharKind(w)
  }

  /** The code units a character type can hold. */
  predicate InCharRange(w: CharWidth, c: int) {
    match w
    case Narrow => -0x80 <= c < 0x80
    case Wide => InInt32(c)
    case Utf16 => 0 <= c < 0x1_0000
    case Utf32 => 0 <= c < Modulus32
  }

  /** A value an object of its class can actually hold. */
  predicate WellFormed(n: Numeric) {
    match n
    case Int(i) => InInt32(i)
    case Char(w, c) => InCharRange(w, c)
    case _ => true
  }

  /** `static_cast<int>(charValue)`, the code point every conversion of a character uses. */
  function CodePoint(c: int): (r: int)
    ensures InInt32(r)
    ensures (c - r) % Modulus32 == 0
    ensures InInt32(c) ==> r == c
  {
    ToInt32(c)
  }

  /** The real part of the value: what a conversion to a float or to an int reads. */
  function Re(n: Numeric): real {
    match n
    case Int(i) => i as real
    case Float(_, f) => f
    case Complex(_, z) => z.re
    case Char(_, c) => CodePoint(c) as real
  }

  /** The imaginary part, zero for the non-complex variants. */
  function Im(n: Numeric): real {
    match n
    case Complex(_, z) => z.im
    case _ => 0.0
  }

  /** The errors the classes throw as `std::runtime_error`. */
  datatype Error =
    | UnsupportedType
    | UnsupportedConversion
    | UnsupportedAddition
    | DivisionByZero
    | CharMultiply
    | CharDivide

  /** The `what()` text of each error. The errors a member operation raises itself
      name that operation at the head of their text; the conversion and factory
      errors start with "Unsupported " instead. */
  function Message(e: Error): (m: string)
    ensures (e == DivisionByZero || e == CharDivide) <==> "divideOperation: " <= m
    ensures e == CharMultiply <==> "multiplyOperation: " <= m
    ensures (e == UnsupportedType || e == UnsupportedConversion || e == UnsupportedAddition) <==> "Unsupported " <= m
  {
    var m := match e
      case UnsupportedType => "Unsupported " + "type"
      case UnsupportedConversion => "Unsupported " + "conversion"
      case UnsupportedAddition => "Unsupported " + "type for addition."
      case DivisionByZero => "divideOperation: " + "Division by zero is not allowed."
      case CharMultiply => "multiplyOperation: " + "Operation not supported for characters."
      case CharDivide => "divideOperation: " + "Operation not supported for characters.";
    FirstLetterDecides(m, "divideOperation: ");
    FirstLetterDecides(m, "multiplyOperation: ");
    FirstLetterDecides(m, "Unsupported ");
    m
  }

  /** Two texts whose first letters differ are no prefix of one another. */
  lemma FirstLetterDecides(m: string, p: string)
    requires |m| > 0 && |p| > 0
    ensures p <= m ==> p[0] == m[0]
  {
  }

  /** Every error has its own message, so a caller can tell them apart by the text. */
  lemma MessagesDistinct(e1: Error, e2: Error)
    ensures Message(e1) == Message(e2) ==> e1 == e2
  {
  }
}
