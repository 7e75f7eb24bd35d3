/** `charNumeric<T>`, Include/Numeric.hpp. Characters add and subtract only with a
    character of the same type, keeping the low seven bits of the result
    (`toascii`); they never multiply or divide. No class converts into a
    character, so every other right operand is refused. */
module CharNumeric {
  import opened Wrappers
  import opened Native
  import opened Values
  import opened Convert

  /** `a + b` or `a - b` on the promoted code units. The sum of two `char32_t` is
      taken modulo 2^32, which does not change its low seven bits, so the exact sum
      stands for it here. */
  function Combine(op: ArithOp, c: int, d: int): int
    requires op == Add || op == Sub
  {
    if op == Add then c + d else c - d
  }

  /** The only undefined case: a `wchar_t` sum or difference overflows `int`. */
  predicate Defined(op: ArithOp, w: CharWidth, c: int, b: Numeric) {
    (op == Add || op == Sub) && w == Wide && b.Char? && b.w == Wide ==> InInt32(Combine(op, c, b.c))
  }

  /** `sumOperation` and `subtractOperation`. */
  function SumOrSub(op: ArithOp, w: CharWidth, c: int, b: Numeric): (r: Result<Numeric, Error>)
    requires (op == Add || op == Sub) && WellFormed(b) && Defined(op, w, c, b)
    ensures r.Success? <==> b.Char? && b.w == w
    ensures r.Failure? ==> r.error == UnsupportedConversion
    ensures r.Success? ==> r.value.Char? && r.value.w == w && 0 <= r.value.c < 128
    ensures r.Success? ==> Congruent(Combine(op, c, b.c), r.value.c)
  {
    if b.Char? && b.w == w then Success(Char(w, ToAscii(Combine(op, c, b.c))))
    else Failure(ConvertTo(b, CharKind(w)).error)
  }

  /** `multiplyOperation` and `divideOperation` throw whatever the right operand is. */
  function MulOrDiv(op: ArithOp, b: Numeric): (r: Result<Numeric, Error>)
    requires op == Mul || op == Div
    ensures r.Failure?
    ensures op == Mul ==> r.error == CharMultiply
    ensures op == Div ==> r.error == CharDivide
  {
    Failure(if op == Mul then CharMultiply else CharDivide)
  }

  /** The comparisons, on code units, with a character of the same type only. */
  function Compare(op: CmpOp, w: CharWidth, c: int, b: Numeric): (r: Result<bool, Error>)
    requires WellFormed(b)
    ensures r.Success? <==> b.Char? && b.w == w
    ensures r.Failure? ==> r.error == UnsupportedConversion
    ensures r.Success? && op == Less ==> (r.value <==> c < b.c)
    ensures r.Success? && op == Greater ==> (r.value <==> c > b.c)
    ensures r.Success? && op == Equal ==> (r.value <==> c == b.c)
  {
    if b.Char? && b.w == w then Success(IntCmp(op, c, b.c))
    else Failure(ConvertTo(b, CharKind(w)).error)
  }

  /** Between characters of one type exactly one comparison holds, `a < b` is
      `b > a`, and equality is symmetric. */
  lemma Trichotomy(w: CharWidth, c: int, d: int)
    requires InCharRange(w, c) && InCharRange(w, d)
    ensures Compare(Less, w, c, Char(w, d)).Success?
    ensures Compare(Less, w, c, Char(w, d)).value
            || Compare(Equal, w, c, Char(w, d)).value
            || Compare(Greater, w, c, Char(w, d)).value
    ensures !(Compare(Less, w, c, Char(w, d)).value && Compare(Greater, w, c, Char(w, d)).value)
    ensures Compare(Equal, w, c, Char(w, d)).value ==>
              !Compare(Less, w, c, Char(w, d)).value && !Compare(Greater, w, c, Char(w, d)).value
    ensures Compare(Less, w, c, Char(w, d)) == Compare(Greater, w, d, Char(w, c))
    ensures Compare(Equal, w, c, Char(w, d)) == Compare(Equal, w, d, Char(w, c))
  {
  }

  /** Subtracting what was added restores the character's 7-bit code. */
  lemma SumThenSubtract(w: CharWidth, c: int, d: int)
    requires InCharRange(w, c) && InCharRange(w, d) && Defined(Add, w, c, Char(w, d))
    requires w == Wide ==> InInt32(ToAscii(c + d) - d)
    ensures SumOrSub(Add, w, c, Char(w, d)).Success?
    ensures SumOrSub(Sub, w, SumOrSub(Add, w, c, Char(w, d)).value.c, Char(w, d)) == Success(Char(w, ToAscii(c)))
  {
    var s := ToAscii(c + d);
    assert SumOrSub(Add, w, c, Char(w, d)) == Success(Char(w, s));
    assert SumOrSub(Sub, w, s, Char(w, d)) == Success(Char(w, ToAscii(s - d)));
    AsciiCancel(c, d);
  }

  lemma AsciiCancel(c: int, d: int)
    ensures ToAscii(ToAscii(c + d) - d) == ToAscii(c)
  {
    var s := ToAscii(c + d);
    var t := ToAscii(s - d);
    CongruentSum(c + d, s, d, d);
    CongruentTrans(c, s - d, t);
    SevenBitUnique(c, t, ToAscii(c));
  }

  /** `std::string(1, c)` of a `char`: one byte holding the character's bit pattern. */
  function NarrowToString(c: int): (s: string)
    requires InCharRange(Narrow, c)
    ensures |s| == 1 && 0 <= s[0] as int < 256
    ensures (s[0] as int - c) % 256 == 0
  {
    [(if c < 0 then c + 256 else c) as char]
  }

  /** The byte read back as a signed `char`. */
  function SignedByte(b: int): int {
    if b >= 128 then b - 256 else b
  }

  lemma NarrowToStringRoundTrip(c: int)
    requires InCharRange(Narrow, c)
    ensures SignedByte(NarrowToString(c)[0] as int) == c
  {
  }
}
