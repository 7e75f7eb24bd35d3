/** Concrete calls through the factory and the dispatcher, one per documented
    behaviour of the `Numeric` family. */
module Scenarios {
  import opened Wrappers
  import opened Native
  import opened Values
  import opened Dispatch
  import Factory
  import IntNumeric

  lemma PromotingSums()
    ensures Arith(Add, Int(3), Float(Double, 0.5)) == Success(Float(Double, 3.5))
    ensures Arith(Add, Int(5), Complex(Double, Cx(1.0, 2.0))) == Success(Complex(Double, Cx(6.0, 2.0)))
    ensures Arith(Add, Float(Double, 0.5), Complex(Double, Cx(1.0, 2.0))) == Success(Complex(Double, Cx(1.5, 2.0)))
    ensures Arith(Add, Float(Double, 0.5), Complex(Single, Cx(1.0, 2.0))) == Success(Float(Double, 1.5))
  {
  }

  lemma DivisionsByZero()
    ensures Arith(Div, Int(10), Int(0)) == Failure(DivisionByZero)
    ensures Arith(Div, Complex(Double, Cx(1.0, 1.0)), Complex(Double, Cx(0.0, 0.0))) == Failure(DivisionByZero)
    ensures Arith(Div, Float(Single, 1.0), Int(0)) == Failure(DivisionByZero)
  {
  }

  /** `'a' * 'b'` is refused; `'a' + 'b'` is 195, whose low seven bits are 67, `'C'`. */
  lemma Characters()
    ensures Arith(Mul, Char(Narrow, 97), Char(Narrow, 98)) == Failure(CharMultiply)
    ensures Arith(Add, Char(Narrow, 97), Char(Narrow, 98)) == Success(Char(Narrow, 67))
    ensures Arith(Add, Char(Narrow, 97), Char(Wide, 98)) == Failure(UnsupportedConversion)
  {
    assert ToAscii(195) == 67;
  }

  lemma ComplexOrder()
    ensures Compare(Less, Complex(Double, Cx(1.0, 5.0)), Complex(Double, Cx(1.0, 9.0))) == Success(true)
    ensures Compare(Less, Complex(Double, Cx(2.0, 0.0)), Complex(Double, Cx(1.0, 9.0))) == Success(false)
  {
  }

  /** Mixed `int`/float comparisons depend on which side holds the `int`: from the
      `int` side `1` and `1.5` are equal, from the float side `1.5` is greater. */
  lemma MixedComparisons()
    ensures Compare(Less, Int(1), Float(Double, 1.5)) == Success(false)
    ensures Compare(Greater, Int(1), Float(Double, 1.5)) == Success(false)
    ensures Compare(Equal, Int(1), Float(Double, 1.5)) == Success(true)
    ensures Compare(Less, Float(Double, 1.5), Int(1)) == Success(false)
    ensures Compare(Greater, Float(Double, 1.5), Int(1)) == Success(true)
    ensures Compare(Equal, Float(Double, 1.5), Int(1)) == Success(false)
  {
    assert Trunc(1.5) == 1;
  }

  /** Mixed comparisons are no ordering a sort could rely on: `1` is neither less nor
      greater than `1.2` and `1.8` from the `int` side, yet `1.2 < 1.8`, so being
      incomparable is not transitive. */
  lemma IncomparableNotTransitive()
    ensures Compare(Less, Int(1), Float(Double, 1.2)) == Success(false)
    ensures Compare(Greater, Int(1), Float(Double, 1.2)) == Success(false)
    ensures Compare(Less, Int(1), Float(Double, 1.8)) == Success(false)
    ensures Compare(Greater, Int(1), Float(Double, 1.8)) == Success(false)
    ensures Compare(Less, Float(Double, 1.2), Float(Double, 1.8)) == Success(true)
  {
    assert Trunc(1.2) == 1;
    assert Trunc(1.8) == 1;
  }

  /** `create(U'\x80000000')` wraps: the `char32_t` code 2^31 becomes the `int` `INT_MIN`. */
  lemma WideCharacterWraps()
    ensures Factory.Create(Factory.Character(Utf32, 0x8000_0000)) == Success(Int(IntMin))
  {
  }

  lemma RenderCreatedInt()
    ensures Factory.Create(Factory.Integral(42)) == Success(Int(42))
    ensures IntNumeric.ToString(42) == "42"
  {
  }
}
