/** The type table of the binary operations: for each (operation, left type, right
    type) the type of the result or the error thrown, read at the level of types
    only. The left operand decides, except that `IntNumeric` sums take the right
    operand's floating or complex type and a `FloatNumeric<T>` plus a
    `ComplexNumeric<T>` is complex. A division can still fail on a zero divisor;
    that depends on values and is not part of the table. */
module Promotion {
  import opened Native
  import opened Values

  datatype Outcome = Yields(kind: Kind) | Fails(error: Error)

  function ArithCell(op: ArithOp, left: Kind, right: Kind): Outcome {
    match left
    case IntKind =>
      if op != Add then Yields(IntKind)
      else if right == IntKind then Yields(IntKind)
      else if (right.FloatKind? || right.ComplexKind?) && right.p != Extended then Yields(right)
      else Fails(UnsupportedAddition)
    case FloatKind(p) =>
      if op == Add && right == ComplexKind(p) then Yields(right)
      else if right == left || p != Extended then Yields(left)
      else Fails(UnsupportedConversion)
    case ComplexKind(p) =>
      if right == left || (p != Extended && !right.CharKind?) then Yields(left)
      else Fails(UnsupportedConversion)
    case CharKind(_) =>
      if op == Mul then Fails(CharMultiply)
      else if op == Div then Fails(CharDivide)
      else if right == left then Yields(left)
      else Fails(UnsupportedConversion)
  }

  /** Whether a comparison between the two types is answered rather than thrown. */
  predicate Comparable(left: Kind, right: Kind) {
    match left
    case IntKind => true
    case FloatKind(p) => right == left || p != Extended
    case ComplexKind(p) => right == left || (p != Extended && !right.CharKind?)
    case CharKind(_) => right == left
  }

  /** Apart from sums, the result has the left operand's type. */
  lemma LeftOperandDecides(op: ArithOp, left: Kind, right: Kind)
    requires op != Add && ArithCell(op, left, right).Yields?
    ensures ArithCell(op, left, right).kind == left
  {
  }

  /** The two ways a sum leaves the left operand's type. */
  lemma SumPromotions(left: Kind, right: Kind)
    requires ArithCell(Add, left, right).Yields? && ArithCell(Add, left, right).kind != left
    ensures (left == IntKind && ArithCell(Add, left, right).kind == right)
            || (left.FloatKind? && ArithCell(Add, left, right).kind == ComplexKind(left.p))
  {
  }

  /** Only the `int` sum raises "Unsupported type for addition.", exactly the
      character products and quotients raise the character errors, and every other
      refusal is a missing conversion. */
  lemma FailureReasons(op: ArithOp, left: Kind, right: Kind)
    requires ArithCell(op, left, right).Fails?
    ensures ArithCell(op, left, right).error == UnsupportedAddition <==> op == Add && left == IntKind
    ensures ArithCell(op, left, right).error == CharMultiply <==> op == Mul && left.CharKind?
    ensures ArithCell(op, left, right).error == CharDivide <==> op == Div && left.CharKind?
    ensures !(op == Add && left == IntKind) && !(left.CharKind? && (op == Mul || op == Div)) ==>
              ArithCell(op, left, right).error == UnsupportedConversion
  {
  }

  /** The table is not symmetric: an `int` plus a `double` is a `double`, the
      `int` minus the `double` is an `int`; an `int` plus a character is refused,
      the `int` minus the character is an `int`. */
  lemma Asymmetry()
    ensures ArithCell(Add, IntKind, FloatKind(Double)) == Yields(FloatKind(Double))
    ensures ArithCell(Sub, IntKind, FloatKind(Double)) == Yields(IntKind)
    ensures ArithCell(Add, IntKind, CharKind(Narrow)) == Fails(UnsupportedAddition)
    ensures ArithCell(Sub, IntKind, CharKind(Narrow)) == Yields(IntKind)
    ensures ArithCell(Sub, CharKind(Narrow), IntKind) == Fails(UnsupportedConversion)
    ensures ArithCell(Add, FloatKind(Single), ComplexKind(Single)) == Yields(ComplexKind(Single))
    ensures ArithCell(Add, FloatKind(Single), ComplexKind(Double)) == Yields(FloatKind(Single))
  {
  }
}
