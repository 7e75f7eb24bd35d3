# Generic numeric data type: a Dafny model

This project models the `Numeric` class family of the Generic-Numeric-Data-Type
repository and proves properties of it. `Numeric` is an abstract base with four
kinds of concrete class:

- `IntNumeric`, holding an `int`.
- `FloatNumeric<T>`, with `T` = `float`, `double` or `long double`.
- `ComplexNumeric<T>`, holding a `std::complex<T>`.
- `charNumeric<T>`, with `T` = `char`, `wchar_t`, `char16_t` or `char32_t`.

The modelled operations are the factory `Numeric::create`, every class's
`convertTo`, the four arithmetic operations, the three comparisons and `toString`.

Each object is a value of the datatype `Values.Numeric`. It has one constructor
per class, and the template argument is kept as a tag: `Precision` for floats,
`CharWidth` for characters. Payloads are exact: an `int` for `IntNumeric`, a
`real` for a float, a pair of reals for a complex, and the code unit for a
character. The C++ `dynamic_cast` / `typeid` / `convertTo` fallbacks become
pattern matching. A thrown `std::runtime_error` becomes a `Failure` carrying
`Values.Error`, whose `Message` is the exact `what()` text.

Modules, one per concern:

- `Native`: the C++ built-ins the classes are made of:
  - the `int` range and the modular conversion into it;
  - `static_cast<int>` of a float, which truncates toward zero;
  - `/` on `int`, which truncates toward zero, unlike Dafny's Euclidean `/`;
  - POSIX `toascii`, proved equal to the low seven bits;
  - `std::complex` arithmetic.
- `Values`: the variants, their types (`Kind`), well-formedness, the errors.
- `Convert`: `convertTo` of the four classes, proved to agree with an
  independent conversion table.
- `IntNumeric`, `FloatNumeric`, `ComplexNumeric`, `CharNumeric`: the member
  functions of each class.
- `Promotion`: the type table of the binary operations. For each (operation,
  left type, right type) it gives the result type or the error.
- `Dispatch`: the virtual call `a.op(b)`, proved to follow that table. A
  division the table allows fails exactly when the converted divisor is zero.
- `Factory`: `Numeric::create`.
- `Scenarios`: concrete calls showing documented behaviours.

How the code behaves:

- **The left operand decides.** The right operand is converted to the left
  operand's type. There are only two exceptions:
  - `IntNumeric::sumOperation` takes the type of a `float`/`double` operand or
    of a `std::complex<float|double>` operand.
  - `FloatNumeric<T>` plus `ComplexNumeric<T>` is complex.

  So promotion is not symmetric. `int + double` is a `double`, but
  `int - double` is an `int`, and `int + char` is refused while `int - char`
  is an `int`.
- **No conversion yields a character.** Every character sum, difference or
  comparison with anything but a character of the same type fails with
  "Unsupported conversion". Comparisons can therefore fail. So can every
  operation of a `long double` float against a different type, except a sum
  with a `ComplexNumeric<long double>`.
- **`toascii` keeps seven bits.** A character sum or difference keeps the low
  seven bits, so the result is in [0, 127] and congruent to the exact result
  modulo 128; codes 128 to 255 never result.
- **`create` never builds a `charNumeric`.** `std::is_integral_v` is tested
  first, and character types are integral, so `create('A')` yields the
  `IntNumeric` 65. The comment at src/main.cpp:13 expects a `charNumeric<char>`.
- **`long double` is accepted.** The floating branch of `create` accepts it, but
  no `convertTo` targets it. `std::complex<long double>` is refused with
  "Unsupported type".

Undefined behaviour is excluded by `requires` clauses, named `Defined`,
`ConversionDefined` and `CompareDefined`. The excluded cases are:

- signed `int` overflow;
- `INT_MIN / -1`;
- a float outside the `int` range converted to `int`;
- a `wchar_t` sum that overflows.

`char` is taken to be signed, as on x86, and `wchar_t` a signed 32-bit type,
as on Linux.

## Model

| member | source | states |
|---|---|---|
| `Native.ToInt32` | Include/Numeric.hpp:433 | converting a wider or unsigned integer to `int` gives an `int` congruent to it modulo 2^32, equal to it when it fits |
| `Native.Trunc` | Include/Numeric.hpp:125 | `static_cast<int>` of a float truncates toward zero: the result lies within 1 of the argument, on the zero side |
| `Native.TruncDiv` | src/Numeric.cpp:125 | `int` division: the remainder is smaller than the divisor in magnitude and has the dividend's sign, i.e. the quotient rounds toward zero |
| `Native.LowBits` | Include/Numeric.hpp:442 | the low `k` bits of a two's-complement integer lie in [0, 2^k) and differ from it by a multiple of 2^k |
| `Native.ToAscii` | Include/Numeric.hpp:442 | `toascii` gives a code in [0, 127] congruent to its argument modulo 128 |
| `Native.ToAsciiIsLowBits` | Include/Numeric.hpp:442 | `toascii(c)` equals the low seven bits of `c`, i.e. `c & 0x7f` |
| `Native.CxDiv` | Include/Numeric.hpp:336 | complex division: the quotient times the divisor is the dividend, for every non-zero divisor |
| `Native.RealOp` | Include/Numeric.hpp:185 | a floating quotient times the divisor is the dividend |
| `Values.Message` | src/Numeric.cpp:83 | the `what()` texts of the throws (also src/Numeric.cpp:122 and Include/Numeric.hpp:59, 127, 182, 468, 472): the division and character errors name `divideOperation` or `multiplyOperation` at their head, exactly when raised by that operation; the type, conversion and addition errors start with "Unsupported " |
| `Values.MessagesDistinct` | src/Numeric.cpp:83 | no two errors share a `what()` text, so a caller can tell them apart by the message alone |
| `Values.CodePoint` | Include/Numeric.hpp:433 | `static_cast<int>(charValue)` is an `int`, congruent to the code unit modulo 2^32, so a `char32_t` at or above 2^31 wraps to a negative `int`, and equal to the code unit whenever that fits in `int` |
| `Convert.ConvertTo` | src/Numeric.cpp:47-61 | the four `convertTo` bodies (also Include/Numeric.hpp:115-129, 264-278 and 427-437): `convertTo` succeeds exactly on the targets of the conversion table, otherwise fails with "Unsupported conversion"; it yields the requested type, truncates toward zero into `int`, keeps the real part, and into a complex also the imaginary part |
| `Convert.ConvertToOwnKind` | Include/Numeric.hpp:115-129 | converting an object to its own listed type returns it unchanged |
| `Convert.IntThroughFloat` | src/Numeric.cpp:48-51 | an `int` converted to `float`/`double` and back is the same `int` (exact for `double`; see "## Left out" for `float`) |
| `Convert.FloatThroughComplex` | Include/Numeric.hpp:120-123 | a float becomes `(f, 0)` as a complex, and that complex converts back to the same float |
| `Convert.ComplexThroughFloat` | Include/Numeric.hpp:265-268 | a complex converted to a float and back loses exactly its imaginary part |
| `Convert.NothingBecomesChar` | Include/Numeric.hpp:427-437 | no object converts to a character type; the attempt fails with "Unsupported conversion" |
| `IntNumeric.Operand` | src/Numeric.cpp:94-96 | the right operand of an `int` operation is the truncation toward zero of its real part (a character's code point) |
| `IntNumeric.Sum` | src/Numeric.cpp:63-88 | `int + int` is an `int`; `int` plus a `float`/`double` or a complex of those takes the right operand's type with `x` added to the real part and the imaginary part kept; anything else fails with "Unsupported type for addition." |
| `IntNumeric.Arith` | src/Numeric.cpp:89-139 | subtract, multiply and divide give an `int` computed against the truncated right operand; division fails with the division-by-zero error exactly when that operand is 0 and otherwise rounds toward zero |
| `IntNumeric.Compare` | src/Numeric.cpp:141-175 | comparisons compare `x` with the truncated right operand |
| `IntNumeric.Trichotomy` | src/Numeric.cpp:141-175 | between two `IntNumeric`s exactly one of less, equal, greater holds |
| `IntNumeric.Mirror` | src/Numeric.cpp:141-163 | between two `IntNumeric`s `a < b` is `b > a` and equality is symmetric |
| `IntNumeric.SumThenSubtract` | src/Numeric.cpp:63-101 | subtracting an `int` after adding it gives the original `int` back |
| `IntNumeric.Digits` | src/Numeric.cpp:178 | a natural number is rendered as decimal digits with no leading zero |
| `IntNumeric.ToString` | src/Numeric.cpp:176-179 | `toString` starts with `-` exactly for negatives, followed by decimal digits without a leading zero |
| `IntNumeric.DigitsRoundTrip` | src/Numeric.cpp:178 | the rendered digits read back as the number |
| `IntNumeric.ToStringRoundTrip` | src/Numeric.cpp:176-179 | the text `toString` produces reads back as the same `int` |
| `IntNumeric.ToStringInjective` | src/Numeric.cpp:176-179 | distinct `int`s render to distinct text |
| `FloatNumeric.Operand` | Include/Numeric.hpp:153-157 | a right operand is usable by `FloatNumeric<T>` exactly when it is a `T` float or converts to one; its value is then its real part |
| `FloatNumeric.Sum` | Include/Numeric.hpp:130-148 | a float plus a complex of the same `T` is that complex with the float added to the real part; otherwise the sum is a `T` float of `f` plus the operand's real part; a `long double` with an unconvertible operand fails with "Unsupported conversion" |
| `FloatNumeric.Arith` | Include/Numeric.hpp:149-199 | subtract, multiply and divide stay in `FloatNumeric<T>`; a failed conversion comes first, then division fails exactly on a zero converted divisor; the difference, product and quotient relate to the operands as arithmetic requires |
| `FloatNumeric.Compare` | Include/Numeric.hpp:201-235 | comparisons compare `f` with the operand's real part, and fail exactly when the operand cannot be converted |
| `FloatNumeric.SumThenSubtract` | Include/Numeric.hpp:130-161 | subtracting a float after adding it gives the original back |
| `FloatNumeric.DivideThenMultiply` | Include/Numeric.hpp:163-199 | multiplying a quotient by the divisor gives the dividend back |
| `FloatNumeric.Trichotomy` | Include/Numeric.hpp:201-235 | between floats of one type exactly one comparison holds, and `a < b` is `b > a` |
| `ComplexNumeric.Operand` | Include/Numeric.hpp:285-290 | a right operand is usable by `ComplexNumeric<T>` exactly when it is a `T` complex or converts to one (never a character); its value is then (real part, imaginary part) |
| `ComplexNumeric.Arith` | Include/Numeric.hpp:280-352 | the four operations stay in `ComplexNumeric<T>`; division fails exactly when the converted divisor is 0 + 0i; sum, difference, product and quotient satisfy the complex field laws against the converted operand |
| `ComplexNumeric.Compare` | Include/Numeric.hpp:354-400 | less/greater are lexicographic on (real, imaginary); equal is componentwise |
| `ComplexNumeric.StrictTotalOrder` | Include/Numeric.hpp:354-400 | the complex less-than is irreflexive, transitive and total; greater-than is its mirror and equal is value equality |
| `ComplexNumeric.SumThenSubtract` | Include/Numeric.hpp:280-310 | subtracting a complex after adding it gives the original back |
| `ComplexNumeric.DivideThenMultiply` | Include/Numeric.hpp:312-352 | multiplying a complex quotient by a non-zero divisor gives the dividend back |
| `CharNumeric.SumOrSub` | Include/Numeric.hpp:439-465 | a character plus or minus a character of the same type is a character of that type with a code in [0, 127] congruent to the exact result modulo 128; any other operand fails with "Unsupported conversion" |
| `CharNumeric.MulOrDiv` | Include/Numeric.hpp:467-473 | a character never multiplies or divides, whatever the operand |
| `CharNumeric.Compare` | Include/Numeric.hpp:475-509 | characters compare by code unit with a character of the same type, and fail with "Unsupported conversion" otherwise |
| `CharNumeric.Trichotomy` | Include/Numeric.hpp:475-509 | between characters of one type exactly one of less, equal, greater holds, `a < b` is `b > a`, and equality is symmetric |
| `CharNumeric.AsciiCancel` | Include/Numeric.hpp:442-461 | `toascii(toascii(c + d) - d)` is `toascii(c)` |
| `CharNumeric.SumThenSubtract` | Include/Numeric.hpp:439-465 | subtracting a character after adding it restores the 7-bit code of the original |
| `CharNumeric.NarrowToString` | Include/Numeric.hpp:511-513 | a `char` renders as a one-byte string holding its bit pattern |
| `CharNumeric.NarrowToStringRoundTrip` | Include/Numeric.hpp:511-513 | that byte read as a signed `char` is the character |
| `Promotion.LeftOperandDecides` | src/Numeric.cpp:89-97 | apart from sums, every result has the left operand's type |
| `Promotion.SumPromotions` | Include/Numeric.hpp:134-138 | a sum leaves the left operand's type only from `int` to the right operand's type, or from a float to the complex of its precision |
| `Promotion.FailureReasons` | src/Numeric.cpp:81-84 | a refusal is "Unsupported type for addition." exactly for an `int` sum, the matching character error exactly for a character product or quotient, and "Unsupported conversion" in every other case |
| `Promotion.Asymmetry` | src/Numeric.cpp:63-97 | the type table is not symmetric: `int + double` is a `double` but `int - double` an `int`; `int + char` fails but `int - char` is an `int` |
| `Dispatch.Arith` | Include/Numeric.hpp:65-68 | the result or error of every arithmetic call is the one the type table gives for its operand types, except that a division fails with the division-by-zero error exactly when the converted divisor is zero; results are well-formed |
| `Dispatch.Compare` | Include/Numeric.hpp:69-71 | a comparison is answered exactly when the table says the two types compare, and otherwise fails with "Unsupported conversion" |
| `Dispatch.MixedEqualityAsymmetric` | src/Numeric.cpp:165-175 | `Int(3) == Float(3.5)` is true but `Float(3.5) == Int(3)` is false |
| `Dispatch.IntDivideBySmallFloat` | src/Numeric.cpp:126-133 | an `int` divided by any float strictly between -1 and 1 fails with the division-by-zero error |
| `Dispatch.IntMinusFloat` | src/Numeric.cpp:89-101 | an `int` minus a float is an `int`, the float truncated toward zero |
| `Dispatch.IntWithChar` | src/Numeric.cpp:81-97 | an `int` plus a character fails, while an `int` minus a character subtracts its code point |
| `Dispatch.CharNeverMultiplies` | Include/Numeric.hpp:467-473 | a character times or divided by anything fails with the character error |
| `Factory.Create` | Include/Numeric.hpp:48-61 | `create` turns every integral argument, characters included, into an `IntNumeric` (modulo 2^32); floats keep their type and value; complexes of `float`/`double` keep theirs; everything else fails with "Unsupported type"; it never yields a `charNumeric` |
| `Factory.CharacterBecomesInt` | Include/Numeric.hpp:50-57 | `create` of a character gives the `IntNumeric` of its code, not a `charNumeric` |
| `Factory.CreatePreservesValue` | Include/Numeric.hpp:50-55 | the created object holds the argument's value: always for floating and complex arguments, and for integral and character arguments that fit in `int` |
| `Scenarios.Characters` | Include/Numeric.hpp:442 | `'a' * 'b'` fails; `'a' + 'b'` is `'C'` (195 keeps its low seven bits, 67); a `char` plus a `wchar_t` fails |
| `Scenarios.PromotingSums` | src/Numeric.cpp:72-80 | `3 + 0.5` is the `double` 3.5; `5 + (1, 2)` is the complex (6, 2); `0.5 + (1, 2)` is complex for the same precision but a `double` 1.5 for a `float` complex |
| `Scenarios.DivisionsByZero` | src/Numeric.cpp:121-122 | `10 / 0`, a complex divided by 0 + 0i and a `float` divided by the `int` 0 all fail with the division-by-zero error |
| `Scenarios.ComplexOrder` | Include/Numeric.hpp:354-370 | (1, 5) < (1, 9) because the real parts tie, and (2, 0) < (1, 9) is false because the real part decides first |
| `Scenarios.MixedComparisons` | Include/Numeric.hpp:213-222 | from the `int` side `1` and `1.5` are equal and neither is less or greater; from the float side `1.5` is greater than `1` and not equal to it |
| `Scenarios.IncomparableNotTransitive` | src/Numeric.cpp:141-163 | from the `int` side `1` is neither less nor greater than `1.2` or `1.8`, yet `1.2 < 1.8` |
| `Scenarios.WideCharacterWraps` | Include/Numeric.hpp:50-51 | `create` of the `char32_t` 0x80000000 is the `IntNumeric` `INT_MIN`: the code unit wraps modulo 2^32 into `int` |
| `Scenarios.RenderCreatedInt` | src/Numeric.cpp:176-179 | `create(42)` is the `IntNumeric` 42 and its `toString` is "42" |

## Left out

- Floating-point semantics: rounding of `float`/`double` results, narrowing
  `double` to `float`, NaN and infinities. Payloads are exact reals. Over the
  reals the quotient `CxDiv` gives is the unique one, whatever formula
  `std::complex` uses.
- Convert.IntThroughFloat: for `float` the round trip holds only because
  payloads are exact reals. In the program `static_cast<float>(16777217)` is
  16777216, which converts back to 16777216. Only the `double` case holds for
  every `int`.
- `std::abs` is not modelled. The complex zero test is "the divisor is
  0 + 0i", which is what `std::abs(z) == 0` means over exact reals.
- `toString` of `FloatNumeric` and `ComplexNumeric` is left out. It uses
  `std::to_string` with six fixed decimals, which is library float formatting.
- `toString` of wide characters is left out. Only `char` is modelled.
- Undefined behaviour is excluded by preconditions rather than modelled:
  - signed overflow, `INT_MIN / -1` and out-of-range float-to-`int`
    conversion: `IntNumeric.Defined`, `Convert.ConversionDefined`,
    `Dispatch.CompareDefined`;
  - `wchar_t` overflow: `CharNumeric.Defined`.
- `char32_t` arithmetic is unsigned, modulo 2^32. The model uses the exact
  sum, which has the same low seven bits, so `toascii` of it is unchanged.
- Runtime plumbing is not modelled:
  - the `bad_alloc` handlers;
  - DEBUG printing, constructors and destructors;
  - `unique_ptr` ownership;
  - the RTTI machinery itself.
- Both operands are left unchanged by every operation. The model gets this by
  construction, since every operation is a pure function on immutable values,
  so no separate statement is made.
- main.cpp at the repository root is an earlier revision of the classes and is
  not part of this model.
- src/main.cpp is not part of this model. It is the demo driver: console
  output, exception reporting and a `std::sort` by `lessThanOperation`.
  `Scenarios.MixedComparisons` and `Scenarios.IncomparableNotTransitive` show
  that mixed comparisons give no ordering such a sort could rely on.
