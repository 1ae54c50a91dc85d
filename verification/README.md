# Proofs about ESBMC's front-end arithmetic and transformations

This project models five parts of ESBMC and proves what they promise.

* **Arbitrary-precision integers** (`src/big-int`). `BigIntClass.BigInt` is a class over a digit buffer that
  the methods change in place; its meaning is the integer `Int()`. The digit loops (`DigitStrings`), Knuth's
  long division with its guess, multiply-and-subtract and add-back (`LongDivision`), the scaling around it
  (`Scaling`), and text and byte conversion (`RadixText`) are proved for every base that the header can choose:
  `Layout` gives the bytes of a digit, the digits of a word, and whether a digit plus one is computed in a wider
  type or wraps. A double digit is always checked not to overflow (`DigitStrings.Two` requires it).
* **Struct and union padding** (`padding.cpp`, with the assertions of `adjust_type`). `Padding` has the two
  passes over the component list that insert while they iterate, each tied to a function on the list;
  `TypeLaws` says what alignments and sizes are from the scalars in a type, `ReferenceLayout` that every member
  is exactly where a rule without padding members puts it, and `PaddingLaws`, `LayoutLaws`, `PadNames` and
  `AlignmentLaws` prove that only padding is inserted, idempotence, and exactly when sizes and alignments are what
  the caller asserts.
* **Aggregate initialisers with brace elision** (`c_typecheck_initializer.cpp`). `Initializer` has the mutually
  recursive methods over one shared cursor and a cursor-free meaning, after section 6.7.9 of ISO/IEC 9899:2011
  except where the code leaves it: within a list no types are compared, so that an expression of struct type goes
  to the first scalar and not to the struct (`c_typecheck_initializer.cpp`, lines 240-280). `InitializerLaws`
  proves what flat, bracketed and designated lists initialise.
* **The C library closure** (`cprover_library.cpp`). `LibraryClosure` has the worklist that grows while it is
  traversed, and proves that the stored symbols are the least closed set.
* **Statement rewriting** (`clang_c_adjust_code.cpp`, `clang_cpp_adjust_code.cpp`). `Statements` gives programs
  a meaning, for which `MeaningLaws` proves what loops and switches have to satisfy in C, `StatementRewrite`
  rewrites them in place, and `StoreLaws` and `StatementLaws` prove that runs stay the same.

Where the code does not do what its own comments or callers expect, the model follows the code, and a contract
or a lemma says exactly when the expectation is met:

* `1 + b[bl - 1]` is computed in the digit type. With 32-bit digits it wraps to zero for a top digit of all ones,
  and the scale is then a division by zero: outcome `ScaleTrap`, exactly when `ScaleWraps` holds
  (`BigIntLaws.DivisionTraps` makes such a call).
* `BigInt::div` meets the division identity if and only if neither of two cases occurs (`BigInt.Div`): operands of
  equal magnitude with a quotient object whose old sign differs from the dividend's, and a dividend longer than a
  word over a one-digit divisor, where line 998 copies the divisor. `BigIntLaws.DivEqualFails` and
  `BigIntLaws.DivLongFails` make a failing call of each kind.
* The same `div` sets the length of a result before it makes room for it, and `resize` then copies that many digits
  from the old buffer: outcome `OverRead`, exactly when the quotient or the remainder of a long division does not fit
  the buffer that its object has (`BigInt.ResultsTooSmall`). `BigIntLaws.DividingOverReads` makes such a call for
  every size of the quotient's buffer.
* Adding a number to itself when its buffer is full goes on to read the buffer that it has just freed: that is
  the answer `stale` of `BigInt.Add`, given exactly then (`BigIntLaws.AddingReadsFreed` makes such a call).
* `0 / 0` answers 1, because equality is tested first (`BigInt.DivAssign`).
* A product is canonical unless zero meets a negative one-digit string, which leaves a negative zero (`BigInt.Mul`).
  Scanning that stops at a bad character skips the adjustment: it leaves a negative zero for `-z` and a zero with a
  digit for `0z` (`BigIntLaws.ScanLeavesNegativeZero`, `BigIntLaws.ScanLeavesZeroDigit`), and `BigInt.Scan` and
  `BigInt.FromText` say exactly when the number is canonical. Loading zero bytes into a negative number leaves a
  negative zero as well (`BigInt.Load`).
* Padding is idempotent if and only if the type is no struct with an `_ExtInt` member in it or in a struct nested
  in it (`PaddingLaws.IdempotentUnlessExt`).
* The size of a padded struct is a multiple of its alignment exactly if an explicit alignment agrees with that of
  the padded members, or happens to divide the size (`AlignmentLaws.StructSize`). It agrees if it is not below
  theirs or divides it, and for no other pair of alignments do all structs meet the assertion
  (`AlignmentLaws.GivenFitsExactly`). Powers of two agree, but powers of two in the source text do not suffice:
  the padding member of a union can have any size, so that a struct aligned to 8 around a union of nine bytes and
  an int takes 12 bytes (`AlignmentLaws.UnionDefeatsPowersOfTwo`). They do suffice if the size of each union that
  is rounded up past its alignment is rounded up to a power of two (`AlignmentLaws.RegularStructFits`).
* Padding can raise the alignment of a union, and with it that of a struct around it
  (`AlignmentLaws.UnionAlignmentGrows`, `AlignmentLaws.StructAlignmentGrows`); `AlignmentLaws.UnionAlignmentKept`,
  `AlignmentLaws.PackedUnionAlignmentKept` and `AlignmentLaws.AlignmentKept` say exactly when it does not.
* An empty list in braces for a scalar, a struct or a union reads an entry that is not there
  (`InitializerLaws.EmptyBracesPastEnd`); a list without designators is safe for every type exactly if it has no
  empty list in braces at any depth (`InitializerLaws.SafeExactlyWithoutEmptyBraces`).
* The loop over an open array can go on for ever: outcome `Diverges`. It does exactly if the elements have no scalar
  to set and come to an entry that they leave where it is, such as an expression; an entry in braces is used up
  (`InitializerLaws.OpenArrayDiverges`).
* A C++ `while` whose condition declares a variable is rewritten to evaluate the initialiser once
  (`StatementLaws.WhileDeclaresNotPreserved`). It is kept, for every store, if the initialiser assigns nothing and
  does not mention the variable, and no turn touches the variable or what the initialiser mentions; if every turn
  leaves the loop; or if there is no turn (`StatementLaws.Kept`, which `StatementLaws.Preserved` covers).

## Model

| member | source | states |
|---|---|---|
| BigIntClass.Layout.WideDigitsWrap | src/big-int/bigint.hh:65-82 | `1 + top` is zero for the largest 32-bit digit and 0x10000 for the largest 16-bit digit |
| BigIntClass.Layout.ScaleDenominatorZero | src/big-int/bigint.cpp:1015 | the scale's denominator is zero exactly for a wrapping layout and the largest top digit, otherwise one more than the top digit |
| DigitStrings.DigitCmp | src/big-int/bigint.cpp:53-63 | the first difference from the top decides the order of the values |
| DigitStrings.ProductFits | src/big-int/bigint.cpp:154-165 | a product of digits plus a digit and a carry stays within a double digit |
| DigitStrings.CarryFits | src/big-int/bigint.cpp:154-165 | and then its halves are digits, so that the carry is one |
| DigitStrings.DigitAdd | src/big-int/bigint.cpp:66-95 | digits and carry are the sum, also when the output is either input and when the loop leaves early |
| DigitStrings.DigitSub | src/big-int/bigint.cpp:98-128 | the digits are the difference, for the same aliasings |
| DigitStrings.DigitMulSingle | src/big-int/bigint.cpp:132-142 | in place, digits and carry are the product with one digit |
| DigitStrings.DigitMul | src/big-int/bigint.cpp:147-168 | the schoolbook product has the value of the product |
| DigitStrings.DigitDivSingle | src/big-int/bigint.cpp:172-183 | in place, the quotient by one digit, and the remainder |
| LongDivision.GuessQ | src/big-int/bigint.cpp:191-211 | the answer passes the three-digit comparison and is the initial guess or the largest that does; for a scaled divisor at most two corrections are made |
| LongDivision.GuessNotTooSmall | src/big-int/bigint.cpp:191-211 | the guess is at least the true quotient digit, for any divisor |
| LongDivision.GuessNotTooLarge | src/big-int/bigint.cpp:191-211 | the guess is at most one more than the true quotient digit |
| LongDivision.AtMostTwoCorrections | src/big-int/bigint.cpp:200-208 | with a top divisor digit of at least half the base the correction loop runs at most twice |
| LongDivision.MultiplyAndSubtract | src/big-int/bigint.cpp:215-235 | the window loses the multiple of the divisor modulo its weight, and the answer is zero exactly if that went below zero |
| LongDivision.AddBack | src/big-int/bigint.cpp:239-250 | the low digits become the sum without its carry, under a zero top digit |
| LongDivision.QuotientDigit | src/big-int/bigint.cpp:260-268 | guess, subtract and add back give the quotient digit and the remainder of the window, whose top digit is zero |
| LongDivision.DigitDiv | src/big-int/bigint.cpp:254-269 | for all lengths, quotient and remainder of Euclidean division, zeros above the remainder |
| Scaling.ScaleIsDigit | src/big-int/bigint.cpp:1015 | the scale is a digit between 1 and the base |
| Scaling.ScaledDivisor | src/big-int/bigint.cpp:1016-1025 | scaling the divisor carries nothing out and brings its top digit to half the base |
| Scaling.ScaledDivision | src/big-int/bigint.cpp:1026-1041 | a common scale leaves the quotient alone and multiplies the remainder, so that dividing it by the scale is exact |
| Scaling.ScaleOperands | src/big-int/bigint.cpp:1015-1031 | the scaled operands, of a length that the two values determine, meet what long division requires |
| IntDivision.TruncatedDivisionUnique | src/big-int/bigint.cpp:1051-1188 | the truncated quotient and remainder are the only pair with the identity, a small remainder and the dividend's sign |
| BigIntClass.BigInt.constructor | src/big-int/bigint.cpp:380-386 | a new number is a canonical zero |
| BigIntClass.BigInt.Copy | src/big-int/bigint.cpp:424-431 | a copy has the same digits and sign in a buffer of its own |
| BigIntClass.BigInt.Resize | src/big-int/bigint.cpp:293-309 | makes room and keeps the number, in the same buffer if it is large enough |
| BigIntClass.BigInt.Adjust | src/big-int/bigint.cpp:312-324 | drops zero top digits, keeps the magnitude, and makes zero positive |
| BigIntClass.BigInt.DigitSet | src/big-int/bigint.cpp:327-343 | the digits of a word, without leading zeros |
| BigIntClass.BigInt.Assign | src/big-int/bigint.cpp:345-349 | the number becomes the word |
| BigIntClass.BigInt.Add | src/big-int/bigint.cpp:724-771 | the signed sum, canonical from canonical, also when the operand is the object's own digits; `stale`, with nothing added, exactly if those are in a full buffer |
| BigIntClass.BigInt.Mul | src/big-int/bigint.cpp:774-839 | the signed product on all three length cases, canonical exactly unless zero meets a one-digit negative |
| BigIntClass.BigInt.AddAssign | src/big-int/bigint.cpp:937-941 | `x += y` adds the integers, also for `x += x`, which is stale exactly if the buffer is full |
| BigIntClass.BigInt.SubAssign | src/big-int/bigint.cpp:943-947 | `x -= y` subtracts the integers, with the same exception |
| BigIntClass.BigInt.MulAssign | src/big-int/bigint.cpp:949-953 | `x *= y` multiplies the integers, also for `x *= x` |
| BigIntClass.BigInt.Negate | src/big-int/bigint.hh:241-246 | the opposite number; zero stays positive |
| BigIntClass.BigInt.DivAssign | src/big-int/bigint.cpp:1051-1117 | the truncated quotient on the trivial, word, one-digit and long paths; when division by zero is reported and when the scale wraps, both exactly; 1 for 0/0 |
| BigIntClass.BigInt.ModAssign | src/big-int/bigint.cpp:1119-1188 | the truncated remainder on the same paths, with the same exact outcomes |
| BigIntClass.BigInt.DivLong | src/big-int/bigint.cpp:1089-1113 | the multi-digit quotient: scaling and long division give the quotient of the magnitudes |
| BigIntClass.BigInt.ModLong | src/big-int/bigint.cpp:1158-1184 | the multi-digit remainder, unscaled exactly |
| BigIntClass.BigInt.DividingDropsOneDigit | src/big-int/bigint.cpp:538-545 | dividing a trimmed digit string by one digit leaves at most one zero top digit |
| BigIntClass.BigInt.Div | src/big-int/bigint.cpp:956-1049 | quotient and remainder meet the division identity if and only if neither the equal case with another old sign nor a long dividend over one digit occurs; what is left in these two cases, one and zero with the signs they get; when a result's old buffer is read past its end, exactly |
| BigIntClass.BigInt.UCompare | src/big-int/bigint.cpp:677-686 | the order of the magnitudes, zero exactly for the same digits |
| BigIntClass.BigInt.Compare | src/big-int/bigint.cpp:713-721 | on canonical numbers the order of the integers |
| BigIntClass.BigInt.CompareUnsigned | src/big-int/bigint.cpp:690-706 | the order of the number and a word |
| BigIntClass.BigInt.IsInt64 | src/big-int/bigint.cpp:634-656 | true exactly from minus half the word's range up to below half of it |
| BigIntClass.BigInt.ToUint64 | src/big-int/bigint.cpp:658-667 | the magnitude modulo the word's range |
| BigIntClass.BigInt.ToInt64 | src/big-int/bigint.cpp:669-674 | the number itself where `is_int64` holds, and always the signed word that differs from it by a multiple of the word's range |
| BigIntClass.BigInt.FloorPow2 | src/big-int/bigint.cpp:1191-1212 | the exponent of the largest power of two not above the magnitude |
| BigIntClass.BigInt.SetPower2 | src/big-int/bigint.cpp:1215-1232 | the canonical power of two |
| BigIntClass.BigInt.ScanOn | src/big-int/bigint.cpp:460-502 | reads digits up to the first bad character; the magnitude continues the text's value; after a bad character the sign is untouched, and the digits are without leading zeros exactly if there are none or they are not all zeros |
| BigIntClass.BigInt.Scan | src/big-int/bigint.cpp:504-511 | continues the digits of any number with those of a text, and makes it negative after a minus sign; from zero, the canonical number that the text denotes; when the number left by a bad character is canonical, exactly |
| BigIntClass.BigInt.FromText | src/big-int/bigint.cpp:438-445 | the number that a text denotes; for any other text the sign and the digits in front of the bad character, and when that is canonical, exactly |
| BigIntClass.BigInt.DigitsBound | src/big-int/bigint.cpp:513-519 | bounds the length of the text of the magnitude, and is the bits of the digits divided by the exponent of the largest power of two that the base reaches, rounded up |
| BigIntClass.BigInt.AsString | src/big-int/bigint.cpp:521-557 | the text of the number ends the field, or null exactly if it does not fit |
| BigIntClass.BigInt.Dump | src/big-int/bigint.cpp:559-602 | succeeds exactly if the magnitude fits, and then the bytes have its value, padded with zeros |
| BigIntClass.BigInt.Load | src/big-int/bigint.cpp:604-632 | the magnitude of the bytes, without zero top digits; the sign stays, so that the number is canonical exactly if it is not a negative zero |
| RadixText.TextRoundTrip | src/big-int/bigint.cpp:460-557 | the text of an integer scans as a number of the same value |
| RadixText.TextLength | src/big-int/bigint.cpp:513-519 | a magnitude with k characters is at least the base to the k minus one |
| RadixText.TextFits | src/big-int/bigint.cpp:513-519 | bits divided by the bits of the base, rounded up, bound the number of characters |
| RadixText.ScanValueExactly | src/big-int/bigint.cpp:462-478 | the decimal digits and the letters of either case scan as 0 to 35, and no other character does |
| RadixText.TextAt | src/big-int/bigint.cpp:521-557 | the character k places from the right is that of the digit there, from `0` to `9` and `A` to `Z`; a minus sign in front of negative numbers only, and no leading zero |
| RadixText.TextInAnyCase | src/big-int/bigint.cpp:464-465 | a text of an integer with its letters in any case scans as the integer |
| RadixText.SignInFront | src/big-int/bigint.cpp:504-511 | a plus sign changes nothing, a minus sign the sign of the number; a second sign is no digit |
| BigIntLaws.DivideAndRemain | src/big-int/bigint.cpp:1051-1188 | `/` and `%` together give the one quotient and remainder of truncated division |
| BigIntLaws.DivEqualFails | src/big-int/bigint.cpp:968-977 | -5 over 5 into new objects breaks the division identity |
| BigIntLaws.DivLongFails | src/big-int/bigint.cpp:995-1001 | the smallest number past a word over 3 breaks it too |
| BigIntLaws.DividingOverReads | src/big-int/bigint.cpp:1030-1041 | whatever room the quotient object has, some dividend over the smallest number past a word reads past its end |
| BigIntLaws.DivisionTraps | src/big-int/bigint.cpp:1100 | the smallest number past a word over the largest word divides by zero when it computes the scale |
| BigIntLaws.AddingReadsFreed | src/big-int/bigint.cpp:724-727 | a number whose buffer is full, added to itself, reads the freed buffer |
| BigIntLaws.ScanLeavesNegativeZero | src/big-int/bigint.cpp:460-511 | `-z` scans as a negative zero |
| BigIntLaws.ScanLeavesZeroDigit | src/big-int/bigint.cpp:460-502 | `0z` scans as a zero with a digit |
| BigIntLaws.PrintThenScan | src/big-int/bigint.cpp:460-557 | in every base from 2 to 36, printing into `digits + 2` characters succeeds and scanning gives the same digits and sign |
| BigIntLaws.DumpThenLoad | src/big-int/bigint.cpp:559-632 | the dump succeeds exactly if the number is below 256 to the n, and loading restores its digits |
| BigIntLaws.EqualExactlyIfSameDigits | src/big-int/bigint.cpp:713-721 | canonical numbers are equal exactly if digits and sign are |
| Padding.AlignmentPositive | src/clang-c-frontend/padding.cpp:28-98 | the alignment of a well-formed type is positive |
| TypeLaws.AlignmentIsLargest | src/clang-c-frontend/padding.cpp:28-98 | the alignment of a type is the largest that anything in it asks for: a scalar its size, an `_ExtInt` the bytes that represent it, arrays and bit-fields what their elements and underlying types do, unless the source gives an alignment or packs |
| TypeLaws.ArrayAlignment | src/clang-c-frontend/padding.cpp:61-62 | an array of n-byte scalars in any number of dimensions is aligned to n |
| TypeLaws.SizeOfScalars | src/util/type_byte_size.cpp:116-147 | arrays and structs of scalars are as large as the scalars in them together |
| TypeLaws.SizeOfUnion | src/util/type_byte_size.cpp:149-158 | a union is as large as its largest member |
| ReferenceLayout.LayoutByRule | src/clang-c-frontend/padding.cpp:148-349 | in every padded struct, with `_ExtInt` members or packed too, the members start, in their order, where the rule puts them: a bit-field with bits right after the member before, any other at the next multiple of its alignment; the size is where the last one ends, rounded up to the largest alignment |
| ReferenceLayout.ArraysStartAligned | src/clang-c-frontend/padding.cpp:274-297 | a member that is an array of n-byte scalars starts at a multiple of n bytes |
| ReferenceLayout.UnionByRule | src/clang-c-frontend/padding.cpp:351-388 | a padded union keeps its members, gets at most one pad, and is its largest member rounded up to the alignment |
| PadNames.PaddedNamesDistinct | src/clang-c-frontend/padding.cpp:100-146 | no two members of a padded struct have the same name |
| Padding.EndBitFieldRuns | src/clang-c-frontend/padding.cpp:161-232 | the first pass, inserting while it iterates, computes `BitPass` |
| Padding.BitPassEnds | src/clang-c-frontend/padding.cpp:161-232 | after the first pass every run of bit-fields ends on a byte boundary |
| Padding.PlaceMembers | src/clang-c-frontend/padding.cpp:240-349 | the second pass and the final padding compute `PlacePass` and `EndPad` |
| Padding.AddPaddingStruct | src/clang-c-frontend/padding.cpp:148-349 | padding a struct pads the types of its members first, then its component list |
| Padding.AddPaddingUnion | src/clang-c-frontend/padding.cpp:351-388 | padding a union adds one member exactly if the size is no multiple of the unit |
| Padding.AddPadding | src/clang-c-frontend/padding.cpp:390-400 | the dispatcher computes `PadType` |
| PaddingLaws.PaddingOnlyInserts | src/clang-c-frontend/padding.cpp:148-388 | without the padding members a padded type is the original, at all depths and in order |
| PaddingLaws.PadStructFixed | src/clang-c-frontend/padding.cpp:148-349 | padding a padded component list without `_ExtInt` members inserts nothing |
| PaddingLaws.PadUnionRounds | src/clang-c-frontend/padding.cpp:351-388 | the size of a padded union is the size rounded up to the unit |
| PaddingLaws.PadUnionFixed | src/clang-c-frontend/padding.cpp:351-388 | padding a padded union adds nothing, although its alignment may have grown |
| PaddingLaws.PaddingDoublesExt | src/clang-c-frontend/padding.cpp:189-206 | each `_ExtInt` member gets one more padding member in every run |
| PaddingLaws.IdempotentUnlessExt | src/clang-c-frontend/clang_c_adjust_expr.cpp:603-605 | padding twice is padding once if and only if the type is no struct with an `_ExtInt` component in it or in a struct nested in it |
| LayoutLaws.StructLayout | src/clang-c-frontend/padding.cpp:234-349 | in a padded struct each member but a bit-field with bits starts at a multiple of its alignment, and each one and the end on a byte boundary |
| LayoutLaws.PaddedWholeBytes | src/clang-c-frontend/padding.cpp:148-388 | a padded type takes whole bytes |
| AlignmentLaws.AlignmentUnchanged | src/clang-c-frontend/padding.cpp:40-80 | once the types of the members are padded, padding the struct does not change its alignment, although padding members count |
| AlignmentLaws.PaddedStructSize | src/clang-c-frontend/padding.cpp:320-348 | a padded struct is as large as its members, rounded up to the largest alignment among theirs and an explicit one |
| AlignmentLaws.StructSize | src/clang-c-frontend/clang_c_adjust_expr.cpp:596-602 | the size of a padded struct is a multiple of its alignment exactly if an explicit alignment is absent, not below that of the padded members, divides it, or divides the size |
| AlignmentLaws.GivenFitsExactly | src/clang-c-frontend/clang_c_adjust_expr.cpp:596-602 | for two alignments, all structs that have them meet the assertion exactly if the explicit one is absent, not below the members' or divides it |
| AlignmentLaws.GivenFails | src/clang-c-frontend/padding.cpp:320-348 | a scalar as wide as the members' alignment breaks it for any other pair |
| AlignmentLaws.UnionDefeatsPowersOfTwo | src/clang-c-frontend/padding.cpp:351-388 | a struct aligned to 8 around a union of nine bytes and an int breaks it |
| AlignmentLaws.PowersOfTwoFit | src/clang-c-frontend/clang_c_adjust_expr.cpp:596-602 | the assertion holds if the explicit alignment and those of the padded members are powers of two |
| AlignmentLaws.RegularPadded | src/clang-c-frontend/padding.cpp:28-98 | padding keeps alignments powers of two, if sizes and explicit alignments are and unions are rounded up to powers of two or not past their alignment |
| AlignmentLaws.RegularStructFits | src/clang-c-frontend/clang_c_adjust_expr.cpp:596-602 | structs of such members meet the assertion |
| AlignmentLaws.UnionSize | src/clang-c-frontend/clang_c_adjust_expr.cpp:596-602 | the size of a padded union is a multiple of its alignment |
| AlignmentLaws.UnionAlignmentKept | src/clang-c-frontend/padding.cpp:351-388 | padding keeps the alignment of a union that is not packed exactly if that is explicit, divides the size, or is not below it |
| AlignmentLaws.PackedUnionAlignmentKept | src/clang-c-frontend/padding.cpp:351-388 | the exact condition for a packed union |
| AlignmentLaws.PaddedWithin | src/clang-c-frontend/padding.cpp:28-98 | whether a type is aligned to at most a bound once padded is decided by the type as it is given |
| AlignmentLaws.AlignmentKept | src/clang-c-frontend/padding.cpp:148-388 | padding keeps the alignment of a type exactly if no union in it is rounded up past it |
| AlignmentLaws.UnionAlignmentGrows | src/clang-c-frontend/padding.cpp:351-388 | the alignment of a union of nine bytes and an int grows from 4 to 12 |
| AlignmentLaws.StructAlignmentGrows | src/clang-c-frontend/padding.cpp:148-349 | and so does that of a struct around it |
| AlignmentLaws.AdjustTypeAssertions | src/clang-c-frontend/clang_c_adjust_expr.cpp:595-606 | of the two assertions of `adjust_type`, idempotence holds, and the one on the size holds for unions and, for structs, exactly under the condition above |
| LayoutLaws.InsertPadOperands | src/clang-c-frontend/clang_c_adjust_expr.cpp:138-159 | a struct literal gets a zero for each padding member and keeps the other operands in order |
| Initializer.InitState.Advance | src/ansi-c/c_typecheck_base.h:74-78 | the cursor passes one entry |
| Initializer.Init | src/ansi-c/c_typecheck_initializer.cpp:240-464 | the cursor-free meaning: entries are taken from the front, some of them if there is a scalar to set, and no type whose open arrays have elements with a scalar goes on for ever |
| Initializer.DoInitializerRec | src/ansi-c/c_typecheck_initializer.cpp:240-280 | the shared cursor ends where the cursor-free meaning says, with the value it says or the same error |
| Initializer.DoInitializerArray | src/ansi-c/c_typecheck_initializer.cpp:282-350 | the same for an array of known size, zeros filling up once the list is used up |
| Initializer.DoInitializerIncompleteArray | src/ansi-c/c_typecheck_initializer.cpp:352-380 | the same for an open array; the loop ends as long as each element consumes an entry, and is reported to go on for ever otherwise |
| Initializer.DoInitializerStruct | src/ansi-c/c_typecheck_initializer.cpp:382-426 | the same for a struct |
| Initializer.DoInitializerUnion | src/ansi-c/c_typecheck_initializer.cpp:428-464 | the same for a union, whose first member is set |
| Initializer.DoInitializerValue | src/ansi-c/c_typecheck_initializer.cpp:150-238 | the same for a single entry |
| Initializer.DoDesignatedInitializer | src/ansi-c/c_typecheck_initializer.cpp:520-568 | a designated list sets its components in order, then the others are zeroed |
| InitializerLaws.ZeroLeaves | src/ansi-c/c_typecheck_initializer.cpp:22-119 | zero initialisation zeroes every scalar, and succeeds on objects of known size |
| InitializerLaws.ZeroExactly | src/ansi-c/c_typecheck_initializer.cpp:22-119 | zero initialisation fails exactly for an open array, a negative size or an empty union in the object, first members of unions alone counting |
| InitializerLaws.ArraySizes | src/ansi-c/c_typecheck_initializer.cpp:282-317 | the sizes from zero to a million are accepted, and which error any other gets |
| InitializerLaws.UnionSetsFirst | src/ansi-c/c_typecheck_initializer.cpp:428-464 | a union is set through its first member, and an empty one fails |
| InitializerLaws.FlatInit | src/ansi-c/c_typecheck_initializer.cpp:240-464 | a list without braces fills the scalars in declaration order and zeroes the others, and exactly the entries used are consumed |
| InitializerLaws.FlatOpenArray | src/ansi-c/c_typecheck_initializer.cpp:352-380 | an open array gets the number of entries divided by the scalars of an element, rounded up |
| InitializerLaws.FlatFlexible | src/ansi-c/c_typecheck_initializer.cpp:352-426 | in a struct that ends in an open array a flat list fills the scalars in order and as many elements as it has entries for; it fails exactly if no entry is left for the array |
| InitializerLaws.OpenArrayDiverges | src/ansi-c/c_typecheck_initializer.cpp:366-370 | for every list, the loop over an open array goes on for ever exactly if its elements have no scalar and come, without an error before it, to an entry that they leave where it is |
| InitializerLaws.FlatOpenArrayEnds | src/ansi-c/c_typecheck_initializer.cpp:366-370 | with a list without braces it ends exactly if an element has a scalar |
| InitializerLaws.ElisionIsBracketing | src/ansi-c/c_typecheck_initializer.cpp:240-464 | the list with every brace written out initialises an object to the same value as the flat list |
| InitializerLaws.LastDesignatorWins | src/ansi-c/c_typecheck_initializer.cpp:520-568 | a designated list succeeds exactly if each entry does; the last entry for a component sets it, and components without an entry are zero, or unset if there is no zero |
| InitializerLaws.FirstFailureDecides | src/ansi-c/c_typecheck_initializer.cpp:520-568 | the error of a designated list is that of the first entry that fails |
| InitializerLaws.AggregateFromExpression | src/ansi-c/c_typecheck_initializer.cpp:176-225 | an expression initialises an array, a struct or a union exactly if it has that type, and is then the value |
| InitializerLaws.DesignatedExpression | src/ansi-c/c_typecheck_initializer.cpp:520-568 | `.i = e` sets a scalar member to e as it converts, in any number of braces, and another member to e itself, exactly if e has its type |
| InitializerLaws.DesignatedBraces | src/ansi-c/c_typecheck_initializer.cpp:520-568 | `.i = {...}` without inner braces fills the scalars of that member in order |
| InitializerLaws.DesignatedNested | src/ansi-c/c_typecheck_initializer.cpp:163-178 | `.i = {.j = e}` sets a struct as the inner list would by itself; any other member fails unless the inner list is empty |
| InitializerLaws.DesignatedConsumesOne | src/ansi-c/c_typecheck_initializer.cpp:387-392 | a designated list in a list stands for one struct |
| InitializerLaws.DesignatedUnionConsumesOne | src/ansi-c/c_typecheck_initializer.cpp:433-438 | a designated list in a list stands for one union; it succeeds exactly with one entry for an existing member whose value succeeds, and the scalars are that value's; the error otherwise |
| InitializerLaws.DesignatedUnionIsMember | src/ansi-c/c_typecheck_initializer.cpp:570-609 | designating a member of a union gives it what the same entry in a list gives it without a designator, for entries that mean the same by themselves and in a list (`SameInList`) |
| InitializerLaws.ScalarSameInList | src/ansi-c/c_typecheck_initializer.cpp:150-280 | which entries those are for a scalar, exactly |
| InitializerLaws.NoReadPastEnd | src/ansi-c/c_typecheck_initializer.cpp:240-464 | as long as no list in braces is empty, no entry is read that is not there |
| InitializerLaws.SafeExactlyWithoutEmptyBraces | src/ansi-c/c_typecheck_initializer.cpp:240-464 | a list without designators makes no type read past its end exactly if no list in braces in it is empty |
| InitializerLaws.DesignatedListMayBeSafe | src/ansi-c/c_typecheck_initializer.cpp:520-568 | setting one component first to a scalar and then to an empty list is safe for every type |
| InitializerLaws.EmptyBracesPastEnd | src/ansi-c/c_typecheck_initializer.cpp:382-440 | an empty list in braces reads past its end exactly for scalars, structs and unions |
| LibraryClosure.GenerateSymbolDeps | src/c2goto/cprover_library.cpp:142-190 | the table gains the collected names of a tree |
| LibraryClosure.CollectedExactly | src/c2goto/cprover_library.cpp:142-190 | collected is exactly what some path leads to: an outermost symbol, or an outermost argument below the root |
| LibraryClosure.DependsExactly | src/c2goto/cprover_library.cpp:255-274 | a name depends on exactly what the value or the type of its symbol mentions, and three names for threads on one more each |
| LibraryClosure.IngestSymbol | src/c2goto/cprover_library.cpp:192-211 | the dependencies of a name move from the table to the end of the list |
| LibraryClosure.CollectDeps | src/c2goto/cprover_library.cpp:255-274 | the table of a library: what each symbol mentions, and the three pairs for threads |
| LibraryClosure.PullRoots | src/c2goto/cprover_library.cpp:281-292 | in any order of visiting, the stored symbols are the roots |
| LibraryClosure.PullDependencies | src/c2goto/cprover_library.cpp:294-304 | the growing worklist ends, with the least closed set that has the roots |
| LibraryClosure.AddLibrary | src/c2goto/cprover_library.cpp:213-304 | the store is the least set of library symbols with the roots and all they depend on: symbols that the program has with a nil value are stored, and so is whatever a stored symbol mentions in its value or type; every other name is stored because another one mentions it; the dependencies of each were enqueued once |
| LibraryClosure.LeastClosedIsReachable | src/c2goto/cprover_library.cpp:276-304 | a symbol is stored exactly if a chain of dependencies leads to it from a root |
| StatementRewrite.Code.AdjustCode | src/clang-c-frontend/clang_c_adjust_code.cpp:9-78 | rewriting in place computes `Adjust` |
| StatementRewrite.Code.AdjustFor | src/clang-cpp-frontend/clang_cpp_adjust_code.cpp:121-157 | the declaration of a condition is hoisted without its value, which becomes an assignment; then the first part moves out |
| StatementRewrite.Code.AdjustForTest | src/clang-c-frontend/clang_c_adjust_code.cpp:122-151 | the first part of a for statement moves in front of it, in a block |
| StatementRewrite.Code.AdjustIfThenElse | src/clang-cpp-frontend/clang_cpp_adjust_code.cpp:31-59 | the declaration of a condition moves in front of the statement, in a block |
| StatementRewrite.Code.AdjustWhile | src/clang-cpp-frontend/clang_cpp_adjust_code.cpp:61-89 | the same for a while statement, once for all turns |
| StatementRewrite.Code.AdjustSwitch | src/clang-cpp-frontend/clang_cpp_adjust_code.cpp:91-119 | the same for a switch statement |
| StoreLaws.ExecKeeps | src/clang-cpp-frontend/clang_cpp_adjust_code.cpp:61-89 | running a statement leaves alone a name that it neither assigns nor declares |
| StatementLaws.Preserved | src/clang-cpp-frontend/clang_cpp_adjust_code.cpp:31-157 | every run of a rewritten program ends in the same way and the same store, with any number of turns allowed |
| StatementLaws.SteadyLoop | src/clang-cpp-frontend/clang_cpp_adjust_code.cpp:61-89 | a while statement that declares its variable once runs like one that declares it in every turn, if the initialiser assigns nothing and does not mention the variable, and no turn touches the variable or what the initialiser mentions |
| StatementLaws.ForBlock | src/clang-c-frontend/clang_c_adjust_code.cpp:129-142 | `for(a; b; c) d` and `{ a; for(; b; c) d }` run alike |
| StatementLaws.HoistedLoop | src/clang-cpp-frontend/clang_cpp_adjust_code.cpp:135-153 | a loop that assigns a hoisted variable runs like one that declares it anew in each turn, but for the value it leaves in it |
| StatementLaws.AdjustedIsSimplified | src/clang-c-frontend/clang_c_adjust_code.cpp:129-142 | after rewriting no condition declares a variable and no for statement has a first part |
| StatementLaws.WhileDeclaresNotPreserved | src/clang-cpp-frontend/clang_cpp_adjust_code.cpp:61-89 | `while(int x = n) n = 0;` ends, rewritten it never does |

## Left out

- BigIntClass.BigInt.Div: operands and results are distinct objects; the aliased calls are not modelled.
- BigIntClass.BigInt.ScanOn: the text ends where its sequence ends; the terminating character is not part of it, and a base is any number below the digit base.
- LayoutLaws.StructLayout: structs with `_ExtInt` members, or marked as packed, are not covered, as the caller's assertions do not cover them either.
- ReferenceLayout.LayoutByRule: structs have no padding members before the call, and arrays take whole bytes.
- AlignmentLaws.StructSize: the struct has no padding members before the call and no `_ExtInt` members, and arrays take whole bytes.
- AlignmentLaws.AdjustTypeAssertions: the same types.
- AlignmentLaws.AlignmentKept: types as the source text gives them, with no struct packed to an explicit alignment.
- Padding.AddPadding: scalars have a size, and members already flagged as padding are of the kinds that padding inserts.
- InitializerLaws.FlatInit: objects of known size without empty unions; arrays within the limit of a million elements. An open array at the end of a struct is the subject of `InitializerLaws.FlatFlexible`.
- InitializerLaws.OpenArrayDiverges: open arrays within the element have elements with a scalar.
- InitializerLaws.DesignatedUnionIsMember: entries that mean another thing in a list, such as an expression for an aggregate, which a list spreads over its scalars (`InitializerLaws.AggregateFromExpression` says what it is by itself).
- StatementLaws.Preserved: names that for statements declare in conditions must not be mentioned in the first part or in their own initialiser, as holds for the unique names the front end gives. For while statements that declare, the condition on the text is sufficient; the exact one would have to say what values a body computes.
- InitializerLaws.SafeExactlyWithoutEmptyBraces: lists without designators, because a designated list with an empty list in it may be safe for every type (`InitializerLaws.DesignatedListMayBeSafe`).
- Memory rounding (`adjust_size`), stack allocation and the wiping destructor: a buffer has a capacity, and resizing may replace it by a new one.
- The signed-word forms of `assign` and `compare`, the operators that take primitive types, `++` and `--`, `swap` and moves: each only forwards.
- Host words other than a whole number of digits, and digits that are not whole bytes.
- The bodies of `type_byte_size`, `migrate_type` and `simplify`: sizes of scalars are given, the size of a struct is the sum of its components, and a byte has 8 bits.
- Arrays whose size is no constant, incomplete types and type symbols: types are taken as followed.
- The assertion on padding after an `_ExtInt` member, and packed structs with an explicit alignment beyond what the passes do.
- Implicit conversions of initialisers and conditions: `Cast` marks the first, conditions are tested for not being zero.
- String literals as initialisers, array sizes taken from them, and where initialisers are typechecked.
- A struct whose zero initialisation fails half way under a designated list: the member is left unset as a whole.
- Components are named by position; a name that the type does not have is a position beyond its components.
- Reading the library's binary image, choosing it by word size, the list of functions for Python, and linking the store into the program.
- The order in which a hash table is visited: every order is covered.
- Exceptions, labels, goto and the declarations that C++ inserts: statements are those that the rewriting touches.
- Sharing between trees: a place holds a statement as a value, and operands are taken out, rewritten and put back.
- Clang's syntax trees, preprocessing, linking, literals and built-in functions: input, configuration or long tables without a property across functions.
