# Verification of the MUD library

A Dafny model of the parts of the MUD library whose correctness rests on arithmetic, on tables, on state
kept between calls, or on threads that interleave, with proofs that the code computes what its documentation
and the standards it cites promise. `dafny verify dfyconfig.toml` checks all of it.

Code that works step by step is modelled step by step: limb and byte buffers are arrays changed in place, the
objects of the library are classes with the fields of the source, and loops are loops. Each such method is
proved against a function of its inputs or of the old state, and lemmas about that function state the result
for all inputs. Pure code is modelled by functions.

## What is modelled

**X25519** (`crypto/src/x25519.cpp`). `FieldElement` holds the sixteen signed limbs with lazy carries, `Carry`,
addition, subtraction and schoolbook multiplication; every intermediate of the source is a value of type
`int64`, so that each operation is also proved not to overflow. `ConditionalSwap` is the branch-free swap on
the two's complement of the limbs, `Inversion` the power p - 2, `Packing` both conversions between bytes and
limbs, and `Ladder` the scalar multiplication. The reference is the deferred-swap ladder of section 5 of
RFC 7748, defined on residues. `Ladder.X25519` is the result from bytes to bytes. `CurveLaw` says what a step of
the ladder does to points of the curve.

**Big integers** (`core/src/bigint.cpp`). `Magnitude` has the value of big-endian byte strings, bit lengths,
comparison, ripple addition and subtraction, and resizing; `Shifts` the shift loops, which
`core/src/buffer.cpp` has in the same form; `BigInt` signed addition, subtraction, multiplication and
exponentiation; `Division` bit-serial division; `Decimal`, `Printing` and `Parsing` the two conversions by
double dabble; `BigInteger` the class with its assigning operators.

**Entity scanner** (`html/src/entities_scanner_generator/entities_scanner_generator.cpp`,
`html/src/char_reference.cpp`). `Trie` says what a table of states means, `Scanner` has the generator with both
tables and both scan loops, and `CharReference` the decoder of character references with its UTF-8 output;
`NumericReference` writes numerals for it to read.

**Block ciphers** (`crypto/src/block_cipher.cpp`, `aes.cpp`, `padding.cpp`, `types.cpp`, `core/src/buffer.cpp`).
`BlockMode` specifies ECB, CBC, CFB, CTR and GCM over any block cipher, `CipherMode` is the mode object with
its register, padding mark, hashed text and tag, and `CipherStream` the stream buffer that feeds it; `GcmText` is
GCM used block by block, and `GcmCounter` compares its counter blocks with the standard's.
`ChainedModes` states ECB, CBC and CFB on the blocks of a whole cipher text, beside the counter modes in `BlockMode`.
`BinaryPolynomial`, `BlockBits`, `GaloisField` and `GcmHash` are the multiplication and hash of GCM, and
`GcmPolynomial` its hash and tag as sums of powers of the key.
`AesTables`, `AesField`, `AesMix`, `Aes`, `AesCipher` and `AesBlock` are AES on byte states and in place on words,
with its key schedule; `AesSbox` derives the box from the field, and `AesExamples` has examples of FIPS 197.
`ByteXor`, `BufferShift`, `BufferHolder`, `Padding` and `Counter` are what they stand on.

**Hashes** (`crypto/src/sha.cpp`, `keccak.cpp`). `BlockFold` and `Sha` are the buffering and padding over any
compression function; `MessageSchedule`, `ShaFunctions` and `ShaDigest` the compression functions and the
digests. `KeccakPermutation` and `KeccakRounds` are the permutation with its in-place walks, `Keccak` the
sponge over any permutation, `KeccakDigest` the digests. `ShaConstants`, `ShaWords` and `KeccakConstants` say where
the constants come from and what the operations on words mean; `ShaExamples` has rounds of the message "abc", and
`KeccakExamples` steps of the permutation of the zero state.

**Event loop** (`core/src/posix/select_mechanism.cpp`). `SelectEvents` and `SelectMechanism` are the operations on
the list of events as sequential code; `SelectRuns` is the loop, the clients, the workers and the terminating
threads as atomic steps, with an invariant of every state of every run.

**Timers** (`core/src/timer.cpp`, `timer_dispatcher.cpp`). `Timer` is one timer, `TimerDispatcher` the ordered
list and the firing of what is due.

## Main results

- `Ladder.X25519`: the limb code is the function of section 5 of RFC 7748 for every scalar and point.
- `CurveLaw.Doubling` and `Addition`: a step of the ladder doubles one point and adds two that differ by the base
  point, on the curve with coefficient 486662.
- `Packing.PackingIsCanonical`: two elements pack to the same bytes if and only if they are congruent.
- `Division.LongDivideModulo`, `Printing.Print`, `Parsing.Parse`, `Parsing.RoundTrip`, `BigInt.Exp`: division,
  conversion and powers are exact at any length.
- `Scanner.RecognisedExactly` and `Scanner.Generator.ScanCompressed`: the generated table recognises exactly
  the patterns, and the compressed table does the same.
- `CharReference.GenerateAndUnescape`: from the list of names, through generator and compressed table, the
  decoder replaces exactly the references `CharReference.Reference` defines. `NumericReference.NumeralRoundTrip`:
  every number below 2^32 that is written as a reference is read back.
- `CipherStream.Exchange`: what is written to a cipher stream and closed is read back unchanged in all five
  modes.
- `ChainedModes.EncryptedChained` and `BlockMode.CounterStream`: block by block, the whole cipher text of a message
  is that of section 6 of NIST SP 800-38A, in terms of the cipher alone.
- `GcmText.Exchange`: when GCM is used block by block, with the last block marked final, any message comes back,
  and both sides compute the one-shot tag of section 7.1 of NIST SP 800-38D. Through the stream both sides have
  that tag exactly for messages that end in a partial block.
- `GaloisField.TimesExactly`: the GCM product is the product of polynomials modulo x^128 + x^7 + x^2 + x + 1.
  `GcmPolynomial.TagIs`: the tag is a polynomial in the hash key.
- `Aes.InverseForward` and `AesField.TablesAgree`: the inverse cipher undoes the cipher for all round keys,
  and both multiplications in the field agree. `AesSbox.SboxIs`: the box is the affine map of the inverse in that
  field, for all bytes.
- `ShaDigest.Sha1Parts`, `Sha2x32Parts`, `Sha2x64Parts` and `KeccakDigest.Sha3Parts`: digests do not depend on
  how a message is split, and are those of FIPS 180-4 and FIPS 202.
- `SelectRuns.RunKeeps`, `BlockedIsCurrent` and `DemultiplexExactly`: no interleaving loses the loop's own
  event, queues an event twice, or leaves the loop asleep on a stale list.
- `SelectRuns.EventKept`: no run loses an event; each stays in the list, in the queue or with a worker until one of
  the listed steps takes it away.
- `SelectRuns.StopsSoon` and `RestartExactly`: a loop that is to stop ends after its pass, and starting it again
  succeeds under an exact condition.
- `TimerDispatcher.Dispatcher.Dispatch`: exactly the timers that are due fire, once each, and the list stays
  ordered.

## Where the code departs from what one expects

The model follows the code. For each of these there is a lemma, or a contract, with the exact condition under
which the expected law holds, and an input for which it fails where one is not plain.

- The adder and the multiplier size their result by the operand that is greater as a signed number
  (`core/src/bigint.cpp:499-506`). For two negative operands this is the smaller magnitude, and the result can
  wrap: `BigInt.NegativeSumWraps` (-256 + -1 gives -1), `BigInt.DifferenceWraps` (1 - -256 gives 1),
  `BigInt.NegativeProductWraps` (-1 * -257 gives 1).
  `BigInt.AddExactly`, `SubtractExactly` and `MultiplyExactly` say exactly when the result is right; for
  operands that are not negative it always is.
- The negative zero, which `BigInt.Cmp` holds to be less than zero, comes out of operations on other numbers:
  of -255 + -1, which wraps to nothing (`BigInt.NegativeZeroExactly`, `BigInt.SumToNegativeZero`), of zero times a
  negative number (`BigInt.ProductNegativeZeroExactly`), and of a quotient that is rounded to zero when the signs differ
  (`Division.QuotientNegativeZeroExactly`).
- The remainder is never negative, so quotient * divisor + remainder misses a negative dividend unless the
  divisor divides it: `Division.RecombinesExactly`, `Division.NegativeDividendMisses` (-7 by 2).
- The bytes copied for the first remainder are counted as bits / 8 (`core/src/bigint.cpp:681`), while the
  register has (bits - 1) / 8 + 1 (line 673). They agree only if the bit length of the divisor is no multiple
  of 8: `Division.PrefixIndex`. `Division.LongDivideModulo` copies as many bytes as the register has.
- A negative zero is printed without its sign, so parsing gives the positive zero: `Parsing.RoundTrip`.
- The test for four bytes of UTF-8 (`html/src/char_reference.cpp:48`) rejects bits 20 to 22, so code points of
  plane 16 throw, and lets bit 23 pass, which is then lost: `CharReference.Utf8Exactly`.
- The last byte of padding is only asked not to exceed the block; a zero byte passes and removes nothing:
  `Padding.UnpadExactly`.
- Growing a buffer within its capacity brings the spare bytes to light, which are not zeros after it was
  shrunk: `BufferHolder.Holder.Resize` has the exact condition, `BufferHolder.GrowAgain` an instance.
- GCM counts in the last eight bytes of the block, and section 6.2 of NIST SP 800-38D in the last four:
  `GcmCounter.CountersAreStandard` for the counter blocks of a text, and `GcmCounter.TextIsStandard` the bound on
  its length, 2^36 - 32 bytes for a vector of 12 bytes, up to which both are the same.
- The writer of a cipher stream computes the GCM tag if and only if the last block is partial or nothing was
  written, since only a call marked final does so; the reader computes it if and only if there is text:
  `CipherStream.Writer.Close`, `CipherStream.Reader.ReadAll`, `CipherStream.Exchange`.
- A periodic timer moves on to the first of its times that is not before the time of the dispatch, although
  the comment says past it, so it is still due when the dispatch comes exactly at one of its times:
  `Timer.StillDue`.
- Starting the event loop again before the old loop has seen that it is to stop leaves the starting thread
  waiting until somebody terminates again: `SelectRuns.RestartExactly`, `StuckForever`, `RestartCanStick`.
- A character reference without digits, as in "&#;", is the number 0, and numbers count modulo 2^32, so that
  "&#4294967361;" is "A": `CharReference.Reference` and `CharReference.ReadNumber` say so.

In two places the source reads memory it does not own, and the model has what the code is for:

- The compressed tables are allocated with `max_state` rows and filled with `max_state + 1`, and an index outside
  the filled part is looked up (`html/src/entities_scanner_generator/entities_scanner_generator.cpp:316-350`,
  383-392). The model has the row, and counts such an index as a mismatch.
- Comparing big integers and adding to them goes on past the bytes of an operand (`core/src/bigint.cpp:193-196`,
  516-537). The model compares exactly the bytes there are, and counts those above the top as zero.

## Model

| member | source | states |
|---|---|---|
| FieldElement.Carry | crypto/src/x25519.cpp:159-176 | one pass over the limbs in place leaves each limb its low 16 bits with the carry of the limbs below, and folds the last carry into limb 0 times 38; no intermediate leaves 64 bits for limbs within 2^62 |
| FieldElement.CarriedValue | crypto/src/x25519.cpp:159-176 | the pass changes the represented integer by an exact multiple of 2^256 - 38 |
| FieldElement.CarriedFe | crypto/src/x25519.cpp:159-176 | so it preserves the field element, the value modulo 2^255 - 19 |
| FieldElement.TwoCarries | crypto/src/x25519.cpp:318-319 | two passes bring any limbs within 2^62 to limbs in [-38, 2^16 + 38) |
| FieldElement.Add | crypto/src/x25519.cpp:278-286 | the sum of two elements is the sum in the field, with limbs bounded by the sum of the bounds |
| FieldElement.Sub | crypto/src/x25519.cpp:288-296 | the difference of two elements is the difference in the field |
| FieldElement.Products | crypto/src/x25519.cpp:301-309 | the doubly nested accumulation is schoolbook multiplication: the 31 columns have the value of the product, and every partial sum fits in 64 bits |
| FieldElement.Fold | crypto/src/x25519.cpp:310-317 | folding the upper columns times 38 keeps the value modulo 2^255 - 19 |
| FieldElement.Mul | crypto/src/x25519.cpp:298-321 | for limbs below the bound the ladder keeps, the result is the product modulo 2^255 - 19, with limbs in [-38, 2^16 + 38) |
| ConditionalSwap.MaskedExchange | crypto/src/x25519.cpp:150-156 | exclusive or with the masked difference exchanges two 64-bit words when the mask is all ones and keeps them when it is zero |
| ConditionalSwap.Swap | crypto/src/x25519.cpp:147-157 | the branch-free swap exchanges all limbs of two elements if and only if the bit is set |
| Inversion.Inverse | crypto/src/x25519.cpp:323-334 | the 254 iterations raise the argument to the power p - 2 |
| Inversion.ExponentFinal | crypto/src/x25519.cpp:327-332 | the exponent built by squaring each time and multiplying except in iterations 2 and 4 is 2^255 - 21 |
| Packing.Unpack | crypto/src/x25519.cpp:70-86 | 32 bytes become their little-endian number without its top bit; any other size is the error the code throws |
| Packing.ThirdCarry | crypto/src/x25519.cpp:98 | after the two passes of a multiplication one more leaves every limb in [0, 2^16) |
| Packing.SubtractedValue | crypto/src/x25519.cpp:102-109 | the borrow-driven limbs represent the element minus p |
| Packing.SubtractPrime | crypto/src/x25519.cpp:101-111 | one round subtracts p if and only if the element is at least p |
| Packing.Pack | crypto/src/x25519.cpp:88-124 | for any limbs within 2^62 the 32 bytes are the little-endian representative of the element in [0, p) |
| Packing.PackingIsCanonical | crypto/src/x25519.cpp:88-124 | packed elements are equal byte strings if and only if the elements are congruent |
| Ladder.LimbBit | crypto/src/x25519.cpp:249 | limb i / 16 shifted by i mod 16 gives bit i of the scalar |
| Ladder.StepAgrees | crypto/src/x25519.cpp:252-269 | the operations of one iteration in the order of the code compute the ladder step of section 5 of RFC 7748 |
| Ladder.Step | crypto/src/x25519.cpp:252-269 | one iteration over limb arrays is the step of RFC 7748 in the field, and keeps every limb within the bounds multiplication needs |
| Ladder.SwapsCompose | crypto/src/x25519.cpp:249-271 | swapping, stepping and swapping back is one iteration of the deferred-swap ladder of RFC 7748, whose pending swap is the bit just used |
| Ladder.Climb | crypto/src/x25519.cpp:248-272 | the loop over bits 254 to 0 reaches the state of the RFC 7748 ladder on the clamped scalar |
| Ladder.ClampHighAgrees | crypto/src/x25519.cpp:239 | masking the top limb clamps the last byte as RFC 7748 does (bit 255 was dropped by unpacking) |
| Ladder.ClampLowAgrees | crypto/src/x25519.cpp:238 | masking the bottom limb clamps the first byte as RFC 7748 does |
| Ladder.Mult | crypto/src/x25519.cpp:226-276 | the result is the affine coordinate x2 * z2^(p-2) of the RFC 7748 ladder |
| Ladder.X25519 | crypto/src/x25519.cpp:200-224 | from bytes to bytes: the shared value is the function of section 5 of RFC 7748, and wrong sizes are errors |
| CurveLaw.Doubling | crypto/src/x25519.cpp:252-269 | without the formulas of the step: modulo p it takes the first point to x' = (x^2 - z^2)^2 and z' = 4xz(x^2 + 486662xz + z^2), the doubling on the curve with coefficient 486662 |
| CurveLaw.Addition | crypto/src/x25519.cpp:252-269 | and the second to x' = 4(x2 x3 - z2 z3)^2 and z' = 4 x1 (x2 z3 - z2 x3)^2, the sum of two points that differ by x1 |
| Trie.AddStateValid | html/src/entities_scanner_generator/entities_scanner_generator.cpp:180-183 | a new intermediate state keeps the table a trie whose states are the distinct words leading to them |
| Trie.AddEndValid | html/src/entities_scanner_generator/entities_scanner_generator.cpp:160-176 | an end state keeps it a trie |
| Trie.StateCount | html/src/entities_scanner_generator/entities_scanner_generator.cpp:180-190 | a table has exactly one state for each proper prefix of a pattern |
| Scanner.Generator.AddPattern | html/src/entities_scanner_generator/entities_scanner_generator.cpp:158-192 | adding one pattern in place to the table either makes the trie spell that pattern too, or stops because the patterns are not prefix-free or the states are exhausted |
| Scanner.Generator.Generate | html/src/entities_scanner_generator/entities_scanner_generator.cpp:149-193 | generation succeeds if and only if the patterns are prefix-free and their proper prefixes fit the table; the table then spells exactly the patterns, the last index winning on duplicates |
| Scanner.Generator.Scan | html/src/entities_scanner_generator/entities_scanner_generator.cpp:218-224 | the scan loop over the table computes the verdict of recognition |
| Scanner.RecognisedExactly | html/src/entities_scanner_generator/entities_scanner_generator.cpp:149-193 | for every prefix-free list the scan ends in state -i if and only if a prefix of the input is pattern i, and i its last index, and in a positive state if and only if the input is a proper prefix of a pattern |
| Scanner.Generator.RowBounds | html/src/entities_scanner_generator/entities_scanner_generator.cpp:334-339 | the bounds of a row enclose its non-zero entries |
| Scanner.Generator.CompressRow | html/src/entities_scanner_generator/entities_scanner_generator.cpp:333-350 | one row is appended to the compressed tables in a block of its own, and the rows before it stay |
| Scanner.Generator.GenerateCompressed | html/src/entities_scanner_generator/entities_scanner_generator.cpp:328-350 | every row, the last one included, is represented: looking up through shifts and checks gives the entry of the table |
| Scanner.Generator.ScanCompressed | html/src/entities_scanner_generator/entities_scanner_generator.cpp:383-392 | on every ASCII input the scan of the compressed tables ends in the state of the uncompressed scan |
| CharReference.ScanVerdict | html/src/char_reference.cpp:120-138 | a negative state names the one entity at the head of the text, any other state means there is none |
| CharReference.Utf8Exactly | html/src/char_reference.cpp:35-56 | the bytes written decode to the code point if and only if it is below 0x100000; code points of plane 16 throw |
| CharReference.ReadNumber | html/src/char_reference.cpp:80-109 | the digit loops read the maximal run of digits and its number modulo 2^32 |
| NumericReference.NumeralRoundTrip | html/src/char_reference.cpp:74-109 | every number below 2^32, written in decimal, or in base sixteen with digits of either case behind either prefix, is read back as itself: the text becomes the bytes of that code point |
| NumericReference.DigitsAre | html/src/char_reference.cpp:82-84 | the digits of either base are the characters of its alphabets and no others |
| CharReference.ReadReference | html/src/char_reference.cpp:74-138 | the reference at an ampersand is decoded as the grammar says, or is ambiguous |
| CharReference.Unescape | html/src/char_reference.cpp:65-152 | the whole loop computes the text with every reference replaced and every ambiguous ampersand kept, or the error of an unencodable code point |
| CharReference.GenerateAndUnescape | html/src/char_reference.cpp:65-152 | generating the table, compressing it and decoding with it replaces exactly the references to the listed names and numbers; it fails if and only if the names need more states than the table has |
| Magnitude.Bits | core/src/bigint.cpp:283-300 | the number of bits of the value, one for zero |
| Magnitude.AbsCmp | core/src/bigint.cpp:360-389 | the order of the magnitudes, whatever leading zeros the operands have |
| Magnitude.AddBytes | core/src/bigint.cpp:506-538 | ripple addition gives the sum modulo the range of the result |
| Magnitude.RippleSubtractor | core/src/bigint.cpp:541-583 | ripple subtraction gives the difference modulo the range of the minuend |
| Magnitude.Resize | core/src/bigint.cpp:332-358 | the value is kept, and the size is the new one exactly when the value fits |
| Magnitude.Compact | core/src/bigint.cpp:307-330 | the value is kept, in as few bytes as it has |
| BigInt.CompareExactly | core/src/bigint.cpp:168-212 | the comparison of signs and magnitudes orders the integers, but for the two zeros |
| BigInt.Cmp | core/src/bigint.cpp:168-212 | the comparison operator orders two integers by sign and magnitude, whatever leading zeros they have |
| BigInt.AdderExactly | core/src/bigint.cpp:491-539 | the adder, which sizes its result by the operand that is greater as a signed number, is exact if and only if the sum fits beside that operand, and always for operands that are not negative |
| BigInt.Add | core/src/bigint.cpp:391-443 | addition by cases of sign gives the specified sign and magnitude |
| BigInt.AddExactly | core/src/bigint.cpp:391-443 | addition is the integer sum if and only if an operand is not negative or the sum of magnitudes fits the bytes of the smaller one |
| BigInt.NegativeSumWraps | core/src/bigint.cpp:499-506 | -256 + -1 comes out as -1 |
| BigInt.NegativeZeroExactly | core/src/bigint.cpp:391-489 | of operands that are not negative zeros, a sum is the negative zero if and only if both are negative and it wraps to nothing, a difference if and only if a negative operand less a positive one does; so 5 + -5 is the positive zero |
| BigInt.SumToNegativeZero | core/src/bigint.cpp:499-506 | -255 + -1 is an input for it |
| BigInt.Subtract | core/src/bigint.cpp:445-489 | subtraction by cases of sign gives the specified sign and magnitude |
| BigInt.SubtractExactly | core/src/bigint.cpp:445-489 | subtraction is the integer difference if and only if the signs agree or the sum of magnitudes fits the bytes of the positive operand |
| BigInt.DifferenceWraps | core/src/bigint.cpp:445-489 | 1 - -256 comes out as 1 |
| BigInt.ShiftLeft | core/src/bigint.cpp:728-761 | shifting left multiplies the value by 2^pos, growing as needed |
| BigInt.ShiftRight | core/src/bigint.cpp:763-793 | shifting right divides the value by 2^pos, rounding down |
| BigInt.LongMultiply | core/src/bigint.cpp:594-630 | the loop over bits adds the doublings of the larger operand that the bits of the smaller one select |
| BigInt.Multiply | core/src/bigint.cpp:585-592 | multiplication gives the magnitude of the loop, and the sign of a product |
| BigInt.MultiplyExactly | core/src/bigint.cpp:585-630 | the product is exact if and only if an operand is not negative or, for each bit of the operand farther from zero, the product with its bits up to there fits the bytes, and a carry, of the product with the bits below |
| BigInt.AdditionsFitExactly | core/src/bigint.cpp:594-630 | the additions of the run of the loop all fit if and only if that holds for every bit |
| BigInt.NegativeProductWraps | core/src/bigint.cpp:594-630 | -1 * -257 comes out as 1 |
| BigInt.ProductNegativeZeroExactly | core/src/bigint.cpp:585-592 | of operands that are not negative zeros, a product is the negative zero if and only if their signs differ and one of them is zero |
| BigInt.Exp | core/src/bigint.cpp:849-882 | exponentiation by squaring is the power, for any base and any exponent that is not negative; otherwise zero |
| Division.PrefixIndex | core/src/bigint.cpp:673-687 | the copied prefix has the bytes of the register exactly when the bit length of the divisor is no multiple of 8 |
| Division.BringDown | core/src/bigint.cpp:698-724 | bringing down one bit keeps the relation between the quotient, the remainder and the bits of the dividend read so far |
| Division.DivideStep | core/src/bigint.cpp:701-705 | from a remainder below twice the divisor, one step restores quotient * divisor + remainder with a remainder below the divisor |
| Division.LongDivideModulo | core/src/bigint.cpp:653-726 | dividend = quotient * divisor + remainder with 0 <= remainder < divisor; false if and only if the divisor is zero |
| Division.DivideModulo | core/src/bigint.cpp:632-651 | division of magnitudes with the signs put aside; the sign of the quotient is that of a product, and the remainder is not negative |
| Division.RecombinesExactly | core/src/bigint.cpp:632-651 | quotient * divisor + remainder is the dividend again if and only if the dividend is not negative or a multiple of the divisor |
| Division.NegativeDividendMisses | core/src/bigint.cpp:632-651 | -7 divided by 2 is -3 with remainder 1, which recombine to -5 |
| Division.DivisionUnique | core/src/bigint.cpp:653-726 | the quotient and remainder are those of Euclidean division of the magnitudes |
| Division.QuotientNegativeZeroExactly | core/src/bigint.cpp:632-651 | a quotient is the negative zero if and only if the signs differ and the dividend is smaller than the divisor in magnitude |
| Decimal.NumeralReads | core/src/bigint.cpp:884-959 | the minimal decimal numeral of a number reads back as the number |
| Decimal.DigitsAre | core/src/bigint.cpp:73-79 | the digits are the ten characters from 0 to 9, and each has its own value |
| Decimal.DoubleDabble | core/src/bigint.cpp:914-921 | adding three to every digit above four and doubling doubles the decimal number |
| Decimal.HalveDabble | core/src/bigint.cpp:102-109 | halving and taking three off every digit above seven halves the decimal number |
| Printing.ShiftHalfway | core/src/bigint.cpp:908-909 | doubling the scratch space moves one bit of the number from the binary to the decimal part |
| Printing.HexDigitsNumeral | core/src/bigint.cpp:924-957 | the half bytes without leading zeros are the minimal numeral |
| Printing.Print | core/src/bigint.cpp:884-959 | the output is the minimal decimal numeral of the value with its sign, at any length |
| Parsing.PackDigits | core/src/bigint.cpp:65-93 | the digits of the string are packed into half bytes in order |
| Parsing.ShiftDraining | core/src/bigint.cpp:99-110 | halving the buffer moves one bit from the decimal to the binary part |
| Parsing.Parse | core/src/bigint.cpp:40-115 | the value is that of the maximal digit run after an optional sign, in as few bytes as it has |
| Parsing.RoundTrip | core/src/bigint.cpp:40-115 | parsing the printed form gives the same sign and magnitude if and only if the number is not the negative zero |
| BigInteger.Integer.AddAssign | core/src/bigint.cpp:226-231 | the object takes the sum of its old value and the operand |
| BigInteger.Integer.SubtractAssign | core/src/bigint.cpp:233-238 | the object takes the difference |
| BigInteger.Integer.MultiplyAssign | core/src/bigint.cpp:240-245 | the object takes the product |
| BigInteger.Integer.DivideAssign | core/src/bigint.cpp:247-256 | the object takes the Euclidean quotient of magnitudes with its sign; a zero divisor is an error that changes nothing |
| BigInteger.Integer.ModuloAssign | core/src/bigint.cpp:258-267 | the object takes the remainder of magnitudes, never negative |
| BigInteger.Integer.ShiftLeftAssign | core/src/bigint.cpp:269-274 | the object is multiplied by 2^pos |
| BigInteger.Integer.ShiftRightAssign | core/src/bigint.cpp:276-281 | the object is divided by 2^pos |
| BigInteger.Integer.DropZeros | core/src/bigint.cpp:307-330 | the object keeps its value in as few bytes as it has |
| BigInteger.AddThenSubtract | core/src/bigint.cpp:391-489 | subtracting what was added leads back, to the same sign and magnitude, for operands that are not negative |
| BigInteger.DivideThenRecombine | core/src/bigint.cpp:585-726 | quotient times divisor plus remainder, by the operators, is the dividend, for operands that are not negative |
| Shifts.ShiftLeftInPlace | core/src/buffer.cpp:699-716 | moving whole bytes and then bits up multiplies the value by 2^pos, as far as it fits |
| Shifts.ShiftRightInPlace | core/src/buffer.cpp:733-750 | moving whole bytes and then bits down divides the value by 2^pos |
| BufferShift.ShiftLeft | core/src/buffer.cpp:686-718 | shifting a buffer left in place multiplies its big-endian value by 2^pos modulo its range, for any distance, also past its size |
| BufferShift.ShiftRight | core/src/buffer.cpp:720-752 | shifting a buffer right in place is floor division of its value by 2^pos, for any distance, also past its size |
| BufferHolder.Holder.Resize | core/src/buffer.cpp:275-298 | the contents are kept up to the new size; new bytes are zeros if and only if the capacity is exceeded or the spare bytes were zeros, as they are as long as nothing was taken away before |
| BufferHolder.Holder.Insert | core/src/buffer.cpp:320-338 | a range of bytes stands at its place between what was before and after it |
| BufferHolder.Holder.Fill | core/src/buffer.cpp:300-318 | a number of equal bytes stands between what was before and after their place |
| BufferHolder.Holder.Erase | core/src/buffer.cpp:362-376 | the bytes before and after the erased ones are joined |
| BufferHolder.InsertErase | core/src/buffer.cpp:320-376 | erasing what was inserted and inserting what was erased lead back to the same contents |
| BufferHolder.GrowAgain | core/src/buffer.cpp:275-298 | growing again within the capacity after shrinking to nothing brings the old bytes back, an instance where the new bytes are not zeros |
| ByteXor.XorInPlace | core/src/buffer.cpp:671-684 | the buffer becomes the exclusive or with the operand, byte by byte; an operand that is too short is the error the code throws, and changes nothing |
| ByteXor.XorTwice | core/src/buffer.cpp:671-684 | the same operand takes a buffer back |
| Padding.Pad | crypto/src/padding.cpp:50-71 | the data followed by as many bytes, of that value, as make whole blocks; a full block when the data ends on one |
| Padding.Unpad | crypto/src/padding.cpp:73-97 | the data without as many last bytes as the last one says, if all of these have that value and there are no more than a block; otherwise the error the code throws |
| Padding.PadRoundTrip | crypto/src/padding.cpp:50-97 | unpadding takes padding off |
| Padding.UnpadExactly | crypto/src/padding.cpp:73-97 | whole blocks unpad to x if and only if they are the padding of x, or end in a zero byte and are x |
| Counter.FromValue | crypto/src/types.cpp:38-48 | the last eight bytes, or as many as there are, hold the value, most significant byte first; the bytes before them are zero |
| Counter.Increment | crypto/src/types.cpp:50-62 | the carry loop adds one in the last eight bytes, in place |
| Counter.StepsValue | crypto/src/types.cpp:50-62 | after n steps the last eight bytes have moved by n modulo 2^64, and the others not at all |
| Counter.CountersRepeat | crypto/src/types.cpp:50-62 | two counters of a run are equal if and only if their distance is a multiple of 2^64 |
| BlockMode.BlockRoundTrip | crypto/src/block_cipher.cpp:196-570 | deciphering one block takes enciphering back in each of the five modes |
| BlockMode.RoundTrip | crypto/src/block_cipher.cpp:69-127 | deciphering a whole text gives back any message: with any invertible block cipher under ECB and CBC with padding, with any block function under CFB, CTR and GCM |
| BlockMode.CounterStream | crypto/src/block_cipher.cpp:518-570 | CTR and GCM combine each block of text with the enciphered counter block of its own, as section 6.5 of NIST SP 800-38A has it |
| ChainedModes.EncryptedChained | crypto/src/block_cipher.cpp:188-505 | over the whole cipher text of any message, C[-1] being the vector: ECB has C[i] = forward(P[i]), CBC C[i] = forward(P[i] xor C[i-1]), CFB C[i] = P[i] xor forward(C[i-1]); the last block is padded under ECB and CBC, and may be short under CFB |
| BlockMode.CountersDistinct | crypto/src/block_cipher.cpp:536 | the enciphered counter blocks repeat exactly every 2^64 blocks |
| CipherMode.Create | crypto/src/block_cipher.cpp:188-702 | a mode object in its starting state, or the errors of the constructors for keying material of the wrong size |
| CipherMode.Mode.Encrypt | crypto/src/block_cipher.cpp:69-97 | one call gives the block of cipher text of the mode, and moves its register, its padding mark, the hashed text and the tag as specified |
| CipherMode.Mode.Decrypt | crypto/src/block_cipher.cpp:99-127 | one call gives the block of plain text, or the padding error, and moves the register, the hashed text and the tag |
| CipherMode.Mode.PreludeEncrypt | crypto/src/block_cipher.cpp:196-319 | what each mode feeds to the cipher: the padded and chained text, or the register |
| CipherMode.Mode.PostludeEncrypt | crypto/src/block_cipher.cpp:216-746 | what each mode makes of the output, and how its register moves |
| CipherMode.Mode.PostludeDecrypt | crypto/src/block_cipher.cpp:237-790 | what each mode makes of the output when deciphering, and how its register moves, with padding taken off the final block |
| CipherMode.Mode.AbsorbText | crypto/src/block_cipher.cpp:728-743 | one block of cipher text of at most 16 bytes, zero-padded, goes into the hash, which then covers all text so far; a final block computes the tag |
| CipherMode.Mode.Authenticate | crypto/src/block_cipher.cpp:801-816 | the tag is that of section 7.1 of NIST SP 800-38D for the data and the text hashed so far |
| CipherStream.Writer.Put | crypto/src/block_cipher.cpp:982-996 | a character goes into the put area, and a full block to the chained buffer |
| CipherStream.Writer.Sync | crypto/src/block_cipher.cpp:998-1025 | what is waiting is enciphered and handed on, with the code returned |
| CipherStream.Writer.Write | crypto/src/block_cipher.cpp:982-996 | writing a string in any pieces keeps what is out the cipher text of the full blocks |
| CipherStream.Writer.Close | crypto/src/block_cipher.cpp:929-934 | after closing, the chained buffer holds the cipher text of all bytes written; the GCM tag was computed if and only if the last block was partial or nothing was written |
| CipherStream.Reader.Underflow | crypto/src/block_cipher.cpp:936-980 | the next character of the plain text, its end, or the padding error, reading one block at a time |
| CipherStream.Reader.ReadAll | crypto/src/block_cipher.cpp:936-980 | reading to the end gives the plain text of the whole, and the tag of the text unless it is empty |
| CipherStream.Exchange | crypto/src/block_cipher.cpp:929-1025 | any message written, closed and read back with the same keying material is unchanged in every mode, and exactly when sender and receiver have a tag, which is then the same |
| GcmText.Encipher | crypto/src/block_cipher.cpp:704-746 | for every data and text, enciphering block by block with the last block, whole or partial, marked final gives the cipher text and the one-shot tag of section 7.1 of NIST SP 800-38D |
| GcmText.Decipher | crypto/src/block_cipher.cpp:748-790 | deciphering block by block in the same way gives the plain text and the same one-shot tag |
| GcmText.Exchange | crypto/src/block_cipher.cpp:704-816 | any message comes back, and sender and receiver have the same tag, that of the cipher text |
| CipherStream.NextBlock | crypto/src/block_cipher.cpp:944-973 | reading a block leaves the plain text that which came out already and that of the rest |
| BinaryPolynomial.RemainderUnique | crypto/src/block_cipher.cpp:869-897 | a remainder of degree below that of the modulus is unique |
| BinaryPolynomial.ProductCommutes | crypto/src/block_cipher.cpp:869-897 | the product of polynomials over two elements commutes |
| GaloisField.Mult | crypto/src/block_cipher.cpp:869-897 | the loop over 128 bits, shifting and adding in place, computes the product function |
| GaloisField.TimesExactly | crypto/src/block_cipher.cpp:869-897 | a block is the product if and only if it is congruent to the product of the polynomials modulo x^128 + x^7 + x^2 + x + 1 |
| GaloisField.TimesCommutes | crypto/src/block_cipher.cpp:869-897 | the product of blocks commutes |
| GaloisField.TimesDistributes | crypto/src/block_cipher.cpp:869-897 | the product is linear in each argument under exclusive or |
| GcmHash.Ghash | crypto/src/block_cipher.cpp:818-867 | the hash of two strings, each padded to whole blocks |
| GcmHash.HashConcat | crypto/src/block_cipher.cpp:818-867 | hashing block by block from where the hash stands is hashing the concatenation at once |
| GcmHash.HashFurther | crypto/src/block_cipher.cpp:728-732 | one more block of text extends the one-shot hash over padded data and padded text |
| GcmPolynomial.HashIs | crypto/src/block_cipher.cpp:818-867 | the hash of m blocks is the sum of block i times the power m - i of the key, and of the start value times the power m |
| GcmPolynomial.TagIs | crypto/src/block_cipher.cpp:801-816 | the tag is the sum of the blocks of the padded data, the padded text and the lengths, each times its power of the hash key, and of the enciphered first counter block |
| GcmPolynomial.LengthsAre | crypto/src/block_cipher.cpp:804-810 | the last block is the number 8a * 2^64 + 8c for a bytes of data and c bytes of text |
| GcmHash.Start | crypto/src/block_cipher.cpp:668-686 | the first counter block: the vector with a one appended for 12 bytes, the hash of the padded vector and its length otherwise |
| GcmHash.CounterIsStandard | crypto/src/block_cipher.cpp:715 | one step over eight bytes is one over four if and only if the last four bytes are not all full |
| GcmCounter.CountersAreStandard | crypto/src/types.cpp:50-62 | the first n counter blocks after a block are all those of section 6.2 of NIST SP 800-38D if and only if the number in its last four bytes plus n stays below 2^32 |
| GcmCounter.TextIsStandard | crypto/src/block_cipher.cpp:704-717 | with a vector of 12 bytes the counter blocks of a text are those of the standard if and only if the text has at most 2^36 - 32 bytes |
| AesTables.InvSboxSbox | crypto/src/aes.cpp:280-319 | the inverted box undoes the box, for all 256 bytes |
| AesTables.SboxInvSbox | crypto/src/aes.cpp:280-319 | the box undoes the inverted box, for all 256 bytes |
| AesTables.AlogLog | crypto/src/aes.cpp:627-663 | every element but 0 is the power its logarithm says |
| AesTables.AlogStep | crypto/src/aes.cpp:646-663 | each entry of the power table is three times the one before, in the field |
| AesSbox.InverseIs | crypto/src/aes.cpp:280-319 | the inverse in the field, found by logarithm and power, has product 1 with its element under both multiplications; 0 goes to itself |
| AesSbox.SboxIs | crypto/src/aes.cpp:280-297 | every entry of the box is the affine map of section 5.1.1 of FIPS 197 applied to the inverse in the field |
| AesField.GfMul | crypto/src/aes.cpp:682-699 | the loop of shifting and adding computes the sum of the selected doublings |
| AesField.TablesAgree | crypto/src/aes.cpp:665-699 | the multiplication by tables equals the multiplication by shifting and adding on all pairs of bytes |
| AesMix.UnmixMix | crypto/src/aes.cpp:507-619 | the inverse column matrix undoes the column matrix over the field of 256 elements |
| Aes.SubBytesInverse | crypto/src/aes.cpp:540-552 | the inverse substitution undoes the substitution |
| Aes.ShiftRowsInverse | crypto/src/aes.cpp:554-586 | the inverse row rotation undoes the row rotation |
| Aes.MixColumnsInverse | crypto/src/aes.cpp:588-619 | the inverse column step undoes the column step |
| Aes.RoundsInverse | crypto/src/aes.cpp:366-372 | the inverse rounds take the state of any number of rounds back |
| Aes.InverseForward | crypto/src/aes.cpp:334-377 | the inverse cipher undoes the cipher for every block, all round keys and any number of rounds |
| AesCipher.SubBytesInPlace | crypto/src/aes.cpp:459-471 | the loop substitutes every byte of the state |
| AesCipher.ShiftRowsInPlace | crypto/src/aes.cpp:473-505 | the exchanges of bytes rotate row r by r places |
| AesCipher.MixColumnsInPlace | crypto/src/aes.cpp:507-538 | the loop multiplies every column by the matrix of section 5.1.3 of FIPS 197 |
| AesCipher.InvSubBytesInPlace | crypto/src/aes.cpp:540-552 | the loop replaces every byte of the state by its inverse substitute |
| AesCipher.InvShiftRowsInPlace | crypto/src/aes.cpp:554-586 | the exchanges of bytes rotate row r by r places the other way |
| AesCipher.InvMixColumnsInPlace | crypto/src/aes.cpp:588-619 | the loop multiplies every column by the matrix of section 5.3.3 of FIPS 197 |
| AesCipher.AddRoundKeyInPlace | crypto/src/aes.cpp:444-457 | the round key is added column by column |
| AesBlock.Forwards | crypto/src/aes.cpp:334-355 | the loop of rounds is the cipher of section 5.1 of FIPS 197 between the two byte orders |
| AesBlock.Backwards | crypto/src/aes.cpp:357-377 | the loop of inverse rounds is the inverse cipher of section 5.3 of FIPS 197 between the two byte orders |
| AesBlock.KeyExpansion | crypto/src/aes.cpp:379-417 | the word list is the key schedule of section 5.2 of FIPS 197, for all three key sizes; a key of another size is the error the code throws |
| AesBlock.RconDoubles | crypto/src/aes.cpp:264-275 | the round constants are the powers of x |
| AesBlock.Encipher | crypto/src/aes.cpp:334-355 | from key and block: the cipher under the scheduled keys |
| AesBlock.Decipher | crypto/src/aes.cpp:357-377 | from key and block: the inverse cipher under the scheduled keys |
| AesBlock.AesInverts | crypto/src/aes.cpp:334-377 | AES is a cipher as the modes ask for, so every statement about them holds of it |
| AesExamples.ShiftRowsExample | crypto/src/aes.cpp:473-505 | the rows are rotated as in the first round of appendix C.1 of FIPS 197 |
| AesExamples.MixColumnsExample | crypto/src/aes.cpp:507-538 | the first column is mixed as there |
| AesExamples.ScheduleExample | crypto/src/aes.cpp:379-417 | the first new word of the key of appendix A.1 of FIPS 197 |
| AesExamples.MixedExample | crypto/src/aes.cpp:379-417 | words 8 and 12 of the schedule of appendix A.3 of FIPS 197 before the addition: the two branches for long keys |
| BlockFold.ProgressBlock | crypto/src/sha.cpp:281-294 | a full block may be hashed as soon as it is there, whatever follows |
| Sha.Hash.Update | crypto/src/sha.cpp:272-298 | any chunk, with SHA-2 at 801-832: the state has come to the full blocks of all that was given, the rest is waiting, and the length is counted in two words with carry |
| Sha.CountCarry | crypto/src/sha.cpp:826-831 | the carry test on the low word counts exactly |
| Sha.Hash.Pad | crypto/src/sha.cpp:850-886 | the block gets the one bit, zeros and the length, or says that the length does not fit |
| Sha.LengthWords | crypto/src/sha.cpp:875-882 | the two words are the 16 bytes of the length, the low one alone its last eight |
| Sha.Hash.Close | crypto/src/sha.cpp:834-848 | after any updates the state is the fold of the compression function over the blocks of the padded message, section 5.1 of FIPS 180-4; the same loop as in 300-313 |
| Sha.PadOne | crypto/src/sha.cpp:324-345 | when the length fits after the data, the one block of padding is that of section 5.1 of FIPS 180-4 |
| Sha.PadTwo | crypto/src/sha.cpp:333-337 | when the length does not fit after the data, the two blocks of padding are those of section 5.1 of FIPS 180-4 |
| MessageSchedule.NextWindow | crypto/src/sha.cpp:940-951 | the next word from the window of sixteen is the next word of the full schedule |
| MessageSchedule.NextWord | crypto/src/sha.cpp:431-441 | the 17-word array, shifted down in place, holds the last words of the full schedule |
| MessageSchedule.Run | crypto/src/sha.cpp:936-963 | the rounds with the window are the rounds with the full schedule, for any round count |
| ShaFunctions.Sha1Compute | crypto/src/sha.cpp:362-472 | the computation of a block is the SHA-1 function of section 6.1 of FIPS 180-4 |
| ShaFunctions.Sha2Compute | crypto/src/sha.cpp:887-1014 | the computation of a block is the SHA-2 function of sections 6.2 and 6.4 of FIPS 180-4, for words of 32 and 64 bits |
| ShaDigest.HashParts | crypto/src/sha.cpp:801-848 | however a message is split into updates, the state is that of the whole |
| ShaWords.Word32Is | crypto/src/sha.cpp:381-387 | a word is the number its four bytes spell, high byte first |
| ShaWords.Word64Is | crypto/src/sha.cpp:907-913 | a word is the number its eight bytes spell, high byte first |
| ShaWords.Bytes32Is | crypto/src/sha.cpp:1031-1039 | the bytes of a word in the digest spell it, high byte first |
| ShaWords.Bytes64Is | crypto/src/sha.cpp:1031-1039 | the same for words of 64 bits |
| ShaWords.ChIs | crypto/src/sha.cpp:485-489 | the choice has the bits of the second word where the first has ones, those of the third elsewhere |
| ShaWords.MajIs | crypto/src/sha.cpp:497-501 | the majority has the bits at least two of the words have |
| ShaWords.BigSigma0Bits | crypto/src/sha.cpp:1070-1075 | single bits go where section 4.1.2 of FIPS 180-4 sends them; likewise for the other seven sums of rotated words |
| ShaConstants.K32Are | crypto/src/sha.cpp:547-559 | the constants are the first 32 bits of the fractional parts of the cube roots of the first 64 primes |
| ShaConstants.K64Are | crypto/src/sha.cpp:560-588 | the constants are the first 64 bits of the fractional parts of the cube roots of the first 80 primes |
| ShaConstants.Iv256Are | crypto/src/sha.cpp:516-519 | the initial values are the first 32 bits of the fractional parts of the square roots of the first eight primes |
| ShaConstants.Iv512Are | crypto/src/sha.cpp:525-529 | the initial values are the first 64 bits of the fractional parts of the square roots of the first eight primes |
| ShaConstants.Iv384Are | crypto/src/sha.cpp:520-524 | those of the ninth to the sixteenth prime |
| ShaConstants.Iv224Are | crypto/src/sha.cpp:512-515 | the lower halves of those |
| ShaConstants.K1Are | crypto/src/sha.cpp:135-137 | the four constants of SHA-1 are 2^30 times the square roots of 2, 3, 5 and 10, cut off |
| ShaExamples.Sha1Round20 | crypto/src/sha.cpp:407-448 | round 20 of the message "abc"; there are such examples for a round of each kind of SHA-1, for two rounds each of SHA-256 and SHA-512, and for words of their schedules |
| ShaDigest.Sha1Parts | crypto/src/sha.cpp:272-360 | the SHA-1 digest of a message in parts is that of the whole |
| ShaDigest.Sha2x32Parts | crypto/src/sha.cpp:736-753 | the SHA-224 and SHA-256 digests of a message in parts, with their own initial values and sizes, are those of the whole |
| ShaDigest.Sha2x64Parts | crypto/src/sha.cpp:755-786 | the SHA-384, SHA-512, SHA-512/224 and SHA-512/256 digests of a message in parts, with their own initial values and sizes, are those of the whole |
| KeccakPermutation.OffsetWalk | crypto/src/keccak.cpp:216-217 | the offsets along the walk are those of table 2 of FIPS 202 |
| KeccakPermutation.WalkStep | crypto/src/keccak.cpp:218-220 | the coordinates of the code visit the lanes in the order of the walk |
| KeccakPermutation.ArrivalWalk | crypto/src/keccak.cpp:216-221 | the walk visits every lane but the first |
| KeccakRounds.ThetaInPlace | crypto/src/keccak.cpp:198-208 | column by column in place, theta of section 3.2.1 of FIPS 202 |
| KeccakExamples.MixingExample | crypto/src/keccak.cpp:198-208 | a single one goes to the column after it as it is, and to the column before it turned by one |
| KeccakRounds.RhoUpdate | crypto/src/keccak.cpp:216-221 | each step of the walk rotates one lane that was not rotated before |
| KeccakRounds.RhoInPlace | crypto/src/keccak.cpp:213-223 | walking over the lanes rotates each by its own offset, rho of section 3.2.2 |
| KeccakRounds.PiUpdate | crypto/src/keccak.cpp:235-243 | the lane the walk comes to is still the old one and takes the lane the walk comes from |
| KeccakRounds.PiInPlace | crypto/src/keccak.cpp:231-245 | walking with one lane held back is the simultaneous permutation pi of section 3.2.3 |
| KeccakRounds.ChiInPlace | crypto/src/keccak.cpp:250-262 | row by row in place, chi of section 3.2.4 |
| KeccakExamples.ChiRowIs | crypto/src/keccak.cpp:250-262 | each lane of a row with the two after it, around |
| KeccakExamples.ChiExample | crypto/src/keccak.cpp:250-262 | two rows of the second round of the permutation of the zero state |
| KeccakRounds.Permute | crypto/src/keccak.cpp:193-275 | the loop over the round constants is the 24 rounds of section 3.3 of FIPS 202 |
| KeccakConstants.RoundConstantIs | crypto/src/keccak.cpp:75-84 | the 24 constants are those of the shift register of section 3.2.5 of FIPS 202 |
| Keccak.Sponge.Update | crypto/src/keccak.cpp:127-150 | any chunk: the state has come to the full blocks of all that was given, the rest is waiting in a block of zeros |
| Keccak.Sponge.Compute | crypto/src/keccak.cpp:175-292 | the block is added to the front of the state, which is permuted |
| Keccak.LastState | crypto/src/keccak.cpp:152-165 | the last block of the code finishes the padded message of the standard, in one block or, for a suffix with its top bit in the last byte, in two |
| Keccak.Sponge.Finalise | crypto/src/keccak.cpp:294-310 | the output is read off the state and its permutations, of any length |
| Keccak.Sponge.Close | crypto/src/keccak.cpp:152-165 | after any updates the digest is the sponge over the padded message, section 4 of FIPS 202 |
| KeccakDigest.Permutation | crypto/src/keccak.cpp:185-283 | the permutation between the bytes and the lanes of the state |
| KeccakDigest.LanesTwice | crypto/src/keccak.cpp:185-191 | bytes read as lanes, low byte first, and written again are the same bytes |
| KeccakDigest.HashParts | crypto/src/keccak.cpp:127-165 | however a message is split, its digest is that of the whole |
| KeccakDigest.Sha3Parts | crypto/src/sha.cpp:1149-1152 | a SHA-3 digest, with a capacity of twice its length, of a message in parts is that of the whole |
| SelectEvents.AddedTopics | core/src/posix/select_mechanism.cpp:97-101 | adding keeps one event to a topic, and replaces only that of its own topic |
| SelectEvents.ErasedTopics | core/src/posix/select_mechanism.cpp:110-116 | removing takes away exactly the events of the topic |
| SelectEvents.EachOnce | core/src/posix/select_mechanism.cpp:310-366 | exactly the signalled events but the own one leave the list, and each is queued once even if readable and writable |
| SelectMechanism.Mechanism.Add | core/src/posix/select_mechanism.cpp:89-103 | the event is in the list in place of its topic, and a byte is written |
| SelectMechanism.Mechanism.Remove | core/src/posix/select_mechanism.cpp:105-119 | the event is gone, and a byte is written if and only if there was one |
| SelectMechanism.Mechanism.Multiplex | core/src/posix/select_mechanism.cpp:250-272 | the descriptor sets are those the events ask for, and the maximum is theirs |
| SelectMechanism.Mechanism.Pass | core/src/posix/select_mechanism.cpp:310-337 | one pass over the list erases, captures and takes events as their readiness says |
| SelectMechanism.Mechanism.Demultiplex | core/src/posix/select_mechanism.cpp:275-383 | both passes over the list and the queueing: the list keeps what is left, the queue gains the triggered events, and the bytes read are the captures of both passes |
| SelectMechanism.Mechanism.RemoveBadf | core/src/posix/select_mechanism.cpp:385-409 | exactly the events on bad descriptors are gone |
| SelectRuns.StepKeeps | core/src/posix/select_mechanism.cpp:89-383 | whatever thread moves, its step keeps the invariant |
| SelectRuns.RunKeeps | core/src/posix/select_mechanism.cpp:135-273 | the invariant holds in every state of every run |
| SelectRuns.ListKept | core/src/posix/select_mechanism.cpp:105-119 | in every interleaving the own event stays in the list and topics stay unique |
| SelectRuns.EventKept | core/src/posix/select_mechanism.cpp:275-383 | no event is lost: in every run, an event in the list, in the queue or with a worker stays in one of them, until its topic is removed or added again while it is only in the list, its descriptor is bad or missing, or its worker is done with it |
| SelectRuns.AgainInList | core/src/posix/select_mechanism.cpp:371-379 | an event its worker gives back is in the list again |
| SelectRuns.HandsConserved | core/src/posix/select_mechanism.cpp:341-379 | the events queued or with workers, counted with repetition, grow exactly by those demultiplexed, at the end of the queue, and shrink exactly by the one a worker gives back or is done with |
| SelectRuns.BlockedIsCurrent | core/src/posix/select_mechanism.cpp:142-208 | a loop that blocks in select, no byte being unread, waits for the current list, and nobody has stopped it but a thread about to write its byte |
| SelectRuns.ByteWakes | core/src/posix/select_mechanism.cpp:167-187 | with an unread byte select does not block |
| SelectRuns.StopsSoon | core/src/posix/select_mechanism.cpp:142-207 | in every run, a loop that is to stop, wherever it is, takes at most three more steps, two when it waits, before it tests the flag, none of which blocks, and the test ends it, whatever other threads do meanwhile except start it again |
| SelectRuns.DemultiplexExactly | core/src/posix/select_mechanism.cpp:308-382 | in every reachable state demultiplexing reads at most the one byte that is there, and queues exactly the signalled events, once |
| SelectRuns.StuckForever | core/src/posix/select_mechanism.cpp:121-133 | once a thread starts the loop again before the old loop saw the flag, no further run gets it started until somebody terminates again |
| SelectRuns.RestartExactly | core/src/posix/select_mechanism.cpp:121-133 | starting the loop again leads to a new loop on some further run without another terminate if and only if the old loop is over or has seen that it is to stop, or a terminate is between its test and its store |
| SelectRuns.RestartGoesAhead | core/src/posix/select_mechanism.cpp:121-133 | when the old loop is over or leaving, in every further run the new one can start at once, or after the last step of the old one, until it does |
| SelectRuns.RestartCanStick | core/src/posix/select_mechanism.cpp:121-207 | there is a run that comes to a thread waiting for a loop that runs on |
| Timer.Timer.Start | core/src/timer.cpp:54-68 | a periodic timer from its epoch; a zero interval is the error the code throws |
| Timer.Timer.At | core/src/timer.cpp:70-78 | a once-off timer expires at its epoch |
| Timer.Timer.Stop | core/src/timer.cpp:90-95 | a stopped timer has no type and never expires; its interval and epoch stay |
| Timer.Timer.OnExpired | core/src/timer.cpp:97-119 | a periodic timer catches up, a once-off one is over |
| Timer.CaughtUpIsLeast | core/src/timer.cpp:110-112 | the new expiration is the least old expiration plus n intervals that is not before the time |
| Timer.StillDue | core/src/timer.cpp:101-112 | a periodic timer is due again at the same time if and only if that time is one of its times |
| TimerDispatcher.Dispatcher.Sort | core/src/timer_dispatcher.cpp:111-130 | exactly the active timers are left, in the order of expiration |
| TimerDispatcher.Dispatcher.Insert | core/src/timer_dispatcher.cpp:47-54 | the timer is in the ordered list, and the loop is told |
| TimerDispatcher.Dispatcher.Remove | core/src/timer_dispatcher.cpp:56-66 | the timer is gone from it, and the loop is told |
| TimerDispatcher.Dispatcher.WaitDuration | core/src/timer_dispatcher.cpp:68-86 | never more than the time to any timer, and within a millisecond of that to the first |
| TimerDispatcher.Dispatcher.Dispatch | core/src/timer_dispatcher.cpp:88-103 | fires exactly the timers that are due, each once; drops the once-off ones, moves the periodic ones on, leaves all others, and keeps the list ordered |

## Left out

- Magnitude.Bits: reads past the ends of big-integer operands are not modelled; bytes above the top count as zero, and every loop covers the exact number of bytes.
- Division.LongDivideModulo: the byte count of line 681 of core/src/bigint.cpp is not modelled where it differs from the register; `Division.PrefixIndex` says where it does.
- BigInt.ShiftRight: asks for a distance of at most the number of bits of the operand, since the source shifts past its buffer beyond that.
- Parsing.Parse: the empty string is not modelled: the constructor returns without giving the number a size or bytes.
- Scanner.Generator.Generate: patterns are ASCII, and none is a proper prefix of one listed after it: the source would go on from the negative state of the earlier one and index its table with it.
- CharReference.Unescape: asks for names that start with their only ampersand, with all other characters above it in the alphabet, as the entity list has, and for a text in ASCII; other characters index the table with a negative number.
- Ladder.X25519: random keys and timing are not modelled; the bit masks of the source are arithmetic on non-negative limbs.
- FieldElement.Carry: the shift by 16 is floor division also for negative limbs, as C++20 has it.
- CipherStream.Writer.Sync: a chained buffer that accepts only part of a block, the put-back area and reading and writing through one stream are not modelled.
- CipherStream.Exchange: one message without flushes in between, which would cut it into messages of their own with padding inside.
- CipherStream.Reader.ReadAll: cipher text under ECB and CBC comes in whole blocks; the source reads past a partial one.
- CipherMode.Mode.Authenticate: mode objects are modelled on byte sequences, so aliasing of raw blocks is not captured.
- AesBlock.Encipher: the block size is 16 bytes, as in the source, and the casts between words and bytes are fixed conversions.
- Sha.Hash.Update: a chunk has less than 2^61 bytes, so that its bits fit one word; longer messages are given in several.
- Sha.Hash.Close: closing twice and using a hash again after `reset` are not modelled.
- Keccak.Sponge.Close: SHAKE and cSHAKE output is the sponge with another suffix and length and has no digests of its own here.
- Timer.Timer.Start: times are unbounded integers, without the wrap of 64-bit clock arithmetic, and intervals are not negative.
- TimerDispatcher.Dispatcher.Sort: the order among timers of equal expiration, which `std::sort` leaves open, is left open.
- TimerDispatcher.Dispatcher.Insert: a timer is listed at most once, and clients do not change a listed timer between operations.
- SelectRuns.StepKeeps: when two threads start the loop while it runs, both join its thread, which C++ leaves undefined; the model lets each wait for the end of a loop.
- SelectRuns.RunKeeps: descriptors, pipes, threads and futures are system calls; the model has the number of unread bytes, any readiness select may report, and a pipe that is never full.
- SelectMechanism.Mechanism.Add: the lock is the atomicity of the step.
- BufferHolder.Holder.Insert: a range that lies in the buffer itself is not modelled, nor are iterators into it, the sharing of one holder by several buffers, and the binary operators that copy before they change.
- HMAC, HKDF, other ciphers and the factories compose what is proved here or register names.
- JSON, URI, UTF conversion, XPath, XML and HTML nodes: their printing and parsing is not complete enough for laws on all inputs.
- Group laws of the curve and primality of 2^255 - 19 are not in the code; the ladder is proved against its formulas and the power p - 2.
- Cryptographic strength and timing behaviour are not functional properties.
- Logging, hex dumps, samples, the user interface, sockets and the Windows mechanism.
