# Crypto++ algorithmic cores in Dafny

A model of the parts of Crypto++ 5.6.1 whose correctness rests on an invariant rather than on a formula: fast scalar
multiplication, number-theoretic algorithms, streaming filters and codecs, incremental authentication modes, ASN.1
parsing and printing, and block ciphers. Code that changes variables, fields or buffers in place is modelled by methods
and classes that do the same, with loop invariants; each is proved against an independent definition: a multiple in a
group, a product of polynomials, a split of a message that depends on the message alone, a tag as a standard defines it.
Machine arithmetic that could wrap (32-bit words of GF(2^32), Adler-32's sums, bytes of lengths and digits) is explicit.

The groups of files:

* Scalar multiplication. `AbelianGroup` (a group as a record of functions and what it means to multiply in it),
  `WindowSlider`, `SimultaneousMultiply`, `CascadeMultiply`, `Heap`, `GeneralCascade`, `FixedBase` work over any
  abelian group. `Field`, `EllipticCurve`, `EcpMultiply` and `MontgomeryCurve` work over any field of odd
  characteristic.
* Number theory. `BinaryPolynomial` and `Gf2_32`; `Congruence`, `QuotientRing` and `Esign`; `BlumBlumShub`; `Adler32`.
* Streams. `BlockQueue`, `BufferedInput` and `StreamFilter`; `BitStrings`, `BaseN` and `BaseNDecoder`.
* Authentication. `BlockChaining`, `Words`, `Ccm`, `CcmBlocks` (what the blocks say, field by field)
  and `Cmac`, over an arbitrary block function.
* ASN.1. `Asn` and `AsnValues`.
* Ciphers. `FeistelRounds`, `Des`, `DesTables` (permutation and expansion bit by bit), `Cast` and `Blowfish`, over
  arbitrary tables and key schedules.

`Arithmetic` and `Bits` hold the small facts that the rest calls by name, and `Options` the type of optional results.

Where the code and its own description differ, the model follows the code. `QuotientRing::MultiplicativeInverse` ends
as soon as a remainder is zero modulo the modulus, so an argument that is not reduced gets the answer "no inverse"
(`QuotientRing.UnreducedArgument`). `ESIGN` inversion returns the random draw itself when the prime p divides the draw
or the exponent, and is then wrong unless the draw's own power gives the image (`Esign.CalculateRandomizedInverse`,
`Esign.PreimageByChance`, `Esign.DrawFails`). An object identifier comes back from its encoding exactly when its
second arc is below 40 and the first two fit in one octet (`AsnValues.OidRoundTrip`), and a boolean comes back as 0 or
255 (`AsnValues.UnsignedRoundTrip`).

Exceptions are results: `None`, or `false` for `ok`. A method that fails promises nothing about the object's state
afterwards, except when exactly it fails.

## Model

| member | source | states |
|---|---|---|
| AbelianGroup.MulSum | 3rd_party/cryptopp/cryptopp-5.6.1/algebra.cpp:90-95 | multiples add up, for positive and negative multipliers: the law behind every fast form of adding a base k times |
| AbelianGroup.MulOfMul | 3rd_party/cryptopp/cryptopp-5.6.1/algebra.cpp:90-95 | a multiple of a multiple is the multiple by the product |
| AbelianGroup.MulDouble | 3rd_party/cryptopp/cryptopp-5.6.1/algebra.cpp:15-18 | doubling a multiple doubles the multiplier |
| WindowSliding.WindowSlider.FindNextWindow | 3rd_party/cryptopp/cryptopp-5.6.1/algebra.cpp:219-246 | the signed odd digit handed out at its position and what is left uncovered make up what was uncovered before; the uncovered part strictly shrinks; windows do not overlap; no window is found exactly when nothing is left |
| WindowSliding.WindowIsExact | 3rd_party/cryptopp/cryptopp-5.6.1/algebra.cpp:234-245 | one cut of the exponent, with and without the carry of a negated digit, loses nothing, and what is above the window is smaller than what was cut |
| WindowSliding.TakeDigit | 3rd_party/cryptopp/cryptopp-5.6.1/algebra.cpp:270-296 | a caller that adds up the digits keeps: exponent = covered + digit on offer + uncovered |
| SimultaneousMultiplication.SuffixSumsGiveWeight | 3rd_party/cryptopp/cryptopp-5.6.1/algebra.cpp:298-312 | twice the sum of the suffix sums and one more suffix sum weigh bucket j by 2j+1 |
| SimultaneousMultiplication.CombineBuckets | 3rd_party/cryptopp/cryptopp-5.6.1/algebra.cpp:298-312 | the running-sum pass over the buckets gives the sum of (2j+1) times bucket j |
| SimultaneousMultiplication.TakeWindow | 3rd_party/cryptopp/cryptopp-5.6.1/algebra.cpp:277-289 | a window adds or subtracts the current power of two of the base in one bucket, so that the buckets' weight grows by the digit at its position |
| SimultaneousMultiplication.SimultaneousMultiply | 3rd_party/cryptopp/cryptopp-5.6.1/algebra.cpp:254-313 | for every base and every list of exponents, with cheap inversion or without, result i is exponent i times the base |
| SimultaneousMultiplication.ScalarMultiply | 3rd_party/cryptopp/cryptopp-5.6.1/algebra.cpp:90-95 | the single multiplication is the exponent times the base |
| CascadeMultiplication.FillTable | 3rd_party/cryptopp/cryptopp-5.6.1/algebra.cpp:104-129 | every table cell with an odd coordinate holds p x + q y after the in-place filling |
| CascadeMultiplication.CellsDistinct | 3rd_party/cryptopp/cryptopp-5.6.1/algebra.cpp:104-128 | different exponent pairs use different table cells |
| CascadeMultiplication.AddToTable | 3rd_party/cryptopp/cryptopp-5.6.1/algebra.cpp:118-128 | one table step adds a filled cell to a known sum and leaves all other cells alone |
| CascadeMultiplication.StripTwos | 3rd_party/cryptopp/cryptopp-5.6.1/algebra.cpp:145-151 | common factors of two go to the squarings after the table look-up; the squarings before never go below zero; what is looked up has an odd coordinate or is zero |
| CascadeMultiplication.FinishWindow | 3rd_party/cryptopp/cryptopp-5.6.1/algebra.cpp:152-166 | a finished window moves the accumulated pair up by its length and adds the window's pair, the first window included |
| CascadeMultiplication.EndWindow | 3rd_party/cryptopp/cryptopp-5.6.1/algebra.cpp:140-167 | after the window that ends at bit i the result is (e1 >> i) x + (e2 >> i) y |
| CascadeMultiplication.CascadeScalarMultiply | 3rd_party/cryptopp/cryptopp-5.6.1/algebra.cpp:97-170 | for all exponents the result is e1 x + e2 y |
| ExponentHeap.TopIsLargest | 3rd_party/cryptopp/cryptopp-5.6.1/algebra.cpp:184-199 | the front of the heap has the largest exponent |
| GeneralCascade.TotalOfPermutation | 3rd_party/cryptopp/cryptopp-5.6.1/algebra.cpp:184-199 | reordering the terms, as the heap operations do, does not change what they add up to |
| GeneralCascade.DivideStep | 3rd_party/cryptopp/cryptopp-5.6.1/algebra.cpp:189-196 | replacing the largest exponent by its remainder and moving quotient copies of its base keeps the sum of exponent times base and strictly lowers the sum of the exponents |
| GeneralCascade.ReduceLast | 3rd_party/cryptopp/cryptopp-5.6.1/algebra.cpp:187-200 | one turn of the loop over the heap, with the quotient of one as a case of its own, keeps the total and lowers the exponents |
| GeneralCascade.GeneralCascadeMultiplication | 3rd_party/cryptopp/cryptopp-5.6.1/algebra.cpp:172-204 | for every non-empty range the result is the sum of exponent times base; the range is changed in place |
| QuotientRing.Gcd | 3rd_party/cryptopp/cryptopp-5.6.1/algebra.cpp:56-68 | the result's divisors are exactly the common divisors of the arguments |
| QuotientRing.MultiplicativeInverse | 3rd_party/cryptopp/cryptopp-5.6.1/algebra.cpp:70-88 | a reduced argument gives its inverse if it is coprime to the modulus and zero if not; an argument that is not reduced gives zero |
| QuotientRing.UnreducedArgument | 3rd_party/cryptopp/cryptopp-5.6.1/algebra.cpp:77 | 7 modulo 5: the loop test modulo the modulus misses an inverse; for arguments not below the modulus the routine is right exactly when there is none |
| FixedBase.FixedBasePrecomputation.SetBase | 3rd_party/cryptopp/cryptopp-5.6.1/eprecomp.cpp:12-24 | the first stored base is the converted new base; setting the base that is stored already keeps what was precomputed |
| FixedBase.FixedBasePrecomputation.Precompute | 3rd_party/cryptopp/cryptopp-5.6.1/eprecomp.cpp:26-40 | stored base i is 2^(i windowSize) times the first, for every storage between one and the exponent's bits |
| FixedBase.SplitSegment | 3rd_party/cryptopp/cryptopp-5.6.1/eprecomp.cpp:75-86 | cutting off the low bits of the exponent, as they are or less a whole unit, loses nothing |
| FixedBase.CutSegment | 3rd_party/cryptopp/cryptopp-5.6.1/eprecomp.cpp:75-86 | each segment with its stored base, negated or not, is worth what the rest of the exponent loses |
| FixedBase.FixedBasePrecomputation.PrepareCascade | 3rd_party/cryptopp/cryptopp-5.6.1/eprecomp.cpp:67-88 | the segments appended add up to the exponent times the base |
| FixedBase.FixedBasePrecomputation.Exponentiate | 3rd_party/cryptopp/cryptopp-5.6.1/eprecomp.cpp:90-96 | the result is the exponent times the base, for every exponent, digits negated or not |
| FixedBase.FixedBasePrecomputation.CascadeExponentiate | 3rd_party/cryptopp/cryptopp-5.6.1/eprecomp.cpp:98-108 | the result is the sum of two multiples of two precomputed bases |
| FixedBase.ConvertedResults | 3rd_party/cryptopp/cryptopp-5.6.1/eprecomp.cpp:90-108 | after conversion back the results are the multiple, and the sum of two multiples, in the group that callers see |
| FieldArithmetic.InverseFromProduct | 3rd_party/cryptopp/cryptopp-5.6.1/ecp.cpp:268-281 | two inverses from one inverse of the product |
| FieldArithmetic.ParallelInvert | 3rd_party/cryptopp/cryptopp-5.6.1/ecp.cpp:250-285 | every element of the array, of any length, becomes its inverse in place, and zeros stay zero |
| EllipticCurve.InverseOnCurve | 3rd_party/cryptopp/cryptopp-5.6.1/ecp.cpp:205-216 | the inverse of a point is on the curve and cancels it |
| EllipticCurve.AddCommutes | 3rd_party/cryptopp/cryptopp-5.6.1/ecp.cpp:218-233 | affine addition, case by case, commutes |
| EllipticCurve.SumByChord | 3rd_party/cryptopp/cryptopp-5.6.1/ecp.cpp:218-233 | for points of different x, a point is the inverse of their sum if and only if it lies on the line through both and the three x coordinates add up to the square of the slope, as equations without division |
| EllipticCurve.DoubleByTangent | 3rd_party/cryptopp/cryptopp-5.6.1/ecp.cpp:235-248 | likewise for the inverse of the double of a point with y not zero, by the tangent |
| EllipticCurve.SumByCase | 3rd_party/cryptopp/cryptopp-5.6.1/ecp.cpp:218-248 | the identity adds nothing, equal points are doubled, opposite ones and a point of order two give the identity |
| EllipticCurve.ThirdPoint | 3rd_party/cryptopp/cryptopp-5.6.1/ecp.cpp:225-232 | a line that meets the curve in P and another point, or touches it in P, meets it in a third point, and its reflection is on the curve |
| EllipticCurve.SumOnCurve | 3rd_party/cryptopp/cryptopp-5.6.1/ecp.cpp:218-248 | the affine sum of two points of the curve, by chord or by tangent, is on the curve |
| EllipticCurve.CurveIsGroup | 3rd_party/cryptopp/cryptopp-5.6.1/ecp.cpp:200-248 | on a curve where affine addition associates, these operations form an abelian group with doubling as a + a |
| EllipticCurve.DoublingIsRight | 3rd_party/cryptopp/cryptopp-5.6.1/ecp.cpp:316-332 | the in-place doubling of X, Y, Z and a Z^4 stands for the affine double, the identity included |
| EllipticCurve.ProjectiveDoubling.Double | 3rd_party/cryptopp/cryptopp-5.6.1/ecp.cpp:316-332 | a doubling object that stands for a point stands for its affine double afterwards, so k calls stand for k affine doubles |
| EllipticCurve.BackToAffine | 3rd_party/cryptopp/cryptopp-5.6.1/ecp.cpp:424-433 | with the inverse of Z, X and Y give the affine coordinates; Z is zero exactly for the identity |
| EcpMultiplication.NoteWindow | 3rd_party/cryptopp/cryptopp-5.6.1/ecp.cpp:396-411 | a window noted against the stored doubling of its position covers its digit of the exponent |
| EcpMultiplication.CollectWindows | 3rd_party/cryptopp/cryptopp-5.6.1/ecp.cpp:382-420 | the stored doublings are P times powers of two and the noted windows of each exponent cover it exactly |
| EcpMultiplication.ToAffine | 3rd_party/cryptopp/cryptopp-5.6.1/ecp.cpp:422-433 | all stored doublings become affine with one inversion |
| EcpMultiplication.FinalCascade | 3rd_party/cryptopp/cryptopp-5.6.1/ecp.cpp:435-456 | the cascade over one exponent's windows is what they cover, times P |
| EcpMultiplication.GeneralCascadeMultiplication | 3rd_party/cryptopp/cryptopp-5.6.1/algebra.cpp:172-204 | the cascade with the curve as its group, which calls the curve's own scalar multiplication: the sum of exponent times base, for exponents up to 31; with ScalarMultiply and SimultaneousMultiply it is a recursion that ends |
| EcpMultiplication.ReduceLast | 3rd_party/cryptopp/cryptopp-5.6.1/algebra.cpp:187-200 | one turn of its loop keeps the total and lowers the exponents; its quotients are at most 31 |
| EcpMultiplication.CascadeStaysSmall | 3rd_party/cryptopp/cryptopp-5.6.1/ecp.cpp:351-359 | five bits are enough for what the cascade multiplies by, so ScalarMultiply takes its first branch there: what the termination measure of the recursion rests on |
| EcpMultiplication.SimultaneousMultiply | 3rd_party/cryptopp/cryptopp-5.6.1/ecp.cpp:361-457 | for every list of positive exponents the results are the multiples by repeated affine addition |
| EcpMultiplication.ScalarMultiply | 3rd_party/cryptopp/cryptopp-5.6.1/ecp.cpp:351-359 | k P, for small exponents by the generic routine and for others through SimultaneousMultiply and its cascade, zero included |
| EcpMultiplication.CascadeScalarMultiply | 3rd_party/cryptopp/cryptopp-5.6.1/ecp.cpp:459-469 | k1 P + k2 Q |
| MontgomeryCurve.ConvertAdd | 3rd_party/cryptopp/cryptopp-5.6.1/ecp.cpp:16-25 | converting to another representation of the field commutes with affine addition |
| MontgomeryCurve.ConvertMul | 3rd_party/cryptopp/cryptopp-5.6.1/ecp.cpp:361-371 | and with multiples |
| MontgomeryCurve.MontgomeryIsCurve | 3rd_party/cryptopp/cryptopp-5.6.1/ecp.cpp:27-37 | the converted curve obeys the laws of the original |
| MontgomeryCurve.SimultaneousMultiply | 3rd_party/cryptopp/cryptopp-5.6.1/ecp.cpp:363-371 | multiplying in the converted curve and converting back gives the multiples on the original |
| MontgomeryCurve.ScalarMultiply | 3rd_party/cryptopp/cryptopp-5.6.1/ecp.cpp:351-359 | the same for one exponent |
| MontgomeryCurve.CascadeScalarMultiply | 3rd_party/cryptopp/cryptopp-5.6.1/ecp.cpp:459-469 | the same for a sum of two multiples |
| BinaryField32.XTimesCongruent | 3rd_party/cryptopp/cryptopp-5.6.1/gf2_32.cpp:14-23 | the table step that shifts a word left and reduces it is multiplication by x modulo x^32 + m |
| BinaryField32.GF2_32.Multiply | 3rd_party/cryptopp/cryptopp-5.6.1/gf2_32.cpp:9-44 | the four-entry table method is the carry-less product modulo x^32 + m, for every m |
| BinaryField32.SecondBitOfRotated | 3rd_party/cryptopp/cryptopp-5.6.1/gf2_32.cpp:26-35 | the rotated word shows the bits of b in order, from the highest, at its second place |
| BinaryField32.GF2_32.MultiplyRotating | 3rd_party/cryptopp/cryptopp-5.6.1/gf2_32.cpp:9-44 | the branch that rotates b computes the same product |
| BinaryField32.AlignDegrees | 3rd_party/cryptopp/cryptopp-5.6.1/gf2_32.cpp:84-88 | the inner loops bring the divisor to the dividend's degree; no bit is shifted out of v; g = v a stays true |
| BinaryField32.ReduceOnce | 3rd_party/cryptopp/cryptopp-5.6.1/gf2_32.cpp:71-93 | one turn of the outer loop keeps Euclid's invariant with its degree bounds and strictly lowers a degree |
| BinaryField32.GF2_32.MultiplicativeInverse | 3rd_party/cryptopp/cryptopp-5.6.1/gf2_32.cpp:46-97 | for every irreducible x^32 + m, the in-place binary Euclid ends and gives an element whose product with a is one; zero gives zero |
| BinaryField32.MultiplyByInverse | 3rd_party/cryptopp/cryptopp-5.6.1/gf2_32.cpp:9-97 | calling MultiplicativeInverse and then either form of Multiply gives the word 1, and 0 for the element zero |
| Esign.Taylor | 3rd_party/cryptopp/cryptopp-5.6.1/esign.cpp:163-165 | (r + u)^e is r^e + e r^(e-1) u plus a multiple of u squared |
| Esign.Correction | 3rd_party/cryptopp/cryptopp-5.6.1/esign.cpp:163-165 | with e r^(e-1) t congruent to w0 modulo p, (r + t p q)^e is congruent to r^e + w0 p q modulo p p q |
| Esign.ShiftsBack | 3rd_party/cryptopp/cryptopp-5.6.1/esign.cpp:43-47 | x shifted left by 2k+2 with less than a unit added is below n and shifts back to x |
| Esign.ApplyIsTopBits | 3rd_party/cryptopp/cryptopp-5.6.1/esign.cpp:43-47 | for a modulus of 3k+3 to 3k+5 bits the image is the power above its 2k+2 low bits, but at most 2^k-1 |
| Esign.InverseExists | 3rd_party/cryptopp/cryptopp-5.6.1/esign.cpp:164 | an element coprime to the modulus has an inverse, found by Euclid's steps |
| Esign.PrimeDividesPower | 3rd_party/cryptopp/cryptopp-5.6.1/esign.cpp:164 | a prime that does not divide r divides no power of r |
| Esign.InverseIsRight | 3rd_party/cryptopp/cryptopp-5.6.1/esign.cpp:163-179 | whatever draw was accepted, s = r + t p q is below n and is a preimage of x, if p divides neither r nor e |
| Esign.AcceptanceTest | 3rd_party/cryptopp/cryptopp-5.6.1/esign.cpp:154-161 | the loop's shift test accepts exactly the draws whose target is less than 2^(2k+1) below a multiple of p q |
| Esign.TryDraw | 3rd_party/cryptopp/cryptopp-5.6.1/esign.cpp:150-165 | one turn of the loop, and the steps after it when it is the last |
| Esign.PreimageByChance | 3rd_party/cryptopp/cryptopp-5.6.1/esign.cpp:43-47 | a number is a preimage of x if and only if its own e-th power modulo n lies between x and x + 1 shifted left by 2k+2, from x on for the largest image |
| Esign.MultipleOfFactors | 3rd_party/cryptopp/cryptopp-5.6.1/esign.cpp:148-165 | a draw that is a multiple of p q has a power of zero, so it is a preimage of zero only |
| Esign.DrawFails | 3rd_party/cryptopp/cryptopp-5.6.1/esign.cpp:148-165 | p = 11, q = 13, e = 8, x = 2: the loop accepts the draw 0, gives it back, and ApplyFunction does not give x |
| Esign.CalculateRandomizedInverse | 3rd_party/cryptopp/cryptopp-5.6.1/esign.cpp:140-179 | the first accepted draw decides; the result is below n; ApplyFunction gives x if and only if p divides neither the draw nor the exponent or the draw's own power gives x; where p divides one of them the result is the draw |
| BlumBlumShub.NextState | 3rd_party/cryptopp/cryptopp-5.6.1/blumshub.cpp:16-25 | squaring modulo n moves from one state of the sequence to the next |
| BlumBlumShub.Log2Bounds | 3rd_party/cryptopp/cryptopp-5.6.1/blumshub.cpp:10 | the power of two of the logarithm is the largest that is not above the number |
| BlumBlumShub.Generator.BitsPerState | 3rd_party/cryptopp/cryptopp-5.6.1/blumshub.cpp:8-14 | the modulus has at least 2^maxBits and fewer than 2^(maxBits+1) bits |
| BlumBlumShub.StateBits | 3rd_party/cryptopp/cryptopp-5.6.1/blumshub.cpp:16-33 | from where a state begins the stream has its maxBits low bits, highest first |
| BlumBlumShub.ReducedExponent | 3rd_party/cryptopp/cryptopp-5.6.1/blumshub.cpp:54-61 | an exponent may be reduced modulo one at which the power is one |
| BlumBlumShub.BitAt | 3rd_party/cryptopp/cryptopp-5.6.1/blumshub.cpp:16-25 | a used-up state and the next one not begun are the same position of the stream |
| BlumBlumShub.Generator.GenerateBit | 3rd_party/cryptopp/cryptopp-5.6.1/blumshub.cpp:16-25 | the bit at the current position of the stream; the position moves on by one |
| BlumBlumShub.Generator.GenerateByte | 3rd_party/cryptopp/cryptopp-5.6.1/blumshub.cpp:27-33 | eight bits, first highest |
| BlumBlumShub.Generator.GenerateBlock | 3rd_party/cryptopp/cryptopp-5.6.1/blumshub.cpp:35-39 | the bytes of the stream from the current position on |
| BlumBlumShub.Generator.Seek | 3rd_party/cryptopp/cryptopp-5.6.1/blumshub.cpp:54-61 | the position becomes eight times the index, also where that is a multiple of maxBits |
| BlumBlumShub.SeekAgrees | 3rd_party/cryptopp/cryptopp-5.6.1/blumshub.cpp:8-61 | seeking and generating gives what generating from the start and dropping the first bytes gives |
| Adler32Checksum.SumAppend | 3rd_party/cryptopp/cryptopp-5.6.1/adler32.cpp:8-54 | the byte-by-byte sums of a concatenation continue those of its first part |
| Adler32Checksum.ClosedForm | 3rd_party/cryptopp/cryptopp-5.6.1/adler32.cpp:8-54 | both sums in closed form modulo 65521: one more than the sum of the bytes; the number of bytes and each byte as often as there are bytes from it on |
| Adler32Checksum.Adler32.EightBytes | 3rd_party/cryptopp/cryptopp-5.6.1/adler32.cpp:31-44 | eight bytes without wrapping in a 32-bit word, and one conditional subtraction is enough for s1 |
| Adler32Checksum.Adler32.UpdateLong | 3rd_party/cryptopp/cryptopp-5.6.1/adler32.cpp:8-54 | reductions of s2 where the remaining length is a multiple of 0x8000 come often enough; both sums end below the base |
| Adler32Checksum.Adler32.Update | 3rd_party/cryptopp/cryptopp-5.6.1/adler32.cpp:8-54 | the sums after a call are those of all data so far |
| Adler32Checksum.Adler32.TruncatedFinal | 3rd_party/cryptopp/cryptopp-5.6.1/adler32.cpp:56-75 | the first bytes of the big-endian word of both sums, and a reset |
| Adler32Checksum.Checksum | 3rd_party/cryptopp/cryptopp-5.6.1/adler32.cpp:8-75 | any split of the data into calls gives the checksum of the whole |
| BlockQueues.Enqueue | 3rd_party/cryptopp/cryptopp-5.6.1/filters.cpp:281-290 | writing behind the used part of the ring, around its end if need be, appends |
| BlockQueues.BlockQueue.GetBlock | 3rd_party/cryptopp/cryptopp-5.6.1/filters.cpp:245-257 | takes a whole block from the front exactly if there is one; a block never wraps around |
| BlockQueues.BlockQueue.GetContigousBlocks | 3rd_party/cryptopp/cryptopp-5.6.1/filters.cpp:259-268 | takes a prefix of the contents: as much as is wanted and lies in one piece |
| BlockQueues.BlockQueue.GetAll | 3rd_party/cryptopp/cryptopp-5.6.1/filters.cpp:270-279 | all of the contents in order |
| BlockQueues.BlockQueue.Put | 3rd_party/cryptopp/cryptopp-5.6.1/filters.cpp:281-290 | appends to the contents when there is room |
| BufferedInput.MiddleDecided | 3rd_party/cryptopp/cryptopp-5.6.1/filters.cpp:328-416 | how much goes to the middle follows from the length of the input alone |
| BufferedInput.Capacity | 3rd_party/cryptopp/cryptopp-5.6.1/filters.cpp:343 | the capacity computed for the queue is enough for all that is ever kept in it |
| BufferedInput.FilterWithBufferedInput.DeliverFirst | 3rd_party/cryptopp/cryptopp-5.6.1/filters.cpp:337-348 | FirstPut gets exactly the first firstSize bytes |
| BufferedInput.FilterWithBufferedInput.PutStream | 3rd_party/cryptopp/cryptopp-5.6.1/filters.cpp:352-369 | with blocks of one byte all but lastSize bytes go through, in order |
| BufferedInput.FilterWithBufferedInput.PutBlocks | 3rd_party/cryptopp/cryptopp-5.6.1/filters.cpp:370-395 | whole blocks go through, from the queue, across queue and input, and from the input, and less than a block more than the last part is kept |
| BufferedInput.FilterWithBufferedInput.Put | 3rd_party/cryptopp/cryptopp-5.6.1/filters.cpp:328-399 | after any call the calls to the derived filter and the queue account for the whole input so far |
| BufferedInput.FilterWithBufferedInput.MessageEnd | 3rd_party/cryptopp/cryptopp-5.6.1/filters.cpp:401-414 | the calls of a message are complete: first, middle and last part of the input; the next message starts afresh |
| BufferedInput.PutMessage | 3rd_party/cryptopp/cryptopp-5.6.1/filters.cpp:328-416 | however a message is cut into pieces, first, middle and last data depend on the message alone |
| BufferedInput.DocumentedSizes | 3rd_party/cryptopp/cryptopp-5.6.1/filters.h:177-192 | when FirstPut and NextPut are called, and the three documented cases of LastPut's length |
| BufferedInput.NothingLost | 3rd_party/cryptopp/cryptopp-5.6.1/filters.h:177-192 | the data of all calls in order are the input |
| StreamFilter.ProcessUndone | 3rd_party/cryptopp/cryptopp-5.6.1/filters.cpp:589-620 | processing whole blocks with an inverse transformation in the same state restores the data |
| StreamFilter.ProcessByBlocks | 3rd_party/cryptopp/cryptopp-5.6.1/filters.cpp:589-620 | state and output after blocks in order are those of one step a block |
| StreamFilter.PaddedExactly | 3rd_party/cryptopp/cryptopp-5.6.1/filters.cpp:668-682 | octets complete a message to its padded form if and only if there are one to a block of them, they fill the last block, and they are each their number, or the first 80 and the others zero |
| StreamFilter.Unpad | 3rd_party/cryptopp/cryptopp-5.6.1/filters.cpp:691-704 | both unpaddings: a length if and only if the block is the padding of its part up to there |
| StreamFilter.PadInjective | 3rd_party/cryptopp/cryptopp-5.6.1/filters.cpp:668-682 | a padded block determines what was padded, for PKCS padding and for one-and-zeros padding |
| StreamFilter.UnpadsExactly | 3rd_party/cryptopp/cryptopp-5.6.1/filters.cpp:662-707 | a text unpads to a message if and only if it is that message padded |
| StreamFilter.DecryptionUndoesEncryption | 3rd_party/cryptopp/cryptopp-5.6.1/filters.cpp:622-712 | a ciphertext decrypts to a message if and only if it is the message's encryption, and both sides end in the same state |
| StreamFilter.HeldBack | 3rd_party/cryptopp/cryptopp-5.6.1/filters.cpp:555-563 | the part that a decrypting filter holds back is one block exactly when the text is whole blocks |
| StreamFilter.StreamTransformationFilter.NextPut | 3rd_party/cryptopp/cryptopp-5.6.1/filters.cpp:589-620 | whole blocks processed in pieces are processed as one |
| StreamFilter.StreamTransformationFilter.Put | 3rd_party/cryptopp/cryptopp-5.6.1/filters.cpp:328-399 | state and output after any call are those of processing the whole blocks delivered so far |
| StreamFilter.StreamTransformationFilter.LastPutForward | 3rd_party/cryptopp/cryptopp-5.6.1/filters.cpp:668-685 | an encrypting filter has processed the padded message |
| StreamFilter.StreamTransformationFilter.LastPutBackward | 3rd_party/cryptopp/cryptopp-5.6.1/filters.cpp:686-706 | a decrypting filter has put out the message, or fails exactly when there is none |
| StreamFilter.StreamTransformationFilter.MessageEnd | 3rd_party/cryptopp/cryptopp-5.6.1/filters.cpp:401-414 | the output of a message is its encryption, or its decryption, or there is an error and no message decrypts |
| StreamFilter.Transform | 3rd_party/cryptopp/cryptopp-5.6.1/filters.cpp:543-712 | the same for a message in any pieces |
| StreamFilter.RoundTrip | 3rd_party/cryptopp/cryptopp-5.6.1/filters.cpp:543-712 | for every cipher, padding, message and both cuts into pieces, decrypting what was encrypted returns the message |
| BaseN.DigitsHoldBits | 3rd_party/cryptopp/cryptopp-5.6.1/basecode.cpp:39-85 | the characters' values hold the bytes' bits and fewer further bits than one character has |
| BaseN.DigitsOfNumber | 3rd_party/cryptopp/cryptopp-5.6.1/basecode.cpp:39-85 | the characters' values are the digits of the message as one big-endian number, moved up by fewer bits than a character has |
| BaseN.PaddingCompletesBlock | 3rd_party/cryptopp/cryptopp-5.6.1/basecode.cpp:86-108 | padding goes behind the characters and fills the last block, by fewer characters than a block has |
| BaseN.BlockSizeFound | 3rd_party/cryptopp/cryptopp-5.6.1/basecode.cpp:31-34 | the output block ends at the first multiple of a byte that is whole characters |
| BaseN.BaseNEncoder.PutByte | 3rd_party/cryptopp/cryptopp-5.6.1/basecode.cpp:48-70 | the inner loop spreads a byte's bits over the characters, first bit highest, and stays in the buffer |
| BaseN.BaseNEncoder.Put | 3rd_party/cryptopp/cryptopp-5.6.1/basecode.cpp:39-85 | output and buffer account for the bits of all bytes so far |
| BaseN.BaseNEncoder.MessageEnd | 3rd_party/cryptopp/cryptopp-5.6.1/basecode.cpp:86-102 | the output of a message is its encoding, the last block padded if padding is on |
| BaseNDecoding.BaseNDecoder.PutValue | 3rd_party/cryptopp/cryptopp-5.6.1/basecode.cpp:137-153 | a character's bits go into one byte or two of the buffer |
| BaseNDecoding.BaseNDecoder.Put | 3rd_party/cryptopp/cryptopp-5.6.1/basecode.cpp:124-160 | output and buffer account for the values of all characters so far; characters without a value are skipped |
| BaseNDecoding.BaseNDecoder.MessageEnd | 3rd_party/cryptopp/cryptopp-5.6.1/basecode.cpp:161-165 | the output of a text is its whole bytes |
| BaseNDecoding.InitializeDecodingLookupArray | 3rd_party/cryptopp/cryptopp-5.6.1/basecode.cpp:169-188 | the table gives i exactly for the characters that stand for character i of the alphabet, in either case if asked, and -1 for all others |
| BaseNDecoding.Grouper.Put | 3rd_party/cryptopp/cryptopp-5.6.1/basecode.cpp:205-226 | the output so far is the input in groups with separators between them, however it arrives |
| BaseNDecoding.Grouper.MessageEnd | 3rd_party/cryptopp/cryptopp-5.6.1/basecode.cpp:228-232 | then the terminator |
| BaseNDecoding.GroupingKeepsValues | 3rd_party/cryptopp/cryptopp-5.6.1/basecode.cpp:205-234 | separators outside the alphabet do not change what is read |
| BaseNDecoding.DecodingUndoesEncoding | 3rd_party/cryptopp/cryptopp-5.6.1/basecode.cpp:39-167 | any text with the encoding's alphabet characters in order decodes to the message, whatever else it contains |
| BaseNDecoding.RoundTrip | 3rd_party/cryptopp/cryptopp-5.6.1/basecode.cpp:13-234 | for one to seven bits a character, every alphabet, message and all cuts into pieces, encoding, padding, grouping and decoding return the message |
| BlockChaining.ChainAppend | 3rd_party/cryptopp/cryptopp-5.6.1/cryptlib.cpp:141-177 | chaining blocks one after the other is chaining their concatenation |
| BlockChaining.ChainByBlocks | 3rd_party/cryptopp/cryptopp-5.6.1/cryptlib.cpp:141-177 | each chaining value is the cipher's at the one before mixed with the block |
| BlockChaining.AdvancedProcessBlocks | 3rd_party/cryptopp/cryptopp-5.6.1/cryptlib.cpp:141-177 | the loop in place gives the chaining value of the whole blocks and the number of bytes left over |
| BlockChaining.AbsorbBlocks | 3rd_party/cryptopp/cryptopp-5.6.1/authenc.cpp:11-46 | whole blocks may be taken from the waiting bytes and the new ones together |
| BlockChaining.AbsorbPadding | 3rd_party/cryptopp/cryptopp-5.6.1/ccm.cpp:108-113 | processing the waiting bytes alone is processing them padded with zeros |
| Ccm.CountingGivesCounterBlocks | 3rd_party/cryptopp/cryptopp-5.6.1/ccm.cpp:28-49 | counting up from the initial block gives the counter blocks of section 2.3 of RFC 3610 |
| Ccm.ChainIsAuthenticator | 3rd_party/cryptopp/cryptopp-5.6.1/ccm.cpp:51-130 | chaining from the processed first block gives the CBC-MAC value of section 2.2 of RFC 3610 |
| CcmBlocks.FirstBlockFields | 3rd_party/cryptopp/cryptopp-5.6.1/ccm.cpp:59-65 | the first block's flags say whether there is a header and the sizes of tag and length; nonce and length follow |
| CcmBlocks.HeaderLengthIsRead | 3rd_party/cryptopp/cryptopp-5.6.1/ccm.cpp:67-90 | a reader of the three literal cases of section 2.2 of RFC 3610 gets the header's length back |
| CcmBlocks.BlocksAreRead | 3rd_party/cryptopp/cryptopp-5.6.1/ccm.cpp:51-130 | a reader of the authenticated blocks gets tag size, nonce, header and message back |
| CcmBlocks.BlocksDetermineInput | 3rd_party/cryptopp/cryptopp-5.6.1/ccm.cpp:51-130 | equal authenticated blocks have equal tag size, nonce, header and message |
| CcmBlocks.CounterBlockFields | 3rd_party/cryptopp/cryptopp-5.6.1/ccm.cpp:28-49 | flag octet, nonce and counter of a counter block |
| CcmBlocks.CounterBlocksDiffer | 3rd_party/cryptopp/cryptopp-5.6.1/ccm.cpp:28-65 | counter blocks of different nonces or counters differ, and none is a first block |
| CcmBlocks.TagOctets | 3rd_party/cryptopp/cryptopp-5.6.1/ccm.cpp:132-136 | the tag is the CBC-MAC value mixed with the cipher's value at counter block 0 |
| CcmBlocks.MaskedByBlocks | 3rd_party/cryptopp/cryptopp-5.6.1/ccm.cpp:45-49 | block i of the message, whole or not, is mixed with the cipher's value at counter block i+1 |
| Ccm.CcmBase.Resynchronize | 3rd_party/cryptopp/cryptopp-5.6.1/authenc.cpp:62-73 | nonce, counter and totals of a new message |
| Ccm.CcmBase.FormatFirstBlock | 3rd_party/cryptopp/cryptopp-5.6.1/ccm.cpp:62-65 | flags, nonce and message length, written over each other in this order, are the first block of section 2.2 |
| Ccm.CcmBase.PutHeaderLength | 3rd_party/cryptopp/cryptopp-5.6.1/ccm.cpp:67-90 | the three encodings of the header's length |
| Ccm.CcmBase.SpecifyDataLengths | 3rd_party/cryptopp/cryptopp-5.6.1/cryptlib.cpp:204-216 | accepted exactly in the right state and within the maximal lengths; a first call before any data starts the chain with the first block and the header's length |
| Ccm.CcmBase.AuthenticateData | 3rd_party/cryptopp/cryptopp-5.6.1/authenc.cpp:11-46 | data that arrive in any pieces are authenticated as if they came at once |
| Ccm.CcmBase.Update | 3rd_party/cryptopp/cryptopp-5.6.1/authenc.cpp:75-102 | header data, footer data or an error by the state; when exactly it fails |
| Ccm.CcmBase.ProcessData | 3rd_party/cryptopp/cryptopp-5.6.1/authenc.cpp:104-134 | message data masked from the current position of the key stream; the plaintext is authenticated in both directions; when exactly it fails |
| Ccm.CcmBase.TruncatedFinal | 3rd_party/cryptopp/cryptopp-5.6.1/authenc.cpp:136-176 | fails exactly when the lengths are not those given before, or a footer came; gives the tag of nonce, header and message if the lengths were given once and first |
| Ccm.TagOfChain | 3rd_party/cryptopp/cryptopp-5.6.1/ccm.cpp:132-136 | masking the chaining value with the first key stream block gives the tag of section 2.3 |
| Ccm.Run | 3rd_party/cryptopp/cryptopp-5.6.1/cryptlib.cpp:218-234 | what both directions do before the tag, for header and message in any pieces |
| Ccm.EncryptAndAuthenticate | 3rd_party/cryptopp/cryptopp-5.6.1/cryptlib.cpp:218-225 | ciphertext and tag as RFC 3610 defines them |
| Ccm.DecryptAndVerify | 3rd_party/cryptopp/cryptopp-5.6.1/cryptlib.cpp:227-234 | the unmasked text, verified exactly if the tag is its tag |
| Ccm.RoundTrip | 3rd_party/cryptopp/cryptopp-5.6.1/cryptlib.cpp:218-234 | what was encrypted in some pieces decrypts in others to the message, and its tag is accepted |
| Cmac.MulU | 3rd_party/cryptopp/cryptopp-5.6.1/cmac.cpp:11-41 | the in-place doubling of 8, 16 or 32 bytes is multiplication by x modulo the field polynomial, for the first two that of section 5.3 of NIST SP 800-38B; for other lengths it is an exception exactly when there is a carry |
| Cmac.ModulusTerms | 3rd_party/cryptopp/cryptopp-5.6.1/cmac.cpp:24-37 | the terms of the three polynomials, by their exponents |
| Cmac.DoubleIsUnique | 3rd_party/cryptopp/cryptopp-5.6.1/cmac.cpp:11-41 | only one byte string is the double of a given one |
| Cmac.CmacBase.constructor | 3rd_party/cryptopp/cryptopp-5.6.1/cmac.cpp:43-56 | the subkeys are those of section 6.1 |
| Cmac.FinalBlock | 3rd_party/cryptopp/cryptopp-5.6.1/cmac.cpp:103-112 | masking the held block, whole or padded in place, gives the MAC of section 6.2 |
| Cmac.MacByBlocks | 3rd_party/cryptopp/cryptopp-5.6.1/cmac.cpp:58-118 | the MAC of blocks and a last one: chained, the last one masked with the first subkey if whole, else followed by 80 and zeros and masked with the second |
| Cmac.CmacBase.FillRegister | 3rd_party/cryptopp/cryptopp-5.6.1/cmac.cpp:66-79 | the held block is processed only when it is full and more has come |
| Cmac.CmacBase.AddBlocks | 3rd_party/cryptopp/cryptopp-5.6.1/cmac.cpp:81-94 | all blocks but the last are processed; the last, whole or not, is held |
| Cmac.CmacBase.Update | 3rd_party/cryptopp/cryptopp-5.6.1/cmac.cpp:58-97 | the register accounts for all data so far, the last block always held back |
| Cmac.CmacBase.TruncatedFinal | 3rd_party/cryptopp/cryptopp-5.6.1/cmac.cpp:99-118 | the first bytes of the MAC of all data, and a new beginning |
| Cmac.Authenticate | 3rd_party/cryptopp/cryptopp-5.6.1/cmac.cpp:43-118 | the MAC of a message in any pieces is the one-shot definition, for the only subkeys there are |
| Asn.ReadWritten | 3rd_party/cryptopp/cryptopp-5.6.1/asn.cpp:16-73 | decoding an encoded length gives it back, for every 64-bit length |
| Asn.ShortestLength | 3rd_party/cryptopp/cryptopp-5.6.1/asn.cpp:16-35 | no other octets for the same length are fewer |
| Asn.DERLengthEncode | 3rd_party/cryptopp/cryptopp-5.6.1/asn.cpp:16-35 | the loop writes the octets of the shortest form and counts them |
| Asn.BERLengthDecode | 3rd_party/cryptopp/cryptopp-5.6.1/asn.cpp:37-73 | reads the length that the octets say; fails exactly where they end too soon or would overflow |
| Asn.LengthIsRead | 3rd_party/cryptopp/cryptopp-5.6.1/asn.cpp:37-73 | octets are read as a length if and only if they say it: one below 80, or 81 and more with as many octets behind, leading zeros allowed, or 80 for the indefinite form |
| Asn.ConstructedBit | 3rd_party/cryptopp/cryptopp-5.6.1/asn.cpp:397 | the constructed bit of a tag is the one of value 32 |
| Asn.ParsedIsEncoded | 3rd_party/cryptopp/cryptopp-5.6.1/asn.cpp:388-453 | what the decoder reads is a value that the octets encode by the basic rules |
| Asn.ParseIffSent | 3rd_party/cryptopp/cryptopp-5.6.1/asn.cpp:388-453 | the decoder reads a value if and only if the octets are tag, length of any form and contents of it by the basic rules, stated octet by octet |
| Asn.IndefiniteIsRead | 3rd_party/cryptopp/cryptopp-5.6.1/asn.cpp:201-216 | a constructed tag, 80, the octets of any values one after the other and two zero octets are read as those values |
| Asn.DerEncodes | 3rd_party/cryptopp/cryptopp-5.6.1/asn.cpp:504-511 | the distinguished encoding of a value encodes it by the basic rules |
| Asn.DERReencode | 3rd_party/cryptopp/cryptopp-5.6.1/asn.cpp:201-216 | consumes exactly the value at the beginning and appends its distinguished encoding, and fails exactly if there is none; it always ends |
| Asn.ReencodeKids | 3rd_party/cryptopp/cryptopp-5.6.1/asn.cpp:201-216 | the loop over the values inside one of indefinite length, up to the end-of-contents octets |
| Asn.ReencodingPreservesMeaning | 3rd_party/cryptopp/cryptopp-5.6.1/asn.cpp:201-216 | source and result encode the same value |
| Asn.ReencodingTwice | 3rd_party/cryptopp/cryptopp-5.6.1/asn.cpp:201-216 | re-encoding what is distinguished already changes nothing |
| AsnValues.ReadBase128 | 3rd_party/cryptopp/cryptopp-5.6.1/asn.cpp:218-242 | a subidentifier's octets read back as its value, for every 32-bit value |
| AsnValues.Base128Octets | 3rd_party/cryptopp/cryptopp-5.6.1/asn.cpp:218-223 | a subidentifier's octets: seven bits each, highest first, the top bit set in all but the last, the first not 80 |
| AsnValues.ReadsSeptets | 3rd_party/cryptopp/cryptopp-5.6.1/asn.cpp:225-242 | what any octets up to the first with the top bit clear are read as, and when they are too much |
| AsnValues.EncodeValue | 3rd_party/cryptopp/cryptopp-5.6.1/asn.cpp:218-223 | the loop from the highest group of seven bits down writes the base-128 digits |
| AsnValues.DecodeValue | 3rd_party/cryptopp/cryptopp-5.6.1/asn.cpp:225-242 | reads the digits; fails exactly where they end too soon or would overflow 32 bits |
| AsnValues.OidDEREncode | 3rd_party/cryptopp/cryptopp-5.6.1/asn.cpp:244-254 | tag, length and arcs |
| AsnValues.KnownIdentifier | 3rd_party/cryptopp/cryptopp-5.6.1/asn.cpp:244-254 | the octets of { 1 2 840 113549 } |
| AsnValues.OidBERDecode | 3rd_party/cryptopp/cryptopp-5.6.1/asn.cpp:256-283 | the identifier that the octets say, or failure exactly where they say none |
| AsnValues.OidReadBack | 3rd_party/cryptopp/cryptopp-5.6.1/asn.cpp:244-283 | what comes back from the encoding of any identifier |
| AsnValues.OidRoundTrip | 3rd_party/cryptopp/cryptopp-5.6.1/asn.cpp:244-283 | the identifier itself comes back if and only if the second arc is below 40 and the first two fit in one octet |
| AsnValues.DEREncodeUnsigned | 3rd_party/cryptopp/cryptopp-5.6.1/asn.h:295-320 | the shortest two's complement form, a zero octet before a leading one bit |
| AsnValues.UnsignedIsShortest | 3rd_party/cryptopp/cryptopp-5.6.1/asn.h:295-320 | the octets' value is the number, their sign bit is clear, and their first nine bits are not all zero |
| AsnValues.BERDecodeUnsigned | 3rd_party/cryptopp/cryptopp-5.6.1/asn.h:325-356 | the value if it fits the type and lies in the range; after an indefinite length whatever the length variable holds is taken for the length |
| AsnValues.UnsignedRoundTrip | 3rd_party/cryptopp/cryptopp-5.6.1/asn.h:295-356 | a number in range comes back; a boolean as 0 or 255 |
| FeistelRounds.ReversedKeysDecrypt | 3rd_party/cryptopp/cryptopp-5.6.1/des.cpp:322-353 | an even number of rounds with reversed keys on exchanged halves undoes itself, whatever the round function |
| FeistelRounds.RoundsByHalves | 3rd_party/cryptopp/cryptopp-5.6.1/des.cpp:322-353 | the rounds as a chain of halves, each the one two before it changed by the one before it |
| Des.IPERM | 3rd_party/cryptopp/cryptopp-5.6.1/des.cpp:76-96 | the in-place swaps and rotations are the permutation that FinalUndoesInitial is about |
| Des.FPERM | 3rd_party/cryptopp/cryptopp-5.6.1/des.cpp:98-118 | likewise for the final permutation |
| DesTables.InitialIsStandard | 3rd_party/cryptopp/cryptopp-5.6.1/des.cpp:76-96 | every entry of the initial permutation's table in FIPS 46-3, the halves then rotated left by one |
| Des.FinalUndoesInitial | 3rd_party/cryptopp/cryptopp-5.6.1/des.cpp:76-118 | the final permutation with the halves exchanged undoes the initial one and is undone by it |
| Des.RawDES.RawSetKey | 3rd_party/cryptopp/cryptopp-5.6.1/des.cpp:314-320 | for decryption the pairs of key words are in the opposite order |
| Des.RawDES.RawProcessBlock | 3rd_party/cryptopp/cryptopp-5.6.1/des.cpp:322-353 | eight turns of two half rounds are sixteen rounds with the schedule's words |
| DesTables.RoundByBoxes | 3rd_party/cryptopp/cryptopp-5.6.1/des.cpp:329-350 | a round's change is the exclusive or of the eight boxes, box n at the six bits of the half from place 28-4n on, round its end, mixed with its six bits of the key words, all bit by bit |
| DesTables.CipherByHalves | 3rd_party/cryptopp/cryptopp-5.6.1/des.cpp:420-428 | from the permuted block sixteen rounds make sixteen halves, and the permuted output is the last two, exchanged |
| Des.RawUndone | 3rd_party/cryptopp/cryptopp-5.6.1/des.cpp:314-353 | whatever the tables and the schedule, the rounds with the reversed schedule undo the rounds |
| Des.DesDecrypts | 3rd_party/cryptopp/cryptopp-5.6.1/des.cpp:420-428 | DES decryption undoes encryption |
| Des.ProcessBlockWith | 3rd_party/cryptopp/cryptopp-5.6.1/des.cpp:420-428 | the block operation is that cipher, with the xor block mixed in |
| Des.EdeDecrypts | 3rd_party/cryptopp/cryptopp-5.6.1/des.cpp:355-394 | two- and three-key triple DES decryption undoes encryption |
| Des.EdeIsThreeCiphers | 3rd_party/cryptopp/cryptopp-5.6.1/des.cpp:384-394 | with one pair of permutations around all rounds it is the three ciphers in a row |
| Des.DesEde3.constructor | 3rd_party/cryptopp/cryptopp-5.6.1/des.cpp:375-382 | which schedules go where, reversed or not, by direction |
| Des.DesEde3.ProcessAndXorBlock | 3rd_party/cryptopp/cryptopp-5.6.1/des.cpp:384-394 | the block operation is that composition |
| Des.XexDecrypts | 3rd_party/cryptopp/cryptopp-5.6.1/des.cpp:430-447 | DES-XEX3 decryption undoes encryption |
| Des.DesXex3.constructor | 3rd_party/cryptopp/cryptopp-5.6.1/des.cpp:430-440 | which whitening block goes where by direction |
| Des.DesXex3.ProcessAndXorBlock | 3rd_party/cryptopp/cryptopp-5.6.1/des.cpp:442-447 | the block operation is that composition |
| Cast.Decrypts128 | 3rd_party/cryptopp/cryptopp-5.6.1/cast.cpp:36-95 | CAST-128 decryption undoes encryption, with twelve rounds and with sixteen |
| Cast.RotatedBits | 3rd_party/cryptopp/cryptopp-5.6.1/misc.h:592-596 | a bit goes up by the rotation, around the end of the word |
| Cast.RoundFunctions | 3rd_party/cryptopp/cryptopp-5.6.1/cast.cpp:17-28 | the three round functions from the bytes of the rotated word |
| Cast.Encrypt128ByHalves | 3rd_party/cryptopp/cryptopp-5.6.1/cast.cpp:36-64 | encryption as a chain of halves, the three functions in turn, twelve or sixteen |
| Cast.Cast128.ProcessEncrypt | 3rd_party/cryptopp/cryptopp-5.6.1/cast.cpp:36-64 | the unrolled rounds are the rounds in order, three functions in turn |
| Cast.Cast128.ProcessDecrypt | 3rd_party/cryptopp/cryptopp-5.6.1/cast.cpp:66-95 | the unrolled rounds are the rounds backward |
| Cast.QuadRoundsCancel | 3rd_party/cryptopp/cryptopp-5.6.1/cast.cpp:199-209 | forward and reverse quad rounds with the same key undo each other |
| Cast.ForwardByWords | 3rd_party/cryptopp/cryptopp-5.6.1/cast.cpp:199-203 | forward quad rounds as one chain of words, each the one four before it changed by the one before it |
| Cast.ReversedKeysDecrypt256 | 3rd_party/cryptopp/cryptopp-5.6.1/cast.cpp:214-236 | CAST-256 with the quad rounds' keys in the opposite order decrypts |
| Cast.Cast256.ReverseKeys | 3rd_party/cryptopp/cryptopp-5.6.1/cast.cpp:276-291 | the swaps in place put the quad rounds' keys in the opposite order |
| Cast.Cast256.ProcessAndXorBlock | 3rd_party/cryptopp/cryptopp-5.6.1/cast.cpp:214-236 | six forward and six reverse quad rounds |
| Blowfish.ReversedArrayDecrypts | 3rd_party/cryptopp/cryptopp-5.6.1/blowfish.cpp:71-97 | Blowfish with the reversed P-array decrypts, whatever the arrays hold |
| Blowfish.MixedByBytes | 3rd_party/cryptopp/cryptopp-5.6.1/blowfish.cpp:84-90 | the mixing function from the bytes of a half |
| Blowfish.CryptByHalves | 3rd_party/cryptopp/cryptopp-5.6.1/blowfish.cpp:71-97 | sixteen halves in a chain, the P-array's first word before them and its last after |
| Blowfish.Base.SetKey | 3rd_party/cryptopp/cryptopp-5.6.1/blowfish.cpp:38-40 | the swaps in place reverse the P-array for decryption |
| Blowfish.Base.ProcessAndXorBlock | 3rd_party/cryptopp/cryptopp-5.6.1/blowfish.cpp:71-97 | the loop is the rounds with the P-array's words |

## Left out

- EllipticCurve.IsCurve: that affine addition associates on the curve is a hypothesis about the curve, as that the
  coordinates form a field is one about the field; it is false on curves with a singular point, which the source does not
  accept. That sums stay on the curve, inverses, commutativity, doubling and everything built on them is proved.
- GeneralCascade.GeneralCascadeMultiplication: the standard library's heap functions are not the repository's code;
  `Heap.dfy` gives them bodies of its own, and only their contracts are used. A ghost bound on the exponents is added
  so that callers can bound the inner multiplications; the steps of the loop are methods of their own, which the cascade
  on a curve shares.
- EcpMultiplication.SimultaneousMultiply: the three parallel vectors of exponents, base indices and signs are one vector
  of records, and the iterator over the z coordinates is a copy into an array and back.
- FixedBase.FixedBasePrecomputation.Exponentiate: negative exponents, and loading and saving the table, are not modelled.
- SimultaneousMultiplication.SimultaneousMultiply: exponents are not negative, as the source demands; the window size
  comes from the source's own table of lengths, or is given.
- MontgomeryCurve.ScalarMultiply: Montgomery arithmetic itself is an arbitrary isomorphism of fields.
- Esign.CalculateRandomizedInverse: the random number generator is a list of draws, each in the closed range that the
  source asks for, and there is no result when the list ends; inversion modulo p is that of `QuotientRing`, zero where
  there is none, in place of the big-integer library's.
- BlumBlumShub.Generator.Seek: that x0 to the power (p-1)(q-1) is one modulo n is required, not derived from the primality
  of p and q; `ProcessData`, an exclusive or with the generated bytes, is not modelled.
- BlockQueues.BlockQueue.GetBlock: the bytes are returned by value; that the pointers returned alias the buffer is not modelled.
- BufferedInput.FilterWithBufferedInput.Put: the derived class is a record of the calls made to it; hard flushes,
  `ForceNextPut`, non-blocking input and channels are not modelled.
- StreamFilter.StreamTransformationFilter.Put: the calls recorded during a `Put` are carried out at its end. No padding and
  zero padding, which cannot be undone, and ciphers with a special last block are not modelled. The sizes in which
  output space is offered are one size, a whole number of blocks.
- BaseN.BaseNEncoder.Put: outputs that block and are resumed are not modelled.
- BaseNDecoding.BaseNDecoder.Put: a table with values beyond the number of bits a character, which
  `InitializeDecodingLookupArray` does not make, is not considered.
- Ccm.CcmBase.TruncatedFinal: what the tag is when `SpecifyDataLengths` was not called, called twice, or called after data
  is not stated, as the chaining value then starts from what an earlier message left; when the call fails is. Totals do
  not wrap at 2^64. Counter mode is the key stream of its counter blocks; the key is set once, when the object is made.
- Cmac.CmacBase.constructor: the block size is one that `MulU` has a polynomial for; with another the source throws or
  not by a bit of an encrypted block.
- Asn.DERReencode: queues are byte sequences; a decoder of indefinite length stands for the queue it reads from. What the
  destructors write after an error is not modelled.
- AsnValues.BERDecodeUnsigned: what the length variable holds after an indefinite length is a parameter; a length too large
  to allocate is not an error here.
- Des.RawDES.RawSetKey: how the schedule is made from the user's key is not modelled, nor are the contents of the
  S-boxes; the same holds for CAST and Blowfish.
- Des.ProcessBlockWith: blocks are pairs of words; reading and writing them as bytes is not modelled.
- QuotientRing.MultiplicativeInverse: the domain is the integers; the same code over polynomials is not modelled.
- EAX, the other modes and ciphers, `MeterFilter`, file and stream input and output, compressed curve points, key
  generation and validation, key files, CPU detection, the other third-party libraries.
