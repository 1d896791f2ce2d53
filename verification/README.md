# Ed25519 and range sets, modelled in Dafny

This project models the Ed25519 library in `src/ed25519-donna` and the range sets in
`src/ripple/basics/RangeSet.h`, and proves what they compute. Every layer uses only the
contracts of the layer below, from machine words up to signatures:

1. **Words and limbs.** `Residues` is arithmetic modulo any modulus. Field elements are five 51-bit
   limbs in bounded integer types, so each sum, product and difference is shown to fit its 64- or
   128-bit word (`Field51`, `FieldPower`, `FieldEncoding`). Scalars are limb sequences over a
   layout, so that one model covers the 56-bit and the 30-bit build (`Limbs`, `Columns`,
   `ScalarModm`, `ScalarEncoding`, `ScalarBatch`).
2. **Points.** `Edwards` states the curve as an abelian group with affine coordinates and proves
   the formulas; `PointOps` is the code on limb vectors; `SquareRoot` and `PointEncoding` are
   compression and decompression.
3. **Scalar multiplication.** Recodings (`SlidingWindow`, `Recoding`, `Radix16`), the variable-time
   double multiplication (`ScalarMult`) and the table-driven base multiplication (`BaseMult`).
4. **Batch verification.** The index heap (`IndexHeap`, `BatchHeap`), the sum it keeps
   (`MultiScalar`), the final ladder (`FinalLadder`), the equation of a batch (`BatchEquation`),
   the driver (`BatchVerify`) and how its flags relate to single verification
   (`BatchAgreement`). Heap, ladder and driver work on point coordinates.
5. **Hash and signatures.** Streaming SHA-512 (`Sha512Compress`, `Sha512`), what its constants and
   operations are by FIPS 180-4 (`Sha512Standard`), and sign/verify (`Clamping`, `Scalars`,
   `Signature`).
6. **Reference forms.** The reference recodings (`Recoding`, `Radix16`), byte encoding
   (`Ref10Bytes`) and Montgomery ladder (`Montgomery`).
7. **Range sets** (`RangeSets`, `RangeStrings`).

`dafny verify dfyconfig.toml` checks the whole project.

## Hypotheses

Facts about the curve that are not facts about the code are named predicates and appear as
preconditions:

- `Edwards.EdwardsCurve`: the points form an abelian group under the addition law, whose
  denominators never vanish, and the modulus has no zero divisors (`Residues.PrimeField`).
  `PointOps.Ed25519` fixes the modulus 2^255 - 19 and the constants of the code.
  `Edwards.EveryPoint`: solutions of the curve equation are points, and coordinates determine them.
- `Residues.Fermat`: Fermat's little theorem for the modulus.
- `BatchEquation.PrimeOrder`: m is prime, so an element killed by m is neutral or has order m. The
  whole curve has points outside this subgroup, so the exact statement about a block asks that its
  points lie in it (`BatchVerify.Regular`).
- `BaseMult.BaseTable` and `ScalarMult.OddNiels`: the constant tables hold the stated multiples.
- `Montgomery.MontgomeryCurve`: doubling and differential addition on X/Z pairs, and the coordinate
  X/Z of a pair whose Z is not 0. `Montgomery.Faithful`: Z is 0 for the neutral element only.

## Reading the model

- Unrolled lines of C are loops over limbs or columns. A shift or mask by a constant is a quotient
  or remainder. Joining disjoint bits with `|` is a sum. Selecting by an all-ones mask is a
  conditional.
- Random bytes are a parameter of the batch items.
- `FinalLadder.Ladder` returns None where the scan for a non-zero limb would leave the array. The
  C code then reads before the array, which is undefined behaviour; None only marks that case.
  It needs a last scalar that is a multiple of 2^224 in the 56-bit layout or 2^180 in the 30-bit one
  (`FinalLadder.Scans`), which only a block whose scalars run dry can leave.
- Two things that hold less widely than their comments say: `curve25519_square_times` is described
  as raising to 2 * count but raises to 2^count (`Field51.ThreeRounds`), and the proof sketch above
  the reference `fe_tobytes` claims |h| <= p although its bounds allow 1.1 * 2^255
  (`Ref10Bytes.LooseAboveP`); the result is exact anyway.
- In the 30-bit layout the multiplication drops the bits of the product from 510 on. It is exact iff
  the product is below 2^510 (`ScalarModm.Multiply`), which holds for all reduced factors and fails
  for 2^255 times itself (`ScalarModm.LostProduct`).
- A batch stops early when the scalars of its first heap run dry: at most one is non-zero, or they
  share a divisor of 2^128 or more. The points of the second half are then not looked at; these are
  the nonces R, but for the first one when the number of items is odd (`BatchVerify.Dry`,
  `BatchEquation.FirstSum`). When all random factors are zero every decodable block passes
  (`BatchAgreement.ZeroFactorsPass`).
- A batch flag is not always the single verdict. For a block that combines to the neutral element
  they agree iff the item's equation holds, the top three bits of S are clear and R is canonical
  (`BatchAgreement.FlagAgrees`). The batch neither looks at the top bits of S nor compares the
  spelling of R: `BatchAgreement.LargeResponseBatch` and `BatchAgreement.HighNonceBatch` are batches
  whose first flag is set although single verification rejects the item. Among the random factors of
  an item that leave its block regular, at most one hides an equation that does not hold
  (`BatchAgreement.PassedTwice`); a factor on which the block runs dry can hide it as well.
- `prevMissing` is documented for every set. It meets its documentation iff it is not asked for a
  value of the empty set that exists, and t = 0 below minVal does not wrap around to a missing value
  (`RangeStrings.PrevMissingExact`).

## Model

| member | source | states |
|---|---|---|
| `BatchVerify.SignOpenBatch` | src/ed25519-donna/ed25519-donna-batchverify.h:205-274 | For every number of signatures: blocks of 64 and a last one of 4 to 63, a tail of at most 3; each flag is 1 exactly when the block passed as a whole or single verification accepts, so a cleared flag means single verification rejects (when a set flag is the single verdict: `BatchAgreement.FlagAgrees`); bit 0 of the answer is set iff some flag is cleared and bit 1 iff some block did not combine to the neutral element |
| `BatchVerify.CheckBlock` | src/ed25519-donna/ed25519-donna-batchverify.h:216-251 | A block is undecodable iff one of its points does not decode. With all points in the subgroup of order m: if its scalars do not run dry it passes exactly when the random combination of its verification equations is neutral; if they do, exactly when the part of that sum in the first heap is neutral (the base and key terms, and one nonce term when the number of items is odd), as long as the final ladder stays inside its array. With any points: it passes exactly when the final ladder takes the greatest common divisor of the scalars that took part, and some point whose multiple is their sum, to the neutral element |
| `BatchAgreement.FlagAgrees` | src/ed25519-donna/ed25519-donna-batchverify.h:216-271 | For every item, in terms of the items alone: its flag is its single verdict iff it is in the tail, or its block does not combine to the neutral element, or its equation s B - h A - R = 0 holds, the top three bits of S are clear and R is spelled as its point is encoded; for blocks that do not decode, or lie in the subgroup and are scanned |
| `BatchAgreement.PassesIff` | src/ed25519-donna/ed25519-donna-batchverify.h:216-251 | Whether such a block passes, in terms of its items alone |
| `BatchAgreement.FlagDiffers` | src/ed25519-donna/ed25519-donna-batchverify.h:216-251 | A batch of five on which flag and verdict differ: whatever the hashes, the flag of a first item with neutral key and nonce and a response divisible by m is set, although single verification rejects it |
| `BatchAgreement.HighNonceBatch` | src/ed25519-donna/ed25519-donna-batchverify.h:245-251 | For every message, the batch of five sets the flag of the item whose R is the bytes of P + 1, and single verification rejects it |
| `BatchAgreement.LargeResponseBatch` | src/ed25519-donna/ed25519-donna-batchverify.h:227-228 | For every message, the batch of five sets the flag of the item with S = 2m, and single verification rejects it |
| `BatchAgreement.WitnessRegular` | src/ed25519-donna/ed25519-donna-batchverify.h:152-180 | The batch of five is regular whatever the hashes, since two of the first seven scalars are 1 |
| `BatchAgreement.ZeroFactorsPass` | src/ed25519-donna/ed25519-donna-batchverify.h:219-251 | A decodable block whose random factors are all zero passes, whatever its signatures and points |
| `BatchAgreement.AcceptedIff` | src/ed25519-donna/ed25519.c:94-116 | Single verification accepts iff the points decode, the equation holds, the top three bits of S are clear and R is canonical |
| `BatchAgreement.EquationsPass` | src/ed25519-donna/ed25519-donna-batchverify.h:216-251 | A regular block whose equations all hold passes, whatever the top bits of S and the spelling of R |
| `BatchAgreement.GoodBlockPasses` | src/ed25519-donna/ed25519-donna-batchverify.h:216-251 | A regular block of signatures that single verification accepts passes |
| `BatchAgreement.HighNonceRejected` | src/ed25519-donna/ed25519.c:110-115 | Single verification rejects every R that spells y as 2^255 - 19 or more, for every curve, key and message |
| `BatchAgreement.HighNonceItem` | src/ed25519-donna/ed25519-donna-batchverify.h:245-251 | An item for every message, with R the bytes of P + 1, whose points decode, whose equation holds and whose S has clear top bits, and which single verification rejects |
| `BatchAgreement.LargeResponseRejected` | src/ed25519-donna/ed25519.c:100-101 | Every S of 2m or more has a top bit set and is rejected |
| `BatchAgreement.LargeResponseItem` | src/ed25519-donna/ed25519-donna-batchverify.h:227-228 | An item for every message, with canonical R and S = 2m, whose equation holds and which single verification rejects |
| `BatchAgreement.SameResponse` | src/ed25519-donna/ed25519-donna-batchverify.h:227-228 | Adding multiples of m to S changes neither whether the points decode nor the equation |
| `BatchAgreement.PassedTwice` | src/ed25519-donna/ed25519-donna-batchverify.h:219-251 | A block that is regular and passes under two different draws of 16 random bytes for item i proves the equation of item i |
| `BatchEquation.TwoFactorsForce` | src/ed25519-donna/ed25519-donna-batchverify.h:219-250 | In the subgroup of order m, two different factors below 2^128 that both make the combination neutral, with all others fixed, force their equation |
| `BatchEquation.WeightedChange` | src/ed25519-donna/ed25519-donna-batchverify.h:226-238 | Changing one factor changes the combination by that multiple of its equation |
| `BatchVerify.Neutral` | src/ed25519-donna/ed25519-donna-batchverify.h:249-250 | The multi-scalar multiplication on the loaded coordinates and the byte test for the neutral element: some point has the sum of the terms that took part as its multiple by their greatest common divisor, and the answer is whether the final ladder takes it to the neutral element |
| `BatchVerify.EndsWith` | src/ed25519-donna/ed25519-donna-batchverify.h:249-250 | For points in the subgroup that answer is whether the sum of the terms that took part is neutral, and what this sum is for dry and other blocks |
| `BatchEquation.FirstHeapSum` | src/ed25519-donna/ed25519-donna-batchverify.h:152-188 | What the first heap holds of the combination: the base and key terms, and one nonce term when n is odd |
| `MultiScalar.LastIsGcd` | src/ed25519-donna/ed25519-donna-batchverify.h:161-185 | The one scalar a reduction leaves is the greatest common divisor of those it started from |
| `BatchVerify.LoadScalars` | src/ed25519-donna/ed25519-donna-batchverify.h:219-238 | Slot 0 holds the sum of r_i s_i, slots 1 to n hold h_i r_i and slots n+1 to 2n hold r_i, all modulo m |
| `BatchVerify.SumResponses` | src/ed25519-donna/ed25519-donna-batchverify.h:230-231 | The in-place additions leave the sum of all r_i s_i modulo m in slot 0 |
| `BatchVerify.LoadPoints` | src/ed25519-donna/ed25519-donna-batchverify.h:240-247 | Loading succeeds iff every key and every R decodes, and then the array holds coordinates of B, the negated keys and the negated R |
| `BatchVerify.BeforeMsm` | src/ed25519-donna/ed25519-donna-batchverify.h:219-247 | The arrays after loading are the scalars and points of the block in their layout, and the late scalars are below 2^128 |
| `BatchVerify.LayoutEncodes` | src/ed25519-donna/ed25519-donna-batchverify.h:219-247 | The layout is that of the random combination |
| `BatchVerify.Singles` | src/ed25519-donna/ed25519-donna-batchverify.h:254-257 | The fallback gives every item exactly the single verdict, touches no other flag and sets bit 0 iff one of the flags so far is zero |
| `BatchVerify.Tail` | src/ed25519-donna/ed25519-donna-batchverify.h:268-271 | At most three items are left over and they get their single verdicts; the number of blocks is n/64, plus one when more than 3 remain |
| `BatchVerify.BlockStep` | src/ed25519-donna/ed25519-donna-batchverify.h:216-266 | One block with its fallback keeps the state between blocks: flags, block results and both answer bits |
| `BatchEquation.EncodedSum` | src/ed25519-donna/ed25519-donna-batchverify.h:219-247 | The scalars and points of a batch sum to the weighted sum of r_i (s_i B - h_i A_i - R_i), although all but the r_i are reduced modulo m |
| `BatchEquation.WeightedSplit` | src/ed25519-donna/ed25519-donna-batchverify.h:226-238 | The weighted sum splits into one multiple of B, the key terms and the nonce terms |
| `BatchEquation.AllHold` | src/ed25519-donna/ed25519-donna-batchverify.h:249-250 | If every equation holds, the random combination is neutral |
| `BatchHeap.Batch.MultiScalarMult` | src/ed25519-donna/ed25519-donna-batchverify.h:152-188 | On point coordinates: the reduction keeps the sum and the orders of the points, ends with a single non-zero scalar, reaches the second half of the scalars exactly unless the first half has at most one non-zero scalar or a common divisor of 2^128 or more, and returns coordinates of what the final ladder makes of the last scalar |
| `BatchHeap.Batch.Collapse` | src/ed25519-donna/ed25519-donna-batchverify.h:161-185 | The loop terminates with every scalar in the heap but one zero, with the sum of scalars[i] points[i] unchanged over the whole run |
| `BatchHeap.Batch.Iterate` | src/ed25519-donna/ed25519-donna-batchverify.h:164-185 | Each round keeps the heap order, the window and the sum, and strictly decreases the total of the scalars unless the loop ends |
| `BatchHeap.Batch.Reduce` | src/ed25519-donna/ed25519-donna-batchverify.h:182-184 | Subtracting the second largest scalar from the largest and adding the points keeps the invariant of the run and lowers the total |
| `BatchHeap.Batch.Prepare` | src/ed25519-donna/ed25519-donna-batchverify.h:171-180 | The heap is extended exactly when the largest scalar drops below 2^128, and the window still covers 128 bits then |
| `BatchHeap.Batch.Shrink` | src/ed25519-donna/ed25519-donna-batchverify.h:171-173 | The limb window shrinks only past zero limbs of the largest scalar, covers all scalars in the heap afterwards and does not lose the 128-bit limb |
| `BatchHeap.Batch.ExtendTo` | src/ed25519-donna/ed25519-donna-batchverify.h:175-180 | Extending keeps the window wide enough for the 128-bit scalars and returns the two largest of the whole heap |
| `BatchHeap.Batch.AddPoint` | src/ed25519-donna/ed25519-donna-batchverify.h:183-183 | Adding coordinates adds the points they stand for and changes no other entry |
| `BatchHeap.Batch.Round` | src/ed25519-donna/ed25519-donna-batchverify.h:182-184 | The subtraction inside the window is exact, only the two named entries change, and the heap order is restored |
| `BatchHeap.Batch.UpdatedRoot` | src/ed25519-donna/ed25519-donna-batchverify.h:52-77 | After the root alone was lowered, sinking to a leaf and sifting back up restores the max-heap over the same index permutation, for every odd size from 3 |
| `BatchHeap.Batch.SinkRoot` | src/ed25519-donna/ed25519-donna-batchverify.h:57-68 | The sink phase ends at a leaf with only that node possibly out of place |
| `BatchHeap.Batch.InsertNext` | src/ed25519-donna/ed25519-donna-batchverify.h:32-48 | Inserting the next index keeps the max-heap order and the permutation |
| `BatchHeap.Batch.Build` | src/ed25519-donna/ed25519-donna-batchverify.h:81-86 | Building gives a max-heap on indices 0 to count-1 |
| `BatchHeap.Batch.Extend` | src/ed25519-donna/ed25519-donna-batchverify.h:90-93 | Extending gives a max-heap on all indices below the new count |
| `BatchHeap.Batch.GetTop2` | src/ed25519-donna/ed25519-donna-batchverify.h:97-103 | The two indices returned are distinct and hold the two largest scalars |
| `BatchHeap.Bound128Limb` | src/ed25519-donna/ed25519-donna-batchverify.h:171-176 | A 128-bit scalar fits the limbs up to the 128-bit limb, and a scalar that fits fewer limbs is below half of 2^128 |
| `IndexHeap.RootIsMax` | src/ed25519-donna/ed25519-donna-batchverify.h:97-103 | In a heap the root is the greatest key and one of its children the second greatest |
| `IndexHeap.SinkStep` | src/ed25519-donna/ed25519-donna-batchverify.h:62-68 | Moving the hole to the larger child keeps all other pairs ordered |
| `IndexHeap.RiseStep` | src/ed25519-donna/ed25519-donna-batchverify.h:41-46 | Moving a node above its parent keeps all other pairs ordered |
| `MultiScalar.CombineRound` | src/ed25519-donna/ed25519-donna-batchverify.h:182-183 | s[i] -= s[j] and p[j] += p[i] leave the sum of s[k] p[k] unchanged |
| `MultiScalar.DivisorRound` | src/ed25519-donna/ed25519-donna-batchverify.h:182-182 | A round keeps exactly the common divisors of the scalars |
| `MultiScalar.HistoryDone` | src/ed25519-donna/ed25519-donna-batchverify.h:167-169 | If the loop ends before the heap was extended, the first scalars ran dry: at most one was non-zero or they share a divisor of 2^128 or more |
| `MultiScalar.StillRunning` | src/ed25519-donna/ed25519-donna-batchverify.h:175-180 | If the heap is extended, the first scalars did not run dry |
| `MultiScalar.LadderDecidesNeutral` | src/ed25519-donna/ed25519-donna-batchverify.h:124-147 | For a point of order above 2^(b+1) and a positive scalar s below 2^b, the factor s + 2^bitlen(s) gives the neutral element exactly when s does |
| `FinalLadder.Ladder` | src/ed25519-donna/ed25519-donna-batchverify.h:124-147 | The ladder starts at the point and processes the top set bit again, so it returns coordinates of (s + 2^bitlen(s)) P; None marks exactly the scalars whose seen limbs are all zero, on which the C code reads outside the array |
| `FinalLadder.Final` | src/ed25519-donna/ed25519-donna-batchverify.h:107-148 | Zero gives coordinates of the neutral element, one the point itself, every other scalar the ladder result |
| `FinalLadder.SeenBits` | src/ed25519-donna/ed25519-donna-batchverify.h:109-128 | The ladder looks at 224 bits in the 56-bit layout and at 180 in the 30-bit one |
| `FinalLadder.FinalDecides` | src/ed25519-donna/ed25519-donna-batchverify.h:107-148 | For a point of order m, every scalar below m has a result exactly when the scan stays inside the array, and the result is neutral exactly when scalar times point is |
| `FinalLadder.FindTopLimb` | src/ed25519-donna/ed25519-donna-batchverify.h:126-128 | The scan stops at the highest non-zero limb |
| `FinalLadder.FindTopBit` | src/ed25519-donna/ed25519-donna-batchverify.h:130-133 | The scan finds the highest set bit of a non-zero limb |
| `ScalarBatch.Less` | src/ed25519-donna/modm-donna-64bit.h:304-315 | The borrow chain over the window compares the scalars up to that limb; the 32-bit layout compares limbs from the top with the same meaning |
| `ScalarBatch.LessEq` | src/ed25519-donna/modm-donna-64bit.h:319-330 | The borrow chain of b - a compares with less-or-equal up to the window |
| `ScalarBatch.BorrowCompares` | src/ed25519-donna/modm-donna-64bit.h:304-315 | The final borrow of a - b is 1 exactly when a is less than b, limb prefix by limb prefix |
| `ScalarBatch.LexCompares` | src/ed25519-donna/modm-donna-32bit.h:403-433 | The comparison from the top limb down decides the order of the values |
| `ScalarBatch.Sub` | src/ed25519-donna/modm-donna-64bit.h:288-299 | The windowed subtraction is the difference of the window parts and leaves the limbs above the window alone |
| `ScalarBatch.IsZero` | src/ed25519-donna/modm-donna-64bit.h:334-340 | True exactly for the value 0 |
| `ScalarBatch.IsOne` | src/ed25519-donna/modm-donna-64bit.h:344-350 | True exactly for the value 1 |
| `ScalarBatch.AtMost128` | src/ed25519-donna/modm-donna-64bit.h:354-361 | True exactly for values below 2^128 in both limb layouts |
| `ScalarModm.BarrettEstimate` | src/ed25519-donna/modm-donna-64bit.h:71-106 | For x < 2^512 the quotient estimate from the truncated product is at most 2 too small |
| `ScalarModm.EstimateQuotient` | src/ed25519-donna/modm-donna-64bit.h:74-85 | The quotient computed without the low columns of q1 mu is t / 2^264 for a t at most 2^243 below the full product |
| `ScalarModm.LowProduct` | src/ed25519-donna/modm-donna-64bit.h:87-96 | The low columns with the top limb masked give the product modulo 2^264 |
| `ScalarModm.BarrettReduce` | src/ed25519-donna/modm-donna-64bit.h:66-107 | For every x < 2^512 the result is exactly x mod m |
| `ScalarModm.Reduce` | src/ed25519-donna/modm-donna-64bit.h:43-63 | A conditional subtraction of m without branching on the value |
| `ScalarModm.SubtractLimbs` | src/ed25519-donna/modm-donna-64bit.h:98-103 | The limb subtraction returns the difference, or the difference plus 2^264 with a borrow |
| `ScalarModm.CarryColumns` | src/ed25519-donna/modm-donna-64bit.h:74-96 | Carrying the column sums gives digits and a carry with the exact sum |
| `ScalarModm.Add` | src/ed25519-donna/modm-donna-64bit.h:111-121 | x + y mod m for reduced x and y |
| `ScalarModm.Multiply` | src/ed25519-donna/modm-donna-32bit.h:162-205 | For all scalars of the 30-bit layout the result is (x y mod 2^510) mod m, and for all products below 2^512 of the 56-bit layout x y mod m; it is x y mod m iff the layout is the 56-bit one or x y < 2^510 |
| `ScalarModm.KeptExactly` | src/ed25519-donna/modm-donna-32bit.h:162-205 | For products below 2^540, dropping the bits from 510 on changes nothing modulo m iff there are none |
| `ScalarModm.LostProduct` | src/ed25519-donna/modm-donna-32bit.h:162-205 | 2^255 times itself comes out as 0 in the 30-bit layout |
| `ScalarModm.CutProduct` | src/ed25519-donna/modm-donna-64bit.h:138-147 | The product is cut at bit 248 and bit 264 into the two inputs of the reduction |
| `ScalarModm.KnownConstants` | src/ed25519-donna/modm-donna-32bit.h:20-31 | The constant arrays of both layouts spell out m and floor(2^512 / m) |
| `ScalarModm.OrderIs` | src/ed25519-donna/modm-donna-32bit.h:7-12 | m is 2^252 + 27742317777372353535851937790883648493 and mu the quotient of 2^512 by m |
| `ScalarModm.KnownPowers` | src/ed25519-donna/modm-donna-32bit.h:15-19 | The limb boundaries of both layouts fall where the code splits, and column sums fit a double word |
| `ScalarEncoding.Expand` | src/ed25519-donna/modm-donna-64bit.h:153-187 | Up to 64 little-endian bytes give their value mod m |
| `ScalarEncoding.ContractValue` | src/ed25519-donna/modm-donna-64bit.h:206-211 | Contracting writes the 32 little-endian bytes of the scalar |
| `ScalarEncoding.ContractThenExpand` | src/ed25519-donna/modm-donna-64bit.h:153-211 | Expanding what was contracted gives the same limbs back for every reduced scalar |
| `Scalars.ToBytes` | src/ed25519-donna/modm-donna-64bit.h:206-211 | The bytes of a reduced scalar have their top three bits clear |
| `Scalars.Times` | src/ed25519-donna/modm-donna-64bit.h:124-150 | Reduced scalars meet the bound of the multiplication, in both layouts |
| `SlidingWindow.RecodeCorrect` | src/ed25519-donna/modm-donna-64bit.h:241-280 | For every scalar below 2^255 and every bound the digits sum back to the scalar and every non-zero digit is odd and within the bound |
| `SlidingWindow.RecodeSpaced` | src/ed25519-donna/modm-donna-64bit.h:241-280 | For a window of w bits the non-zero digits are also at least w positions apart, or seven for wider windows |
| `SlidingWindow.WindowUnique` | src/ed25519-donna/modm-donna-64bit.h:241-280 | For windows up to seven bits the sum, oddness, bound and spacing determine all digits |
| `SlidingWindow.NoEarlyStop` | src/ed25519-donna/modm-donna-64bit.h:262-278 | Within a window a set bit always fits the digit, by adding or by subtracting and carrying |
| `SlidingWindow.RippleAdds` | src/ed25519-donna/modm-donna-64bit.h:268-274 | The carry ripple adds 2^k to the digits, changes nothing below k and keeps bits above |
| `SlidingWindow.CarryStops` | src/ed25519-donna/modm-donna-64bit.h:268-274 | A carry always meets a zero bit before the end of the array |
| `SlidingWindow.FoldKeeps` | src/ed25519-donna/modm-donna-64bit.h:262-278 | Folding bits into a digit keeps the sum of all digits and the digit bound |
| `SlidingWindow.SlideKeeps` | src/ed25519-donna/modm-donna-64bit.h:258-279 | The whole pass keeps the sum and leaves window digits only |
| `SlidingWindow.SlideSpaced` | src/ed25519-donna/modm-donna-64bit.h:258-279 | The whole pass leaves non-zero digits as far apart as the window, or seven positions |
| `Recoding.ContractSlidingWindow` | src/ed25519-donna/modm-donna-64bit.h:241-280 | In both layouts the array sums to the scalar, its non-zero digits are odd and below half the window, and each is followed by zeros up to the window (at most seven positions), which for windows up to seven determines it |
| `Recoding.SlideAll` | src/ed25519-donna/modm-donna-64bit.h:258-279 | The nested loops compute the recoding in place: same sum, window digits, spaced |
| `Recoding.SlideRef` | src/ed25519-donna/fuzz/ed25519-ref10.c:3751-3781 | The reference recoding gives the window-5 digits: for numbers below 2^255 the same sum, odd digits below 16, four zeros after each |
| `Radix16.Signed16Correct` | src/ed25519-donna/modm-donna-64bit.h:214-238 | For every value below 2^255 the 64 digits sum back to it and lie between -8 and 8, all but the last below 8 |
| `Radix16.BalancedUnique` | src/ed25519-donna/modm-donna-64bit.h:214-238 | The sum and those bounds determine the digits |
| `Radix16.SignedValue` | src/ed25519-donna/modm-donna-64bit.h:229-237 | The carry pass keeps the value of every tail plus its carry in |
| `Radix16.MakeSigned` | src/ed25519-donna/modm-donna-64bit.h:228-237 | The two-part carry of the in-place pass gives the signed digits |
| `Radix16.MakeSignedRef` | src/ed25519-donna/fuzz/ed25519-ref10.c:3916-3923 | The reference carry pass gives the same signed digits |
| `Radix16.ContractWindow4` | src/ed25519-donna/modm-donna-64bit.h:214-238 | In both layouts the digits of a scalar below 2^255: they sum to it and lie between -8 and 8, all but the last below 8 |
| `Radix16.Nibbles32` | src/ed25519-donna/modm-donna-32bit.h:304-320 | Seven nibbles of one limb and eight of its remainder joined with the next are the nibbles of the pair |
| `Radix16.Window4Ref` | src/ed25519-donna/fuzz/ed25519-ref10.c:3909-3923 | The reference digits from bytes are the same function of the number, with the same sum and bounds below 2^255 |
| `ScalarMult.DoubleScalarMult` | src/ed25519-donna/ed25519-donna-impl-base.h:253-292 | The coordinates returned are those of s1 P + s2 B for all recodable scalars and all points, given the fixed table of odd multiples; every multiplication stays within its limb bound |
| `ScalarMult.Precompute` | src/ed25519-donna/ed25519-donna-impl-base.h:264-267 | Entry i of the computed table is (2i + 1) P |
| `ScalarMult.DigitMultiple` | src/ed25519-donna/ed25519-donna-impl-base.h:281-287 | A window digit indexes the table inside its range and its sign selects the right multiple |
| `ScalarMult.SkipZeros` | src/ed25519-donna/ed25519-donna-impl-base.h:274-276 | The scan stops at the highest position where one of the digits is non-zero, or at -1: every digit above is zero |
| `ScalarMult.Round` | src/ed25519-donna/ed25519-donna-impl-base.h:278-290 | One position doubles and adds a digit multiple of each point; the fourth coordinate is never read after a partial conversion |
| `ScalarMult.LinStep` | src/ed25519-donna/ed25519-donna-impl-base.h:278-290 | A Horner step on the pair of factors |
| `BaseMult.ScalarMultBase` | src/ed25519-donna/ed25519-donna-impl-base.h:335-363 | The coordinates returned are those of s B, given the table of multiples with 2xy at position 0 and 2dxy elsewhere |
| `BaseMult.TableSum` | src/ed25519-donna/ed25519-donna-impl-base.h:342-362 | Odd digits, four doublings and even digits give the sum of the digits times powers of 16 |
| `BaseMult.AlternateSum` | src/ed25519-donna/ed25519-donna-impl-base.h:342-362 | A radix-16 number is its even digits plus 16 times its odd digits in radix 256 |
| `BaseMult.ChooseNiels` | src/ed25519-donna/ed25519-donna-impl-base.h:304-328 | The entry for a digit from -8 to 8: the neutral element for 0, negated for a negative digit |
| `BaseMult.Select` | src/ed25519-donna/ed25519-donna-impl-base.h:312-318 | The loop over the eight entries of a position ends with the one for the digit, or the neutral entry |
| `BaseMult.StartFrom` | src/ed25519-donna/ed25519-donna-impl-base.h:342-347 | The first entry becomes a point with Z = 2 |
| `BaseMult.RawTimesD` | src/ed25519-donna/ed25519-donna-impl-base.h:356-358 | Multiplying by d turns the 2xy of position 0 into 2dxy |
| `BaseMult.TimesSixteen` | src/ed25519-donna/ed25519-donna-impl-base.h:352-355 | Three partial doublings and a full one multiply by 16 and restore the fourth coordinate |
| `Edwards.AddCached` | src/ed25519-donna/ed25519-donna-impl-base.h:33-106 | The addition formula gives completed coordinates of the sum by the law of section 5.1.4 of RFC 8032, whatever the projective scaling |
| `Edwards.DoubleCompleted` | src/ed25519-donna/ed25519-donna-impl-base.h:54-67 | The doubling formula gives the sum of the point with itself, using the curve equation |
| `Edwards.NegCached` | src/ed25519-donna/ed25519-donna-impl-base.h:70-106 | Swapping the first two precomputed coordinates and negating the last negates the point |
| `Edwards.CompletedToFull` | src/ed25519-donna/ed25519-donna-impl-base.h:6-18 | Four products turn completed into extended coordinates |
| `Edwards.ExtendedRelation` | src/ed25519-donna/ed25519-donna-impl-base.h:13-18 | Full coordinates satisfy XY = ZT |
| `Edwards.Field25519` | src/ed25519-donna/ed25519-donna-64bit-tables.h:8-18 | d is -121665/121666 and not -1, the stored root of -1 is one, and 2^255 - 19 is 5 modulo 8 |
| `PointOps.AddP1p1` | src/ed25519-donna/ed25519-donna-impl-base.h:33-50 | The sum of two points, with every multiplicand below 2^54 |
| `PointOps.DoubleP1p1` | src/ed25519-donna/ed25519-donna-impl-base.h:54-67 | Twice the point, from its projective coordinates alone |
| `PointOps.NielsAddP1p1` | src/ed25519-donna/ed25519-donna-impl-base.h:70-86 | The sum with, or the difference from, a precomputed point with z = 1 |
| `PointOps.PnielsAddP1p1` | src/ed25519-donna/ed25519-donna-impl-base.h:89-106 | The sum with, or the difference from, a precomputed point |
| `PointOps.NielsAdd2` | src/ed25519-donna/ed25519-donna-impl-base.h:130-147 | The sum with a precomputed point in full coordinates |
| `PointOps.PnielsAdd` | src/ed25519-donna/ed25519-donna-impl-base.h:150-172 | The sum in precomputed form |
| `PointOps.P1p1ToPartial` | src/ed25519-donna/ed25519-donna-impl-base.h:6-10 | Projective coordinates of the same point; the fourth coordinate keeps its old value |
| `PointOps.P1p1ToFull` | src/ed25519-donna/ed25519-donna-impl-base.h:13-18 | Extended coordinates of the same point |
| `PointOps.FullToPniels` | src/ed25519-donna/ed25519-donna-impl-base.h:21-26 | Precomputed form of the same point |
| `PointOps.DoublePartial` | src/ed25519-donna/ed25519-donna-impl-base.h:109-113 | Twice the point in projective coordinates |
| `PointOps.Double` | src/ed25519-donna/ed25519-donna-impl-base.h:116-120 | Twice the point in extended coordinates |
| `PointOps.AddPoints` | src/ed25519-donna/ed25519-donna-impl-base.h:123-127 | The sum in extended coordinates |
| `PointOps.EC2DValue` | src/ed25519-donna/ed25519-donna-64bit-tables.h:12-14 | The constant 2d is twice the constant d |
| `PointEncoding.Pack` | src/ed25519-donna/ed25519-donna-impl-base.h:180-189 | All coordinates of a point give the same 32 bytes: y with the parity of x in the top bit |
| `PointEncoding.UnpackNegative` | src/ed25519-donna/ed25519-donna-impl-base.h:192-239 | Given that 2^255 - 19 is prime, fails exactly when no x satisfies the curve equation with y; otherwise returns coordinates (x, y, 1, xy) of a solution with x of the other parity |
| `PointEncoding.UnpackFails` | src/ed25519-donna/ed25519-donna-impl-base.h:208-230 | Given that the modulus is prime, decompression fails iff no x satisfies the curve equation with y |
| `PointEncoding.UnpackSound` | src/ed25519-donna/ed25519-donna-impl-base.h:192-239 | Whatever unpacks satisfies the curve equation, and its parity differs from the sign bit unless x is zero |
| `PointEncoding.UnpackNegates` | src/ed25519-donna/ed25519-donna-impl-base.h:192-239 | The coordinates of every curve point unpack, and the x found is the negated one |
| `PointEncoding.UnpackOf` | src/ed25519-donna/ed25519-donna-impl-base.h:180-239 | Unpacking the bytes of any curve point gives full coordinates of its negation |
| `PointEncoding.PackBytesValue` | src/ed25519-donna/ed25519-donna-impl-base.h:186-188 | The parity bit lies above the 255 bits of y |
| `SquareRoot.RootSound` | src/ed25519-donna/ed25519-donna-impl-base.h:208-230 | A returned root x satisfies x^2 den = num |
| `SquareRoot.RootComplete` | src/ed25519-donna/ed25519-donna-impl-base.h:208-230 | A root is found whenever num/den is a square, given Fermat's little theorem |
| `SquareRoot.CandidatePower` | src/ed25519-donna/ed25519-donna-impl-base.h:208-219 | For num = x^2 den the candidate is x to the power (P + 3)/4 |
| `Signature.IsNeutral` | src/ed25519-donna/ed25519-donna-batchverify.h:194-202 | X = 0 and Y = Z, compared as bytes, exactly for the neutral element |
| `Field51.FeMul` | src/ed25519-donna/curve25519-donna-64bit.h:107-171 | For all limbs below 2^54 the product modulo 2^255 - 19, with no 64- or 128-bit overflow and limbs a little over 51 bits |
| `Field51.WrappedProduct` | src/ed25519-donna/curve25519-donna-64bit.h:126-155 | The columns with the upper half folded back by 19 differ from the product by a multiple of 2^255 - 19 |
| `Field51.CarryColumns` | src/ed25519-donna/curve25519-donna-64bit.h:158-164 | The carry chain keeps the residue and every carry fits its word |
| `Field51.FeSquare` | src/ed25519-donna/curve25519-donna-64bit.h:237-284 | The square, for all limbs below 2^54 |
| `Field51.SquareRound` | src/ed25519-donna/curve25519-donna-64bit.h:195-226 | One round with all columns split at once is a square |
| `Field51.SquareTimes` | src/ed25519-donna/curve25519-donna-64bit.h:180-234 | count rounds raise to the power 2^count; a count of zero wraps to 2^64 rounds |
| `Field51.CountInExponent` | src/ed25519-donna/curve25519-donna-64bit.h:178-234 | The exponent 2^count and the 2 * count of the comment agree for the counts 1 and 2 only |
| `Field51.ThreeRounds` | src/ed25519-donna/curve25519-donna-64bit.h:178-234 | Three rounds on 2 give 2^8, not 2^6 |
| `Field51.FeAdd` | src/ed25519-donna/curve25519-donna-64bit.h:27-43 | The sum, and how far it may exceed 51 bits |
| `Field51.FeAddReduce` | src/ed25519-donna/curve25519-donna-64bit.h:46-54 | The sum with carried limbs |
| `Field51.FeSub` | src/ed25519-donna/curve25519-donna-64bit.h:64-70 | The difference, computed without wrapping when the subtrahend is carried |
| `Field51.FeSubAfterBasic` | src/ed25519-donna/curve25519-donna-64bit.h:74-80 | The difference when the subtrahend is itself a sum or difference |
| `Field51.FeSubReduce` | src/ed25519-donna/curve25519-donna-64bit.h:83-91 | The difference with carried limbs |
| `Field51.FeNeg` | src/ed25519-donna/curve25519-donna-64bit.h:95-103 | The negation with carried limbs |
| `FieldPower.Recip` | src/ed25519-donna/curve25519-donna-helpers.h:37-49 | z to the power 2^255 - 21 |
| `FieldPower.PowTwo252m3` | src/ed25519-donna/curve25519-donna-helpers.h:55-67 | z to the power 2^252 - 3 |
| `FieldPower.Ones250` | src/ed25519-donna/curve25519-donna-helpers.h:13-31 | From z^(2^5 - 1) to z^(2^250 - 1) |
| `FieldPower.Exponents` | src/ed25519-donna/curve25519-donna-helpers.h:33-53 | These exponents are P - 2 and (P - 5)/8 |
| `FieldEncoding.Expand` | src/ed25519-donna/curve25519-donna-64bit.h:288-319 | 32 bytes give limbs within 51 bits whose value is the number modulo 2^255 |
| `FieldEncoding.Contract` | src/ed25519-donna/curve25519-donna-64bit.h:325-373 | The bytes of the unique representative in [0, 2^255 - 19) of any limbs below 2^63 |
| `FieldEncoding.Freeze` | src/ed25519-donna/curve25519-donna-64bit.h:335-363 | Two carry passes, the offsets 19 and 2^255 - 19 and a last pass give the least residue |
| `FieldEncoding.EncodeUnique` | src/ed25519-donna/curve25519-donna-64bit.h:325-373 | The encoding is the only 32-byte string with its value |
| `FieldEncoding.ExpandThenContract` | src/ed25519-donna/curve25519-donna-64bit.h:288-373 | Canonical bytes come back; other bytes come back reduced |
| `Ref10Bytes.ToBytes` | src/ed25519-donna/fuzz/ed25519-ref10.c:532-623 | The floor-estimate encoding gives the bytes of the residue for all limbs within 1.1 of their range, without 32-bit overflow |
| `Ref10Bytes.EstimateExact` | src/ed25519-donna/fuzz/ed25519-ref10.c:511-567 | The estimated quotient is floor(h / p) |
| `Ref10Bytes.Freeze10` | src/ed25519-donna/fuzz/ed25519-ref10.c:556-582 | Taking off the estimated quotient leaves the least residue in digits |
| `Ref10Bytes.LooseAboveP` | src/ed25519-donna/fuzz/ed25519-ref10.c:508-516 | Limbs within the stated bounds can stand for a number above p |
| `Sha512.DigestOfParts` | src/ed25519-donna/ed25519-hash.h:109-178 | For every way of cutting a message into updates the digest is SHA-512 of the whole, padded after section 5.1.2 and computed after section 6.4 of FIPS 180-4 |
| `Sha512.State.constructor` | src/ed25519-donna/ed25519-hash.h:109-121 | Nothing absorbed yet |
| `Sha512.State.Update` | src/ed25519-donna/ed25519-hash.h:124-151 | The absorbed data grows by the input and fewer than 128 bytes stay buffered |
| `Sha512.State.Final` | src/ed25519-donna/ed25519-hash.h:154-178 | The digest of all data absorbed |
| `Sha512.State.Blocks` | src/ed25519-donna/ed25519-hash.h:91-106 | Whole blocks are hashed in order and counted |
| `Sha512.Hash` | src/ed25519-donna/ed25519-hash.h:181-186 | The digest of one string |
| `Sha512.CountBlock` | src/ed25519-donna/ed25519-hash.h:102-103 | The two-word counter carries exactly when its low word becomes zero |
| `Sha512.CountRest` | src/ed25519-donna/ed25519-hash.h:155-155 | The bits of a partial block are added without a carry |
| `Sha512.HashBlocksConcat` | src/ed25519-donna/ed25519-hash.h:97-105 | Hashing a concatenation of whole blocks is hashing the parts in turn |
| `Sha512.PadLength` | src/ed25519-donna/ed25519-hash.h:157-168 | The padding fills whole blocks and none without need |
| `Sha512Compress.CompressBlock` | src/ed25519-donna/ed25519-hash.h:97-101 | The schedule and round loops compute the compression function of FIPS 180-4 |
| `Sha512Compress.FastForms` | src/ed25519-donna/ed25519-hash.h:70-71 | The short forms of choice and majority equal the standard ones |
| `Sha512Compress.RotrBits` | src/ed25519-donna/ed25519-hash.h:41-43 | The two shifts joined rotate the word |
| `Sha512Compress.WordValue` | src/ed25519-donna/ed25519-hash.h:79-81 | A word holds a number modulo 2^64, so sums wrap |
| `Sha512Standard.RoundConstant` | src/ed25519-donna/ed25519-hash.h:17-38 | Section 4.2.3 of FIPS 180-4: constant t is the first 64 fractional bits of the cube root of the t-th prime, for all eighty |
| `Sha512Standard.PrimesInOrder` | src/ed25519-donna/ed25519-hash.h:17-38 | Those are the first eighty primes, in order |
| `Sha512Standard.InitialValue` | src/ed25519-donna/ed25519-hash.h:109-121 | Section 5.3.5: the eight words are the first 64 fractional bits of the square roots of the first eight primes |
| `Sha512Standard.SumBits` | src/ed25519-donna/ed25519-hash.h:72-73 | Section 4.1.3: bit i of the two sums of a round is the exclusive or of the bits 28, 34 and 39, or 14, 18 and 41, places up |
| `Sha512Standard.SigmaBits` | src/ed25519-donna/ed25519-hash.h:74-75 | Section 4.1.3: the same for the schedule, with a shift as the last part |
| `Sha512Standard.ChoiceBits` | src/ed25519-donna/ed25519-hash.h:70-71 | Section 4.1.3: choice selects by the first word, majority is the value of at least two |
| `Sha512Standard.ScheduleWord` | src/ed25519-donna/ed25519-hash.h:76-77 | Section 6.4.2, step 1: sixteen big-endian words and the recurrence modulo 2^64 |
| `Sha512Standard.RoundNumbers` | src/ed25519-donna/ed25519-hash.h:78-88 | Section 6.4.2, step 3: the two sums modulo 2^64 and the shifted variables |
| `Sha512Standard.CompressNumbers` | src/ed25519-donna/ed25519-hash.h:91-106 | Section 6.4.2, steps 2 to 4: eighty rounds with their constants and schedule words, then addition to the hash value |
| `Sha512Standard.BigEndianFirst` | src/ed25519-donna/ed25519-hash.h:46-56 | The first byte of a word weighs most |
| `Sha512Standard.StoreNumber` | src/ed25519-donna/ed25519-hash.h:59-68 | Stored bytes stand for the number they came from |
| `Sha512Standard.DigestWords` | src/ed25519-donna/ed25519-hash.h:170-177 | The digest is the eight words in order, each big-endian |
| `Sha512Standard.PaddedMessage` | src/ed25519-donna/ed25519-hash.h:155-168 | Section 5.1.2: the message, a one bit, zeros, and the length in bits modulo 2^128 as the last sixteen bytes |
| `Sha512Standard.DigestIs` | src/ed25519-donna/ed25519-hash.h:154-178 | Section 6.4: padded blocks are compressed from the front, starting at the initial value |
| `Signature.SignaturesVerify` | src/ed25519-donna/ed25519.c:59-116 | Every signature made under the matching public key is accepted, its top-three-bits check included |
| `Signature.Sign` | src/ed25519-donna/ed25519.c:59-91 | With h the digest of the secret key, a the clamped number of its first half and r the digest of its second half and the message modulo m: R encodes r B, and S is (H(R, A, m) a + r) modulo m with its top three bits clear |
| `Signature.SignOpen` | src/ed25519-donna/ed25519.c:94-116 | Accepts exactly when the top three bits of S are clear, the key decodes and R is the encoding of S B - h A for h the digest of R, A and m in this order, modulo m |
| `Signature.PublicKey` | src/ed25519-donna/ed25519.c:45-55 | The public key encodes a B for a the clamped number of the first half of the digest of the secret key: 2^254 + v mod 2^254 - v mod 8 |
| `Signature.ExtSk` | src/ed25519-donna/ed25519.c:27-32 | The first half of the digest v becomes 2^254 + v mod 2^254 - v mod 8, a multiple of 8 between 2^254 and 2^255; the second half is kept |
| `Signature.Hram` | src/ed25519-donna/ed25519.c:35-42 | The challenge is the digest of R, A and m in this order, reduced modulo m |
| `Signature.KeyHalves` | src/ed25519-donna/ed25519.c:64-72 | Which half of the digest of the secret key is the scalar, and which is hashed with the message |
| `Signature.SameChallenge` | src/ed25519-donna/ed25519.c:35-42 | Equal challenges of different (R, A, m) are two different strings whose digests agree modulo m |
| `Signature.KeyDecodes` | src/ed25519-donna/ed25519.c:100-101 | The bytes of a point decode to exactly its negation |
| `Signature.EquationHolds` | src/ed25519-donna/ed25519.c:107-115 | S B - h A = r B when S = h a + r modulo the order |
| `Montgomery.ScalarMultX` | src/ed25519-donna/fuzz/curve25519-ref10.c:1082-1264 | The result is the encoding of the X coordinate of 2^254 + v mod 2^254 - v mod 8 times the point, v being the number of the secret bytes, or of 0 when the ladder ends with Z = 0; where pairs tell the neutral element from the others, of 0 exactly for the neutral multiple |
| `Montgomery.Ladder` | src/ed25519-donna/fuzz/curve25519-ref10.c:1104-1258 | After the last deferred swap the first pair stands for n P |
| `Montgomery.Round` | src/ed25519-donna/fuzz/curve25519-ref10.c:1111-1253 | With the pending swap undone, the pairs stand for k P and (k+1) P before a bit and for the next k after it |
| `Montgomery.LadderStep` | src/ed25519-donna/fuzz/curve25519-ref10.c:1166-1253 | The straight-line code computes the projective doubling and differential addition |
| `Montgomery.CurveConstant` | src/ed25519-donna/fuzz/curve25519-ref10.c:521-552 | The factor of the code is (A + 2)/4 for A = 486662 |
| `Montgomery.BitOfValue` | src/ed25519-donna/fuzz/curve25519-ref10.c:1111-1112 | The bit taken from a byte is the bit of the little-endian number |
| `Clamping.ClampedRange` | src/ed25519-donna/ed25519.c:27-32 | A clamped scalar is a multiple of 8 between 2^254 and 2^255, and the bytes past the first 32 are kept |
| `Clamping.ClampedNumber` | src/ed25519-donna/ed25519.c:29-31 | Of the number v of the first 32 bytes it keeps the bits 3 to 253: 2^254 + v mod 2^254 - v mod 8 |
| `RangeStrings.RoundTrip` | src/ripple/basics/RangeSet.h:97-170 | Printing and parsing rebuilds every non-empty set; the string of the empty set does not parse |
| `RangeStrings.FromString` | src/ripple/basics/RangeSet.h:121-170 | Parsing succeeds iff every token does, the set then holds exactly the values some token covers, in canonical form, and is empty after a failure |
| `RangeStrings.ToString` | src/ripple/basics/RangeSet.h:97-110 | The word empty for the empty set; otherwise one piece between commas per interval, which parses back to it, holds a dash iff the interval has two ends, and spells its numbers without leading zeros |
| `RangeStrings.StyledUnique` | src/ripple/basics/RangeSet.h:72-110 | A non-empty set has only one string of that form |
| `RangeStrings.PieceUnique` | src/ripple/basics/RangeSet.h:72-87 | An interval has only one spelling of that form |
| `RangeStrings.DecimalPlain` | src/ripple/basics/RangeSet.h:82-87 | A number prints as its decimal digits without a leading zero |
| `RangeStrings.ParseUnsigned` | src/ripple/beast/core/LexicalCast.h:47-136 | The digit loop with its overflow test succeeds exactly on an optional plus sign and at least one digit that stand for a number up to the maximum, and returns that number |
| `RangeStrings.ParseDecimal` | src/ripple/basics/RangeSet.h:82-87 | A printed number parses back |
| `RangeStrings.SplitJoin` | src/ripple/basics/RangeSet.h:130-133 | Splitting undoes joining when no part holds the separator |
| `RangeStrings.JoinSplit` | src/ripple/basics/RangeSet.h:130-133 | Joining undoes splitting, and no piece holds the separator |
| `RangeStrings.TokenIff` | src/ripple/basics/RangeSet.h:133-163 | A token gives an interval iff it is one number, or two numbers around a dash |
| `RangeStrings.PrevMissingExact` | src/ripple/basics/RangeSet.h:172-191 | For all t and minVal: the result is the greatest value in [minVal, t-1] outside the set, or none when there is none, iff neither the set is empty with minVal < t, nor the set is non-empty with t = 0 < minVal and a value from minVal to the maximum is missing |
| `RangeStrings.PrevMissingCorrect` | src/ripple/basics/RangeSet.h:180-191 | For a non-empty set and t above minVal the documentation holds |
| `RangeStrings.PrevMissingOfEmpty` | src/ripple/basics/RangeSet.h:184-185 | For the empty set nothing is returned although t - 1 is missing |
| `RangeStrings.PrevMissingWraps` | src/ripple/basics/RangeSet.h:186-186 | For t = 0 below minVal the predecessor wraps to the maximum, and the result is the greatest missing value from minVal to the maximum, or none when none is missing |
| `RangeSets.InsertContains` | src/ripple/basics/RangeSet.h:141-154 | Inserting an interval adds exactly its values |
| `RangeSets.InsertCanonical` | src/ripple/basics/RangeSet.h:58-70 | Inserting keeps the fewest disjoint, non-touching intervals |
| `RangeSets.CanonicalUnique` | src/ripple/basics/RangeSet.h:58-70 | Two canonical forms of the same set are equal |

## Left out

- SSE2 and inline-assembly variants, and `curve25519-donna-32bit.h`: the same mathematics in another number format.
- The precomputed tables themselves: their stated multiples are hypotheses.
- `sc_reduce` and `sc_muladd` of the reference implementation: the specification of the Barrett path in long straight-line code.
- The reference field arithmetic in ten limbs other than `fe_tobytes`.
- Group law, primality and Fermat's little theorem: hypotheses, since they are not about the code.
- Aliasing of output and input limb arrays in the field and point routines: they are modelled on values, so overwriting an operand in place is not captured.
- BatchVerify.SignOpenBatch: for blocks with points outside the subgroup of order m the passing condition is the final ladder's, not an equation between the signatures; for scalars on which that ladder leaves its array nothing is promised.
- FinalLadder.Ladder: says nothing about what the C code does once its scan has left the array, because that is undefined.
- BatchVerify.LoadPoints: a point that does not decode leaves its slot unchanged, whereas the C code leaves partial coordinates there; the block is abandoned and the slots in use are loaded again by the next one.
- Montgomery.ScalarMultX: works on residues; the ten-limb field elements of the reference implementation and their bounds are not modelled.
- Montgomery.Ladder: works on residues, likewise.
- Montgomery.Round: works on residues, likewise.
- Montgomery.LadderStep: works on residues, likewise; for any modulus.
- Scalars.FromBytes: models `expand256_modm` only; `expand_raw256_modm` and the fast Curve25519 base multiplication that uses it are not modelled.
- ScalarModm.Multiply: for the 56-bit layout says nothing about products of 2^512 or more, whose top quotient limb leaves its 56 bits; no caller passes more than the product of two reduced scalars.
- Constant-time behaviour, and the comparison loop of `ed25519_verify`, which is modelled as equality of byte strings.
- Random byte generation, OpenSSL and custom hashes, fuzz drivers, test programs.
- Boost interval sets beyond insertion, difference and the last element; lexical casts other than to unsigned numbers.
- The rest of `src/ripple`: declarations, wrappers and single-formula functions.
