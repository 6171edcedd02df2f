# Verified model of bridgeX

A Dafny model of the parts of the repository where a mistake is easiest to make and hardest to see,
with proofs of what they promise. `dafny verify dfyconfig.toml` checks the whole project.

**Scalar multiplication (secp256k1).** Points are elements of an arbitrary abelian group whose laws are hypotheses
(`Groups.dfy`, `Selection.dfy`), scalars are naturals below n (SEC 2, section 2.7.1). Three signed-digit recodings (`Wnaf.dfy`,
`WnafFixed.dfy`, `WnafConst.dfy`) feed four multiplications (`Strauss.dfy`, `Pippenger.dfy`, `EcmultConst.dfy`,
`EcmultGen.dfy`), each proved equal to the plain sum of scalar times point. `ScratchSizes.dfy`, `ScratchSpace.dfy` and
`MultiMult.dfy` are the batching driver with its scratch space, proved equal to its reference loop for every space; no
allocation runs past its frame. The branch without endomorphism, with the
5x52 field, the assembly multiplication and the built-in inversion is modelled, as the shipped configuration selects.

**Field arithmetic (`Field5x52.dfy`, `FieldMul.dfy`, `FieldChains.dfy`, `FieldBytes.dfy`,
`PrimeResidues.dfy`).** Five limbs of 52 bits in 64-bit words. The words wrap
explicitly; what a lost carry does is stated exactly. Multiplication and squaring follow the register steps of the
assembly, with the bounds that make its truncations harmless. Inversion, square root and batch inversion take Fermat's
little theorem for p as a hypothesis; their theory is proved for any modulus at which it holds.

**ECDSA and DER (`Der.dfy`, `Ecdsa.dfy`).** The strict reader and the writer, characterised by the DER encoding
(X.690, sections 8.1.3 and 8.3) and shown to undo each other; signing and verification over an abstract curve with an
x-coordinate map (SEC 1, sections 4.1.3 and 4.1.4). The scalar inverse is a parameter with the inverse law as hypothesis.

**State vectors (`PolicyFunction.dfy`, `StateRecords.dfy`, `StateOwners.dfy`, `StateRequests.dfy`, `StateLookups.dfy`,
`StateCells.dfy`, `StateExamples.dfy`).** The walk over variable-length records, decryption and encryption of the
records, cell by cell and with the key each cell is sealed under, exactly when the two fail and exactly when they undo
each other, exactly when encryption finds the owners it should, and exactly when the public keys that
encryption and decryption look up were asked for. The cipher and the hexadecimal and address conversions are
parameters; the nonces are arbitrary.

**Interpreter (`EvmCode.dfy`, `EvmMemory.dfy`, `Evm.dfy`, `EvmRuns.dfy`, `EvmInstructions.dfy`, `EvmCalls.dfy`,
`EvmOpcodes.dfy`, `EvmStatic.dfy`, `EvmWords.dfy`, `EvmArithmetic.dfy`, `EvmRanges.dfy`).** The eEVM run loop with nested
contexts, exceptions, returns, calls and creations. What an instruction learns from outside (a word it reads there,
whether the account interface refuses, the code it addresses) is an arbitrary choice in each dispatch; a run is any
finite sequence of choices. The
invariant is proved for every set of instructions that is safe, and the interpreter's own instructions are shown to be
safe. What each instruction does is then stated by position on the stack and byte of memory, and the word that an
arithmetic instruction leaves is computed in `EvmWords.dfy`; the theorems about runs leave that word open, and
`EvmArithmetic.dfy` shows that the runs with the computed words are among theirs. In those every word stays below 2^256
(`EvmRanges.dfy`).

**Governance (`Governance.dfy`).** Members, recovery threshold and service status as steps on tables, over every sequence of
steps. The node's own transition to waiting for recovery shares is one of the steps.

Modules of general use: `Wrappers.dfy`, `Arith.dfy`, `Bits.dfy`, `Bitwise.dfy`, `Digits.dfy`, `ByteStrings.dfy`,
`Blocks.dfy`, `Scalars.dfy`.

## Where the code does not do what it seems to

- `normalize` and its relatives lose a carry for some limbs of magnitude 2048, which the debug checks admit
  (`Field5x52.Magnitude2048Wraps`); they are right exactly when no carry is lost (`Field5x52.KeptCongruent`).
- `encrypt_states` reads mapping values at a distance of two cells, which is right exactly for mappings of depth one
  (`StateRecords.MappingRoundTrip`; `StateExamples.DeepValueLost`).
- `encrypt_states` reads owner addresses from the earlier vector at plaintext offsets; once public keys were requested
  that vector is still encrypted (tee/src/transaction/generator.h:194-196). The addresses are the owners' own exactly
  when nothing that grows by encryption comes before an owner variable (`StateOwners.OwnersAreFound`; `StateExamples.WrongOwnerSealed`).
- `decrypt_states` and `encrypt_states` treat a mapping owned by the tee or by a variable as a single value. The vectors
  they return are complete exactly when no policy state is of that kind (`StateRecords.OpenedIsComplete`,
  `StateRecords.SealedIsComplete`; `StateExamples.TeeMappingOpened`, `StateExamples.TeeMappingSealed`).
- `request_public_keys` asks for the key parts at a mapping's owner position, inputs in the form the client sent them;
  `encrypt_states` looks up the first key cells, as many as there are keys, in checksum form. Everything it looks up was
  asked for, whatever the client sends, exactly when each name among those cells stands at a position asked for and is
  the sender (`StateRequests.KeysAsked`; `StateExamples.SpenderFails`, `StateExamples.RawInputFails`). Where the client
  sends checksum forms the first half suffices (`StateRequests.PlainKeysAsked`).
- `encrypt_states` seals for the owners of the earlier vector, and the next `request_public_keys` asks for those of the
  new one. What was encrypted can always be decrypted with the keys asked for then exactly when no lookup depends on a
  variable (`StateLookups.StaysReadable`; `StateExamples.HandoverUnreadable`). After a transaction that found its owners
  it can whenever the variables keep their addresses (`StateLookups.KeptOwnersReadable`).
- The outermost context starts with its counter marked as just set. An instruction that does not set the counter is
  dispatched again exactly when it is the first of the run, and the first one does so exactly when it is JUMPDEST or
  pushes what it reads (`EvmRuns.StayRepeatsOnlyAtFirst`, `EvmRuns.FirstInstructionTwice`; `EvmRuns.AddressTwice`).
- A static call opens a second context that is not static and whose caller is the callee itself, exactly when it enters
  at all and the depth has room for two (`EvmStatic.StaticCallOpensTwo`); the callee's code then runs in both, one after
  the other (`EvmStatic.CalleeRunsAgain`; `EvmStatic.CalleeStopsTwice`).
- A nested context that runs off its code ends the whole run, exactly when its caller's stack is not full
  (`EvmRuns.RunningOffTheEndLeavesCallers`; `EvmRuns.CallerLeftBehind`).
- Duplication ignores the stack limit: a run stays within it exactly when it never duplicates on a full stack
  (`EvmRuns.StackLimit`; `EvmRuns.StackOverflows`).
- SDIV takes the word 2^64 - 1 for -1 in its overflow case, so the quotient is wrong exactly for the least number divided
  by that word (`EvmWords.DivisionMeans`).
- ADDMOD and MULMOD reduce what is left of the sum or product in a word. ADDMOD is right exactly when the sum fits or
  the modulus divides 2^256 (`EvmWords.AddmodMeans`), MULMOD exactly when the modulus divides what does not fit
  (`EvmWords.MulmodMeans`).
- BYTE with an index of 32 or more leaves the second word on the stack, and EXP with an exponent of more than 64 bits
  fails (`EvmInstructions.ReplacesMeans`).
- A call made in a static context opens one that is not static (`EvmCalls.CallOpens`).
- A scratch frame of zero bytes is granted even when nothing is left (`ScratchSpace.Scratch.AllocateFrame`).
- A DER integer that is negative or too large is accepted as zero, so writing what was read gives the same bytes exactly
  when neither integer overflowed (`Der.SerializeInvertsParse`; `Der.NegativeReadsAsZero`).
- `sig_sign` does not refuse r = 0, and a signature with r = 0 is the only kind it makes that `sig_verify` rejects
  (`Ecdsa.SignedIsAccepted`). It takes a nonce whose point has an x-coordinate that is 0 modulo n; the curve is abstract
  here, so no such nonce is given.

## Model

| member | source | states |
|---|---|---|
| `Wnaf.EcmultWnaf` | tee/3rdparty/secp256k1/src/ecmult_impl.h:426-482 | for every scalar whose signed representative fits the length the digits sum to it, each nonzero digit is odd and below 2^(w-1), nonzero positions are at least w apart, everything from the returned length on is zero and the final carry is zero |
| `Wnaf.Magnitude` | tee/3rdparty/secp256k1/src/ecmult_impl.h:442-446 | the sign and absolute value the recoding starts from stand for the scalar modulo n, and bit 255 of the absolute value is clear |
| `Wnaf.EmitDigit` | tee/3rdparty/secp256k1/src/ecmult_impl.h:452-472 | one window: the digit plus what the next carry owes is what was left of the scalar, and at the end of the array no carry remains |
| `WnafFixed.WnafFixed` | tee/3rdparty/secp256k1/src/ecmult_impl.h:882-961 | for every s below 2^256 the digits in base 2^w sum to s + skew as integers, each is zero or odd and below 2^w in absolute value |
| `WnafFixed.SkipLeadingZeros` | tee/3rdparty/secp256k1/src/ecmult_impl.h:905-921 | the scan from the top finds a position above which the scalar has no bits and zeroes exactly the digits above it |
| `WnafFixed.AppendWord` | tee/3rdparty/secp256k1/src/ecmult_impl.h:926-936 | writing the next word, with a borrow from it when it is even, keeps the value of the digits so far and their ranges |
| `WnafFixed.FoldKeeps` | tee/3rdparty/secp256k1/src/ecmult_impl.h:937-956 | turning a digit 1 or -1 into a change of the digit below keeps the value and the digit ranges |
| `WnafConst.WnafConst` | tee/3rdparty/secp256k1/src/ecmult_const_impl.h:55-129 | for every scalar that fits the size all digits are odd and below 2^w in absolute value and their weighted sum is the centred scalar plus a skew of 1 or 2 |
| `WnafConst.Prepare` | tee/3rdparty/secp256k1/src/ecmult_const_impl.h:86-102 | the flip to the low half and the added skew make the number odd and keep it congruent to scalar plus skew, also for n - 1 |
| `WnafConst.Borrow` | tee/3rdparty/secp256k1/src/ecmult_const_impl.h:112-117 | an even digit is made odd by moving one unit between neighbouring digits without changing their joint value |
| `Strauss.OddMultiplesTable` | tee/3rdparty/secp256k1/src/ecmult_impl.h:82-120 | entry i of the table is (2i+1) times the point |
| `Strauss.TableGetIsMultiple` | tee/3rdparty/secp256k1/src/ecmult_impl.h:290-305 | the lookup of an odd digit inside the table, negated when the digit is, is the digit times the point |
| `Strauss.BuildTables` | tee/3rdparty/secp256k1/src/ecmult_impl.h:579-632 | the tables of all chosen points sit side by side, each an odd table of its point |
| `Strauss.ChoosePoints` | tee/3rdparty/secp256k1/src/ecmult_impl.h:537-577 | dropping zero scalars and points at infinity leaves the sum unchanged, and no recoding is longer than the reported number of bits |
| `Strauss.HornerStep` | tee/3rdparty/secp256k1/src/ecmult_impl.h:679-738 | doubling and adding the digits of one position advances the Horner sum over all points at once |
| `Strauss.StraussWnaf` | tee/3rdparty/secp256k1/src/ecmult_impl.h:510-744 | for any number of points the interleaved loop returns the plain sum of scalar times point plus the generator term |
| `Strauss.ContextBuild` | tee/3rdparty/secp256k1/src/ecmult_impl.h:332-370 | the generator table holds its odd multiples |
| `Strauss.Ecmult` | tee/3rdparty/secp256k1/src/ecmult_impl.h:746-770 | the double multiplication returns na*A + ng*G |
| `Pippenger.AddToBucket` | tee/3rdparty/secp256k1/src/ecmult_impl.h:1044-1059 | a nonzero digit has a bucket inside the array, and adding there changes the odd-weighted bucket sum by digit times point |
| `Pippenger.FillBuckets` | tee/3rdparty/secp256k1/src/ecmult_impl.h:1021-1060 | after one round of filling the odd-weighted bucket sum is the sum of digit times point, with the skew taken back in round 0 |
| `Pippenger.OddWeightedIsLin` | tee/3rdparty/secp256k1/src/ecmult_impl.h:1068-1088 | total plus twice the running-sum ramp is the bucket sum with weights 1, 3, 5 and so on |
| `Pippenger.FoldBuckets` | tee/3rdparty/secp256k1/src/ecmult_impl.h:1062-1088 | one round maps r to 2^(w+1)*r plus the odd-weighted bucket sum |
| `Pippenger.Rounds` | tee/3rdparty/secp256k1/src/ecmult_impl.h:1017-1089 | after all rounds r is the sum of the recoded scalars times their points |
| `Pippenger.RemainingIsScalars` | tee/3rdparty/secp256k1/src/ecmult_impl.h:997-1009 | the recoded scalars minus their skews are the chosen scalars |
| `Pippenger.PippengerWnaf` | tee/3rdparty/secp256k1/src/ecmult_impl.h:982-1091 | for every list of scalars below 2^256 and points and every window the bucket method returns the plain sum |
| `ScratchSizes.WindowGalois` | tee/3rdparty/secp256k1/src/ecmult_impl.h:1097-1256 | the window of n is w exactly when n lies between the largest counts of window w-1 and window w |
| `ScratchSizes.PippengerMaxPoints` | tee/3rdparty/secp256k1/src/ecmult_impl.h:1425-1470 | every count from 1 to the result fits the allocation limit with its own window, and one more does not; what a count needs is proved enough for its six objects by ScratchSpace.BucketFrame |
| `ScratchSizes.WindowPoints` | tee/3rdparty/secp256k1/src/ecmult_impl.h:1432-1468 | one turn of the loop over windows keeps all smaller counts fitting and stops exactly when larger ones cannot |
| `ScratchSizes.StraussMaxPoints` | tee/3rdparty/secp256k1/src/ecmult_impl.h:772-873 | a count fits the limit exactly when it is at most the returned maximum |
| `ScratchSpace.Scratch.MaxAllocation` | tee/3rdparty/secp256k1/src/scratch_impl.h:41-55 | what may still be asked for: the limit less all open frames and the alignment of the objects, and 0 when nothing is left |
| `ScratchSpace.Scratch.AllocateFrame` | tee/3rdparty/secp256k1/src/scratch_impl.h:57-80 | opens a frame of the size and the alignment of its objects exactly when that may still be asked for; a frame that is not opened changes nothing |
| `ScratchSpace.Scratch.DeallocateFrame` | tee/3rdparty/secp256k1/src/scratch_impl.h:82-87 | the last frame is gone and the ones before are as they were |
| `ScratchSpace.Scratch.Alloc` | tee/3rdparty/secp256k1/src/scratch_impl.h:89-106 | hands out the next aligned range of the last frame exactly when it lies inside the frame, and otherwise changes nothing |
| `ScratchSpace.FrameFor` | tee/3rdparty/secp256k1/src/scratch_impl.h:57-106 | in a frame granted for objects of that total size all six allocations succeed, one after the other, disjoint, and none runs past the frame; it is refused exactly when the size may not be asked for |
| `ScratchSpace.BucketFrame` | tee/3rdparty/secp256k1/src/ecmult_impl.h:1286-1299 | the size asked for by the bucket method is the total of its six objects for n + 1 entries, and one int an entry more |
| `ScratchSpace.StraussFrame` | tee/3rdparty/secp256k1/src/ecmult_impl.h:772-789 | the size asked for by the interleaved method is exactly the total of its six objects |
| `MultiMult.StraussBatch` | tee/3rdparty/secp256k1/src/ecmult_impl.h:791-853 | its frame holds the six allocations and is given back; succeeds exactly when there is nothing to do or the frame is granted and the callback delivers; then the result is the batch's sum |
| `MultiMult.PippengerBatch` | tee/3rdparty/secp256k1/src/ecmult_impl.h:1301-1404 | the same for the bucket method, with the generator appended as one more point and one more entry in each object |
| `MultiMult.MultiSimple` | tee/3rdparty/secp256k1/src/ecmult_impl.h:1474-1506 | the reference loop returns the sum whenever every term is delivered |
| `MultiMult.BatchesCover` | tee/3rdparty/secp256k1/src/ecmult_impl.h:1510-1534 | the batch count and size cover n, no batch is empty and none exceeds the limit |
| `MultiMult.BatchSizes` | tee/3rdparty/secp256k1/src/ecmult_impl.h:1510-1534 | fails exactly for a zero limit; otherwise as few batches as the limit allows, as small as that number allows, and they cover n without an empty one |
| `MultiMult.Plan` | tee/3rdparty/secp256k1/src/ecmult_impl.h:1585-1610 | the buckets are used exactly when the batches of the largest count they hold have 160 points or more; whichever algorithm is chosen, its batches have room in the scratch space; there is a plan exactly when one point fits |
| `MultiMult.RunBatches` | tee/3rdparty/secp256k1/src/ecmult_impl.h:1611-1631 | the batches partition the terms, the generator term is added once, and the result is the whole sum |
| `MultiMult.MultiVar` | tee/3rdparty/secp256k1/src/ecmult_impl.h:1544-1632 | for every scratch space, which is left as it was: succeeds exactly when the terms are delivered and one point fits, and then equals the reference sum |
| `EcmultConst.ConstTableGet` | tee/3rdparty/secp256k1/src/ecmult_const_impl.h:16-38 | the scan that touches every entry returns the same as the direct lookup |
| `EcmultConst.MultiplyDigits` | tee/3rdparty/secp256k1/src/ecmult_const_impl.h:196-235 | the loop of four doublings and one addition returns the digit string's value times the point, and never meets the exceptional cases of its addition |
| `EcmultConst.SuffixBound` | tee/3rdparty/secp256k1/src/ecmult_const_impl.h:196-235 | the value of the leading digits stays small enough that no intermediate point is infinite |
| `EcmultConst.CorrectSkew` | tee/3rdparty/secp256k1/src/ecmult_const_impl.h:239-285 | subtracting one or two times the point takes the skew back out |
| `EcmultConst.EcmultConst` | tee/3rdparty/secp256k1/src/ecmult_const_impl.h:131-286 | for every scalar of the given size the result is scalar times point |
| `EcmultConst.FullSize` | tee/3rdparty/secp256k1/src/ecmult_const_impl.h:131-145 | size 256 admits every scalar |
| `EcmultGen.OffsetsCancel` | tee/3rdparty/secp256k1/src/ecmult_gen_impl.h:68-94 | the 64 offsets added to the table rows sum to zero |
| `EcmultGen.BuildTable` | tee/3rdparty/secp256k1/src/ecmult_gen_impl.h:22-110 | row j holds offset plus i*16^j*G for i from 0 to 15 |
| `EcmultGen.SelectEntry` | tee/3rdparty/secp256k1/src/ecmult_gen_impl.h:171-185 | the scan over the row returns the selected entry |
| `EcmultGen.GenContext.constructor` | tee/3rdparty/secp256k1/src/ecmult_gen_impl.h:22-110 | a built context is valid: its starting point is minus blind times G |
| `EcmultGen.GenContext.Multiply` | tee/3rdparty/secp256k1/src/ecmult_gen_impl.h:153-192 | returns k*G for every scalar k, whatever the blinding |
| `EcmultGen.GenContext.Blind` | tee/3rdparty/secp256k1/src/ecmult_gen_impl.h:195-255 | reblinding, with or without reset, keeps the starting point equal to minus blind times G |
| `EcmultGen.GenContext.MultiplyAfter` | tee/3rdparty/secp256k1/src/ecmult_gen_impl.h:153-255 | after any sequence of reblindings multiplication still returns k*G |
| `Field5x52.CanonicalUnique` | tee/3rdparty/secp256k1/src/field_5x52_impl.h:33-57 | a normalized element is determined by its residue |
| `Field5x52.MagnitudeNoWrap` | tee/3rdparty/secp256k1/src/field_5x52_impl.h:65-83 | up to magnitude 2047 no carry of the first pass leaves 64 bits |
| `Field5x52.Magnitude2048Wraps` | tee/3rdparty/secp256k1/src/field_5x52_impl.h:33-57 | at magnitude 2048, which the debug checks admit, a carry can be lost |
| `Field5x52.KeptCongruent` | tee/3rdparty/secp256k1/src/field_5x52_impl.h:65-83 | for all 64-bit limbs the first pass keeps the residue exactly when no carry is lost |
| `Field5x52.FirstPass` | tee/3rdparty/secp256k1/src/field_5x52_impl.h:65-83 | the carry pass subtracts a multiple of p from the value it kept and leaves limbs in range |
| `Field5x52.SecondPass` | tee/3rdparty/secp256k1/src/field_5x52_impl.h:95-118 | the conditional final pass subtracts p once and leaves the canonical form |
| `Field5x52.Normalize` | tee/3rdparty/secp256k1/src/field_5x52_impl.h:60-125 | for all 64-bit limbs the result is canonical with the residue of the value kept |
| `Field5x52.NormalizeVar` | tee/3rdparty/secp256k1/src/field_5x52_impl.h:164-230 | the early-exit form gives the same canonical result |
| `Field5x52.NormalizeWeak` | tee/3rdparty/secp256k1/src/field_5x52_impl.h:127-162 | magnitude 1 and the same residue |
| `Field5x52.NormalizesToZero` | tee/3rdparty/secp256k1/src/field_5x52_impl.h:232-272 | true exactly when the value kept is 0 modulo p |
| `Field5x52.NormalizesToZeroVar` | tee/3rdparty/secp256k1/src/field_5x52_impl.h:274-328 | the early-exit form decides the same |
| `Field5x52.Negate` | tee/3rdparty/secp256k1/src/field_5x52_impl.h:472-489 | the negative modulo p, magnitude one higher, no limb below zero |
| `Field5x52.Add` | tee/3rdparty/secp256k1/src/field_5x52_impl.h:505-521 | values and magnitudes add without wrap-around |
| `Field5x52.Equal` | tee/3rdparty/secp256k1/src/field_impl.h:25-32 | decides congruence modulo p |
| `Field5x52.CompareVar` | tee/3rdparty/secp256k1/src/field_5x52_impl.h:373-394 | limb-wise comparison orders normalized elements by value |
| `FieldBytes.SetB32` | tee/3rdparty/secp256k1/src/field_5x52_impl.h:396-428 | the limbs hold the big-endian value, and the answer says whether it is below p |
| `FieldBytes.GetB32` | tee/3rdparty/secp256k1/src/field_5x52_impl.h:432-470 | the 32 bytes have the element's value |
| `FieldBytes.BytesRoundTrip` | tee/3rdparty/secp256k1/src/field_5x52_impl.h:396-470 | bytes and tight limbs of the same value determine each other, so reading and writing undo each other |
| `FieldBytes.MulInt` | tee/3rdparty/secp256k1/src/field_5x52_impl.h:491-503 | multiplies value and magnitude without wrap-around |
| `FieldBytes.ToStorage` | tee/3rdparty/secp256k1/src/field_5x52_impl.h:590-600 | the four packed words have the element's value |
| `FieldBytes.FromStorage` | tee/3rdparty/secp256k1/src/field_5x52_impl.h:602-614 | the unpacked limbs are tight and have the packed value |
| `FieldBytes.TightUnique` | tee/3rdparty/secp256k1/src/field_5x52_impl.h:590-614 | tight limbs are determined by their value, so unpacking undoes packing |
| `FieldMul.MulInner` | tee/3rdparty/secp256k1/src/field_5x52_asm_impl.h:18-299 | step by step through the registers, with every accumulator within 128 bits and every dropped high half zero, the limbs are the reduced columns of the product; r may alias a |
| `FieldMul.SqrInner` | tee/3rdparty/secp256k1/src/field_5x52_asm_impl.h:301-528 | the squaring gives, limb for limb, what the multiplication of a by itself gives |
| `FieldMul.ColumnsAreProduct` | tee/3rdparty/secp256k1/src/field_5x52_asm_impl.h:18-299 | the nine column sums are the product of the two values |
| `FieldMul.ReducedCorrect` | tee/3rdparty/secp256k1/src/field_5x52_asm_impl.h:18-299 | the one-pass reduction of bounded columns is congruent to their value and its top limb is in range |
| `FieldMul.ProductCorrect` | tee/3rdparty/secp256k1/src/field_5x52_asm_impl.h:18-528 | the five limbs computed from any bounded columns have magnitude 1 and stand, modulo p, for the number the columns hold |
| `FieldMul.Mul` | tee/3rdparty/secp256k1/src/field_5x52_impl.h:523-542 | multiplication as the rest of the field code calls it |
| `FieldMul.Sqr` | tee/3rdparty/secp256k1/src/field_5x52_impl.h:544-556 | squaring as the rest of the field code calls it |
| `FieldChains.Link` | tee/3rdparty/secp256k1/src/field_impl.h:64-96 | k squarings and a product turn exponents e and f into e*2^k + f |
| `FieldChains.LowBlocks` | tee/3rdparty/secp256k1/src/field_impl.h:64-96 | the blocks of 2, 3 and 22 one bits |
| `FieldChains.HighBlock` | tee/3rdparty/secp256k1/src/field_impl.h:98-131 | the block of 223 one bits |
| `FieldChains.Inv` | tee/3rdparty/secp256k1/src/field_impl.h:157-261 | the addition chain computes the power p - 2 |
| `PrimeResidues.InverseLaw` | tee/3rdparty/secp256k1/src/field_impl.h:157-303 | modulo any m at which Fermat's little theorem holds, the power m - 2 of a nonzero element is its inverse, and of zero it is zero |
| `FieldChains.Sqrt` | tee/3rdparty/secp256k1/src/field_impl.h:43-155 | true exactly for squares, the root is then right, otherwise it is a root of -a, and the root is itself a square |
| `PrimeResidues.RootLaw` | tee/3rdparty/secp256k1/src/field_impl.h:45-53 | modulo such an m the power (m+1)/4 is a root of x exactly when x is a square, and a root of -x otherwise |
| `PrimeResidues.NoZeroDivisors` | tee/3rdparty/secp256k1/src/field_impl.h:305-335 | modulo such an m a product is zero exactly when a factor is, which is why one zero in a batch spoils all |
| `FieldChains.InvAll` | tee/3rdparty/secp256k1/src/field_impl.h:305-335 | one inversion inverts every element of a list without zeros; with a zero in the list all results are zero |
| `Der.ReadLen` | tee/3rdparty/secp256k1/src/ecdsa_impl.h:54-114 | reads exactly the DER length fields that lie in the input, never past its end, with the 64-bit accumulation and the conversion to int |
| `Der.Accumulate` | tee/3rdparty/secp256k1/src/ecdsa_impl.h:97-107 | the long-form loop stops exactly when the length overruns the input |
| `Der.ParseInteger` | tee/3rdparty/secp256k1/src/ecdsa_impl.h:116-171 | for inputs of any size: accepts exactly minimally padded integers of the length that the int conversion leaves, a negative or too large one reads as zero, and never reads past the end |
| `Der.ReadsShort` | tee/3rdparty/secp256k1/src/ecdsa_impl.h:116-171 | in an input that an int can measure these are exactly the DER integers |
| `Der.SigParse` | tee/3rdparty/secp256k1/src/ecdsa_impl.h:173-215 | accepts exactly two integers in a sequence that fills the input, of a size an int can hold, and returns their scalars |
| `Der.LenEncodes` | tee/3rdparty/secp256k1/src/ecdsa_impl.h:54-114 | every accepted length field is the one DER encoding of its value |
| `Der.LenAccepted` | tee/3rdparty/secp256k1/src/ecdsa_impl.h:54-114 | every DER length that fits is accepted with its value |
| `Der.AcceptedEncodes` | tee/3rdparty/secp256k1/src/ecdsa_impl.h:173-215 | soundness: accepted bytes are the DER form of the contents read |
| `Der.EncodedAccepted` | tee/3rdparty/secp256k1/src/ecdsa_impl.h:173-215 | completeness: every DER form of two minimal integers is accepted with those contents |
| `Der.StripContent` | tee/3rdparty/secp256k1/src/ecdsa_impl.h:223-237 | stripping zeros from 33 bytes leaves the unique minimal content of the scalar |
| `Der.SigSerialize` | tee/3rdparty/secp256k1/src/ecdsa_impl.h:217-253 | writes the DER form when it fits and reports the needed size in any case; the rest of the buffer is untouched |
| `Der.ParseInvertsSerialize` | tee/3rdparty/secp256k1/src/ecdsa_impl.h:173-253 | reading what was written gives the signature back, for all r and s below n |
| `Der.SerializeInvertsParse` | tee/3rdparty/secp256k1/src/ecdsa_impl.h:116-253 | writing what was read gives the same bytes exactly when neither integer overflowed |
| `Der.NegativeReadsAsZero` | tee/3rdparty/secp256k1/src/ecdsa_impl.h:140-170 | a signature with a negative r that reads as (0, 1) and is written as other bytes |
| `Ecdsa.TwoCandidates` | tee/3rdparty/secp256k1/src/ecdsa_impl.h:300-318 | since n < p < 2n, X mod n = r exactly when X is r, or r + n with r below p - n |
| `Ecdsa.MatchesX` | tee/3rdparty/secp256k1/src/ecdsa_impl.h:297-335 | the inversion-free test decides X mod n = r |
| `Ecdsa.Verify` | tee/3rdparty/secp256k1/src/ecdsa_impl.h:255-337 | accepts exactly the signatures that are valid by section 4.1.4 of SEC 1 |
| `Ecdsa.Sign` | tee/3rdparty/secp256k1/src/ecdsa_impl.h:339-392 | r is always the nonce point's X modulo n; fails exactly when m + r*d is 0 modulo n; otherwise s is low, s*k is plus or minus m + r*d, and recid describes the nonce point |
| `Ecdsa.RecoveredPoint` | tee/3rdparty/secp256k1/src/ecdsa_impl.h:270-283 | from a signature the verifier recomputes the nonce point, or its negative when s was negated |
| `Ecdsa.SignedIsAccepted` | tee/3rdparty/secp256k1/src/ecdsa_impl.h:255-392 | a signature made with the secret key is accepted exactly when r is not zero, also after the negation to low s; recid gives the parity and overflow of the recomputed point |
| `PolicyFunction.GetMappingKeys` | tee/src/queue/types.h:169-209 | the key cells of every access to the state, in order, encoded or plain, of all parts or of the part at one position; fails exactly when a key has no such position |
| `PolicyFunction.GetKeysSize` | tee/src/queue/types.h:211-222 | the number of those keys |
| `PolicyFunction.KeysFillCells` | tee/src/queue/types.h:169-222 | the two agree: keys of depth d whose parts resolve fill d cells each |
| `PolicyFunction.PickedFillOne` | tee/src/queue/types.h:169-222 | with a position they give one cell each |
| `StateRecords.ResolvedPolicyFits` | tee/src/queue/workertransaction.h:169-203 | so a policy whose mappings are accessed with resolved keys of their depth fits the state vectors |
| `StateRecords.ReturnLen` | tee/src/queue/workertransaction.h:187-203 | the announced length is the end of the last record when every state has one |
| `StateRecords.VisitStates` | tee/src/queue/workertransaction.h:412-427 | the callback is called exactly at the starts of the records, in order, and the walk ends at the end of the vector |
| `StateRecords.CompleteWalk` | tee/src/queue/workertransaction.h:412-427 | on a complete vector the walk visits each state once, in order, at the offset that the lengths before it give |
| `StateRecords.InOrderIsComplete` | tee/src/queue/workertransaction.h:187-203 | whole records, one for each state, in order and with the requested counts, end at the announced length; these are exactly the complete vectors |
| `StateRecords.OpenRecordLength` | tee/src/queue/workertransaction.h:276-350 | an opened record has the plaintext layout and keeps its id and count |
| `StateRecords.OpenedIsComplete` | tee/src/queue/workertransaction.h:276-350 | when decryption of a complete encrypted vector succeeds, what it returns is a complete plaintext vector exactly when no mapping has a single owner |
| `StateRecords.DecryptStates` | tee/src/queue/workertransaction.h:276-350 | the opened records one after the other, whose cells StateCells.DecryptedCells gives; fails exactly as StateCells.DecryptsIff says |
| `StateRecords.DecryptEntry` | tee/src/queue/workertransaction.h:298-321 | one entry of a mapping with an owner per key: zero where the owner cell is zero, otherwise what the public key received for the owner's address makes of the two cells before it; None without that key |
| `StateRecords.SealedIsComplete` | tee/src/queue/workertransaction.h:352-409 | when encryption of a complete plaintext vector succeeds, what it returns is a complete encrypted vector, exactly under the same condition |
| `StateRecords.CollectAddresses` | tee/src/queue/workertransaction.h:354-360 | owner addresses are read from the earlier vector at this vector's plaintext offsets |
| `StateOwners.OffsetsAgree` | tee/src/queue/workertransaction.h:354-360 | those offsets are the encrypted ones exactly while nothing that grows by encryption comes before |
| `StateOwners.OwnerIsRead` | tee/src/queue/workertransaction.h:354-360 | from every complete encrypted earlier vector the address of an owner variable is read from its own record, exactly when nothing that grows by encryption comes before it |
| `StateOwners.OwnersAreFound` | tee/src/queue/workertransaction.h:354-360 | all owner addresses are the ones in the variables' own records, for every such vector, exactly when that holds for every owner variable |
| `StateOwners.SealedOwnerCell` | tee/src/queue/workertransaction.h:397-407 | the owner cell written for a state with a named owner is the address found |
| `StateExamples.WrongOwnerSealed` | tee/src/queue/workertransaction.h:354-407 | a policy whose requested keys are those of 7 and 9, and vectors for which a value of owner 9 is sealed for 7 |
| `StateRecords.EncryptStates` | tee/src/queue/workertransaction.h:352-409 | the sealed records one after the other, whose cells StateCells.EncryptedCells gives; fails exactly as StateCells.EncryptsIff says |
| `StateRecords.EncryptEntry` | tee/src/queue/workertransaction.h:384-395 | one entry: the value of cell 3 + 2j sealed under the public key received for the address in the j-th key cell, and that cell as owner; None without that key |
| `StateCells.EncryptedCells` | tee/src/queue/workertransaction.h:352-409 | cell by cell, for every record of what encryption returns: ids, counts, keys and owners are where they belong, a value of the tee is sealed under the tee's key, one with a named owner under the public key of the address found for the name, and an entry's value under that of the address in its key cell |
| `StateCells.DecryptedCells` | tee/src/queue/workertransaction.h:276-350 | cell by cell, for every record of what decryption returns: ids, counts and keys are where they belong, and each value is what the tee's key or the public key of the address in the owner cell makes of the two cells before it, or the zero of its shape when the owner is zero |
| `StateCells.EncryptsIff` | tee/src/queue/workertransaction.h:352-409 | encryption succeeds exactly when no owner per key is asked of what is no mapping, the addresses in the first key cells of each mapping have public keys, and each named owner has an address with one |
| `StateCells.DecryptsIff` | tee/src/queue/workertransaction.h:276-350 | decryption succeeds exactly when no owner per key is asked of what is no mapping and every owner cell that is not zero has a public key |
| `StateRecords.MappingRestored` | tee/src/queue/workertransaction.h:298-395 | a mapping record survives encryption and decryption exactly when the cells at 3 + 2j are its values |
| `StateRecords.DeepCell` | tee/src/queue/workertransaction.h:384-395 | in a mapping deeper than one, cell 3 is a key cell |
| `StateRecords.DeepRecordLost` | tee/src/queue/workertransaction.h:384-395 | so a record of such a mapping whose first value is not that key cell is not restored |
| `StateExamples.DeepValueLost` | tee/src/queue/workertransaction.h:384-395 | a record of depth two with value 5 that comes back with value 8 |
| `StateExamples.TeeMappingOpened` | tee/src/queue/workertransaction.h:322-345 | a mapping owned by the tee with one entry, whose six cells are decrypted to two |
| `StateExamples.TeeMappingSealed` | tee/src/queue/workertransaction.h:396-408 | the same mapping in the clear, whose four cells are encrypted to a single value's four with the count in place of the value |
| `StateRequests.OwnAddresses` | tee/src/queue/workertransaction.h:222-228 | the first walk finds the address in each owner variable's own record |
| `StateRequests.RequestPublicKeys` | tee/src/queue/workertransaction.h:222-255 | fails exactly when a named owner is no variable or a key has no part at the position; otherwise the addresses asked for are, state by state in order, that of the variable or those of the key parts, nothing else is asked for, and the answer says whether the tee owns a state |
| `StateRequests.AskedIff` | tee/src/queue/workertransaction.h:230-255 | an address is asked for exactly when some state wants it: as the address its owner variable holds, the last of that name, or as a key part at its owner position |
| `StateRequests.StandsIff` | tee/src/queue/workertransaction.h:230-255 | the requests succeed exactly when every owner that is named is a variable and every key has the part asked for |
| `StateLookups.PolicyStands` | tee/src/queue/workertransaction.h:230-255 | a policy whose keys name inputs and have the parts asked for, and whose owners are its variables, never fails to ask, whatever the client sends |
| `StateRequests.KeysAsked` | tee/src/queue/workertransaction.h:242-250 | for every vector and whatever the client sends, every key that encryption looks up for mapping entries was asked for, exactly when the names among the first key cells of each mapping, as many as it has keys, stand at a position some mapping asks for and none of them is an input |
| `StateRequests.PlainKeysAsked` | tee/src/queue/workertransaction.h:242-250 | the same for values with their addresses in checksum form where they are looked up: exactly when those names stand at a position asked for |
| `StateRequests.DepthOneCovered` | tee/src/queue/workertransaction.h:242-250 | mappings of depth one owned by their key ask for the names they look up |
| `StateRequests.AnswersSuffice` | tee/src/queue/workertransaction.h:222-255 | with the answers to what was asked, and the owners found, encryption succeeds when the entries' keys were asked for; with no other keys, exactly then |
| `StateExamples.SpenderFails` | tee/src/queue/workertransaction.h:384-395 | a mapping of depth two owned by its second key: only 8 is asked for, 4 is looked up, and encryption fails |
| `StateExamples.RawInputFails` | tee/src/queue/workertransaction.h:384-389 | a mapping of depth one whose key the client sent in another form: it is asked for in that form, looked up in checksum form, and encryption fails |
| `StateLookups.AnsweredOpens` | tee/src/transaction/generator.h:188-194 | with the answers to what a vector asks for and no other keys, decryption succeeds exactly when every key it looks up was asked for |
| `StateLookups.SealedLookups` | tee/src/queue/workertransaction.h:276-409 | for every vector that encryption made, the keys that decryption looks up are asked for exactly when those of the first key cells and of the owners found in the vector before are among what the new vector asks for |
| `StateLookups.StaysReadable` | tee/src/queue/workertransaction.h:276-409 | every vector that a succeeding encryption can make is readable with the keys it asks for, exactly when those keys are asked for as parts of mapping keys, independently of the variables |
| `StateLookups.EntriesStayReadable` | tee/src/queue/workertransaction.h:242-250 | for mapping entries that holds whatever the client sends exactly under the condition of StateRequests.KeysAsked |
| `StateLookups.KeptOwnersReadable` | tee/src/queue/workertransaction.h:354-360 | after a transaction that found its owners and had the keys it asked for, what it made is readable if the owner variables keep their addresses |
| `StateExamples.HandoverUnreadable` | tee/src/queue/workertransaction.h:354-360 | a transaction that hands an owner variable from 9 to 8 seals for 9, while what it makes asks for 8 only |
| `StateRecords.MappingRoundTrip` | tee/src/queue/workertransaction.h:298-395 | every record of a mapping survives exactly when its depth is one or it has no entries |
| `StateRecords.SingleRestored` | tee/src/queue/workertransaction.h:322-407 | a singly owned record survives exactly when its owner is not the zero address or its value reads as zero anyway |
| `StateRecords.RecordRestored` | tee/src/queue/workertransaction.h:276-409 | a record that can be sealed survives exactly when every entry holds its keys and then cell 3 + 2j, or its owner is not the zero address; its public keys are found again |
| `StateRecords.StatesRoundTrip` | tee/src/queue/workertransaction.h:276-409 | the encrypted vector can always be decrypted, and that gives the vector back exactly when every record survives |
| `EvmCode.NoStartInside` | tee/eEVM/src/processor.cpp:52-64 | no instruction of the linear scan starts inside push data |
| `EvmCode.ComputeJumpDests` | tee/eEVM/src/processor.cpp:52-64 | the scan finds exactly the jump destinations at instruction starts |
| `EvmMemory.PrepareMemAccess` | tee/eEVM/src/processor.cpp:315-330 | fails exactly when the range ends beyond 2^25 bytes, also when the end wraps; otherwise grows with zeros and keeps the contents |
| `EvmMemory.CopyMemRaw` | tee/eEVM/src/processor.cpp:267-304 | each byte of the range is the source byte or padding, the rest is untouched; fails exactly beyond the limit |
| `EvmMemory.LoadWord` | tee/eEVM/src/processor.cpp:1053-1070 | the loop over 32 bytes gives the big-endian word at the offset, with zeros past the end |
| `Evm.MemoryEffect` | tee/eEVM/src/processor.cpp:974-996 | loads, stores, hashes and logs grow memory with zeros to the end of their range; stores write the bytes of the word there and no instruction changes any other byte; a load pushes the word it reads |
| `Evm.StoreThenLoad` | tee/eEVM/src/processor.cpp:974-988 | loading a stored word gives it back |
| `Evm.StackRoundTrips` | tee/eEVM/src/stack.cpp:68-82 | exchanging twice and popping a duplicate restore the stack; what either does by position is stated by EvmInstructions.SwapMeans and DupMeans |
| `EvmRuns.StackLimit` | tee/eEVM/src/stack.cpp:47-82 | the stacks of a run stay within 1024 words exactly when it never duplicates a word of a full stack |
| `EvmRuns.TurnWithin` | tee/eEVM/src/stack.cpp:47-82 | from a state within the limit one turn stays within it exactly when it does not duplicate on a full stack |
| `EvmRuns.StackOverflows` | tee/eEVM/src/stack.cpp:76-82 | a program of one push and 1024 duplications whose run has 1025 words on the stack |
| `Evm.StepReady` | tee/eEVM/src/processor.cpp:122-140 | stepping a context that is ready puts its counter on an instruction start |
| `Evm.PushSafe` | tee/eEVM/src/processor.cpp:1108-1131 | a push leaves the counter on the next instruction start; the word it pushes is stated by EvmInstructions.PushMeans |
| `Evm.InstructionSafe` | tee/eEVM/src/processor.cpp:360-665 | every instruction keeps the counter at its instruction or sends it to an instruction start, and keeps memory within the limit; what each one does is stated in EvmInstructions and EvmCalls |
| `EvmInstructions.JumpMeans` | tee/eEVM/src/processor.cpp:948-952 | in every state at a JUMP the turn goes to the top word exactly when that is a jump destination of 64 bits, with the word popped; otherwise it is an exception |
| `EvmInstructions.JumpiMeans` | tee/eEVM/src/processor.cpp:954-960 | JUMPI goes to the top word exactly when the second is not zero and the top is a destination, goes on after it exactly when the second is zero, and otherwise fails |
| `EvmInstructions.PushMeans` | tee/eEVM/src/processor.cpp:1108-1131 | PUSHn pushes the number that the n bytes after the opcode make, counter after them; it fails exactly when the bytes are not all followed by code or the stack is full |
| `EvmInstructions.DupMeans` | tee/eEVM/src/stack.cpp:76-82 | DUPn puts a copy of the n-th word on top and fails exactly with fewer words |
| `EvmInstructions.SwapMeans` | tee/eEVM/src/stack.cpp:68-74 | SWAPn exchanges the top and the word n below it, by position, and fails exactly with too few words |
| `EvmInstructions.PopMeans` | tee/eEVM/src/processor.cpp:1133-1136 | POP drops the top word and fails exactly without one |
| `EvmInstructions.ReturnMeans` | tee/eEVM/src/processor.cpp:1232-1251 | RETURN hands over the bytes of memory from the top word on, as many as the second says; it fails exactly with fewer or wider words or beyond the memory limit; REVERT always fails |
| `EvmInstructions.CopyMeans` | tee/eEVM/src/processor.cpp:1017-1080 | CALLDATACOPY, CODECOPY, EXTCODECOPY and RETURNDATACOPY each copy from their own source: byte by byte the memory afterwards, and when they fail |
| `EvmInstructions.CallDataLoadMeans` | tee/eEVM/src/processor.cpp:1053-1070 | CALLDATALOAD pushes the 32 bytes of input from the offset on, zeros past its end; which offsets fail and which leave the interpreter with a foreign exception |
| `EvmInstructions.MemoryMeans` | tee/eEVM/src/processor.cpp:974-996 | MLOAD, MSTORE, MSTORE8 and SHA3: exactly when they succeed, the words they take and leave, and every byte of memory afterwards |
| `EvmInstructions.ReadersMean` | tee/eEVM/src/processor.cpp:964-1106 | PC, ADDRESS, CALLER, CALLDATASIZE and RETURNDATASIZE push what the context says, MSIZE the memory in whole words, the other readers a word from outside; they fail exactly on a full stack |
| `EvmInstructions.ReplacesMeans` | tee/eEVM/src/processor.cpp:680-946 | arithmetic, comparisons, shifts and account reads take as many words as the Yellow Paper says, leave one and touch nothing else; BYTE with an index of 32 or more takes only the index, and an exponent or block number of more than 64 bits fails |
| `EvmInstructions.StoreMeans` | tee/eEVM/src/processor.cpp:1004-1015 | SSTORE takes two words and fails exactly with fewer or in static mode |
| `EvmInstructions.LogMeans` | tee/eEVM/src/processor.cpp:1138-1152 | LOGn takes offset, size and n topics and grows the memory to the end of its range; when it fails |
| `EvmInstructions.StaticMatters` | tee/eEVM/src/processor.cpp:1004-1277 | static mode matters exactly for storing, logging, creating and destroying, which fail in it; every other instruction does the same in both modes, calls included |
| `EvmOpcodes.ProvidesExactly` | tee/eEVM/src/processor.cpp:360-665 | the opcodes that are provided: each does something in some context, and every other byte, REVERT and the block instructions that are not implemented fail in every context whatever the outside answers |
| `EvmCalls.CallMeans` | tee/eEVM/src/processor.cpp:1322-1369 | for CALL, CALLCODE, DELEGATECALL and STATICCALL: exactly when they enter, succeed at once or fail, the words they take, the memory that becomes the input and the range kept for the output |
| `EvmCalls.CallOpens` | tee/eEVM/src/processor.cpp:1356-1369 | CALL opens a context of the callee called by the account, CALLCODE one of the account called by itself, DELEGATECALL one of the account called by its own caller; all run the callee's code on the input, in ordinary mode whatever the caller's mode, exactly when the call enters and the depth has room |
| `EvmCalls.CreateMeans` | tee/eEVM/src/processor.cpp:1274-1320 | CREATE and CREATE2: exactly when they create, the words they take and the code from memory that runs for the new account |
| `EvmCalls.CreationOpens` | tee/eEVM/src/processor.cpp:1307-1320 | that code runs without input in a context that reports to the creator; without room an exception is thrown in the creator |
| `EvmCalls.CreationResumes` | tee/eEVM/src/processor.cpp:1308-1313 | a creation that returns gives the creator the new account's address and the output as return data |
| `EvmCalls.HaltResumes` | tee/eEVM/src/processor.cpp:1253-1261 | a context that halts gives its caller 1 after a call and 0 after a creation, and changes nothing else there |
| `EvmCalls.OutermostEnds` | tee/eEVM/src/processor.cpp:175-220 | when the outermost context returns, halts or fails, the run has ended and no context is left |
| `EvmWords.RingMeans` | tee/eEVM/src/processor.cpp:680-699 | addition, subtraction and multiplication modulo 2^256, read as signed or not |
| `EvmWords.DivisionMeans` | tee/eEVM/src/processor.cpp:701-767 | quotient and remainder of words and of signed numbers towards zero, zero for a zero divisor; SDIV exactly unless it divides the least number by 2^64 - 1 |
| `EvmWords.AddmodMeans` | tee/eEVM/src/processor.cpp:769-780 | ADDMOD is the sum modulo n exactly when the sum fits a word or n divides 2^256 |
| `EvmWords.MulmodMeans` | tee/eEVM/src/processor.cpp:782-793 | MULMOD is the product modulo n exactly when n divides what of the product does not fit a word |
| `EvmWords.ExpMeans` | tee/eEVM/src/processor.cpp:795-800 | EXP is the power modulo 2^256 |
| `EvmWords.Exp` | tee/eEVM/3rdparty/internal/intx/include/intx/intx.hpp:1544-1560 | square and multiply in words, with the shift for base two, computes that power |
| `EvmWords.ExtensionMeans` | tee/eEVM/src/processor.cpp:802-816 | SIGNEXTEND is the signed number in the low x + 1 bytes, and the word itself from byte 32 on |
| `EvmWords.ComparisonMeans` | tee/eEVM/src/processor.cpp:818-876 | LT, GT, EQ and ISZERO compare words, SLT and SGT signed numbers |
| `EvmWords.BitsMean` | tee/eEVM/src/processor.cpp:878-903 | AND, OR, XOR and NOT bit by bit |
| `EvmWords.ByteOpMeans` | tee/eEVM/src/processor.cpp:905-916 | BYTE is the byte counted from the left, zero where there is none |
| `EvmWords.ShiftsMean` | tee/eEVM/src/processor.cpp:918-946 | SHL multiplies by a power of two modulo 2^256, SHR and SAR divide by it, SAR the signed number towards minus infinity, however far the shift |
| `EvmArithmetic.ArithmeticMeans` | tee/eEVM/src/processor.cpp:680-946 | with the arithmetic filled in, an arithmetic instruction replaces the words it takes by the one EvmWords computes from them, and fails exactly when they are missing or do not fit |
| `EvmArithmetic.MachineRuns` | tee/eEVM/src/processor.cpp:175-220 | every run with real arithmetic is one of the runs over which the theorems about programs quantify, with as many turns |
| `EvmRanges.InstructionWordy` | tee/eEVM/src/processor.cpp:360-665 | with words on the stack and from outside, every instruction leaves and passes on words |
| `EvmRanges.ComputeIsWord` | tee/eEVM/src/processor.cpp:680-946 | every arithmetic instruction makes a word of words |
| `EvmRanges.EveryWordIsOne` | tee/eEVM/src/processor.cpp:175-220 | in every state of every run of the machine every word on every stack is below 2^256, through calls, returns, creations and exceptions, when the message and the answers from outside are words of 256 and sizes of 64 bits |
| `Evm.EnterKeeps` | tee/eEVM/src/processor.cpp:223-240 | opening contexts keeps the depth at 1024 and the callers ready |
| `Evm.CatchKeeps` | tee/eEVM/src/processor.cpp:201-204 | handling an exception leaves the remaining contexts ready, or the handler's own exception leaves the run |
| `Evm.DispatchKeeps` | tee/eEVM/src/processor.cpp:197-209 | a dispatch keeps the invariant, whatever the instruction and the outside do |
| `Evm.EveryRunIsSafe` | tee/eEVM/src/processor.cpp:175-220 | in every state of every run: at most 1024 contexts, memories within 2^25 bytes, counters on instruction starts, callers further out |
| `Evm.PushDataIsNotDispatched` | tee/eEVM/src/processor.cpp:52-64 | no run dispatches a byte of push data |
| `EvmRuns.FirstInstructionTwice` | tee/eEVM/src/processor.cpp:70-74 | the first instruction of a program is dispatched twice exactly when it is JUMPDEST or one that only pushes what it reads |
| `EvmRuns.MarkedOnlyAtFirst` | tee/eEVM/src/processor.cpp:122-140 | in a run the counter of the current context is marked as just set exactly before the first dispatch |
| `EvmRuns.StayRepeatsOnlyAtFirst` | tee/eEVM/src/processor.cpp:122-129 | so in every run an instruction that does not set the counter is dispatched again exactly when it is the first |
| `EvmRuns.AddressTwice` | tee/eEVM/src/processor.cpp:70-74 | the program ADDRESS ends up with its address twice on the stack |
| `EvmRuns.StayAdvances` | tee/eEVM/src/processor.cpp:122-129 | such an instruction moves the counter on by one exactly when the counter was not just set |
| `EvmStatic.StaticCallEffect` | tee/eEVM/src/processor.cpp:1322-1362 | a static call enters exactly when its six operands pop, the address is no precompiled one, nothing refuses, there is code and both memory ranges fit; otherwise it fails or stays |
| `EvmStatic.StaticCallOpensTwo` | tee/eEVM/src/processor.cpp:1358-1362 | from every state at a static call: a static context called by the calling account, with the callee's code and the memory range as input, and on top of it one that differs only in not being static and in being called by the callee's own address, exactly when the call enters and the depth has room for two; with room for one the exception is thrown in the static one, with none in the caller |
| `EvmStatic.CalleeRunsAgain` | tee/eEVM/src/processor.cpp:1358-1362 | in every run the static context waits untouched while the other one and its callees are current, and is then current itself at the first instruction of the same code and input |
| `EvmStatic.CalleeStopsTwice` | tee/eEVM/src/processor.cpp:1358-1362 | six zero pushes and a static call of a callee that stops: it stops in both contexts and the caller goes on with two words 1 |
| `EvmRuns.RunningOffTheEndLeavesCallers` | tee/eEVM/src/processor.cpp:197-213 | a turn ends the run with contexts left behind exactly when a nested context is past its code and its caller's stack is not full; with a full one an exception leaves the run |
| `EvmRuns.CallerLeftBehind` | tee/eEVM/src/processor.cpp:197-213 | a program that calls a contract of one JUMPDEST: its run ends with the program left at its call |
| `Evm.ReturnResumesCaller` | tee/eEVM/src/processor.cpp:1232-1240 | a return resumes the caller after its call with 1 on the stack, the output in memory and as return data |
| `Evm.ExceptionResumesCaller` | tee/eEVM/src/processor.cpp:201-204 | an exception resumes the caller after its call with 0 on the stack and nothing else changed |
| `Evm.Processor.PushContext` | tee/eEVM/src/processor.cpp:223-240 | opens a context with its jump destinations unless the depth is 1024 |
| `Evm.Processor.CarryOut` | tee/eEVM/src/processor.cpp:360-665 | a safe effect leaves every context ready, or all but the one an exception is about to drop; of the outer contexts only the one reported to changes, and only in stack, memory and return data |
| `Evm.Processor.HandleException` | tee/eEVM/src/processor.cpp:201-204 | the innermost context is dropped, its caller gets a zero, no other context changes and all that remain are ready; it fails exactly when the caller's stack is full |
| `Evm.Processor.Pass` | tee/eEVM/src/processor.cpp:197-209 | one pass of the loop is one turn of the run and leads to an instruction start |
| `Evm.Processor.Execute` | tee/eEVM/src/processor.cpp:175-220 | for every safe set of instructions the loop computes the run that the theorems speak about, and its contexts are then safe |
| `Governance.EverySequenceIsSafe` | tee/src/service/genesis_gen.h:69-475 | after any sequence of steps an open service has its threshold of active recovery members, there are at most 255, and every key belongs to a member |
| `Governance.AddKeeps` | tee/src/service/genesis_gen.h:94-129 | a new member is not active, so the recovery members stay the same |
| `Governance.ActivateKeeps` | tee/src/service/genesis_gen.h:131-154 | activation respects the limit |
| `Governance.RemoveKeeps` | tee/src/service/genesis_gen.h:156-203 | removal keeps enough active recovery members |
| `Governance.StepKeeps` | tee/src/service/genesis_gen.h:94-475 | every step keeps the invariant |
| `Governance.RefusalChangesNothing` | tee/src/service/genesis_gen.h:94-475 | a refused or failed step changes nothing |
| `Governance.OnlyTheseThrow` | tee/src/service/genesis_gen.h:94-475 | which steps throw in a reachable state; counting never does |
| `Governance.RecoveriesCounted` | tee/src/service/genesis_gen.h:275-306 | the recorded number of recoveries is the number of service creations after the first |
| `Governance.ConfiguredOnce` | tee/src/service/genesis_gen.h:403-414 | after any sequence of steps there is a configuration exactly when one was initialised, and exactly then initialising throws |
| `Governance.GenesisGenerator.GetActiveRecoveryMembers` | tee/src/service/genesis_gen.h:69-92 | the active members among the key holders, or failure when one has no information |
| `Governance.GenesisGenerator.AddNewMember` | tee/src/service/genesis_gen.h:94-129 | keeps the invariant; a known certificate changes nothing, a new member is accepted but not active, so the recovery members stay, and no other member, the service or the threshold changes |
| `Governance.GenesisGenerator.Activate` | tee/src/service/genesis_gen.h:131-154 | keeps the invariant; throws exactly without the member or at 255 active recovery members, changing nothing, and otherwise adds exactly a member with a key to the recovery members |
| `Governance.GenesisGenerator.Remove` | tee/src/service/genesis_gen.h:156-203 | keeps the invariant; refuses exactly when fewer active recovery members than the threshold would remain, and otherwise the member is in no table and no other member changes |
| `Governance.GenesisGenerator.Create` | tee/src/service/genesis_gen.h:275-306 | keeps the invariant; the service is not open afterwards, whatever it was, and recovering exactly when it was created so; one more creation is on record, and nothing else changes |
| `Governance.StatusAfter` | tee/src/service/genesis_gen.h:275-356 | after a creation and any steps but another creation, the service is recovering exactly when it was created so and no shares were awaited since |
| `Governance.OpensAfterCreation` | tee/src/service/genesis_gen.h:275-356 | opening then succeeds exactly with a configuration and enough active recovery members, and for a service created as recovering not before shares are awaited |
| `Governance.WaitingFreezes` | tee/src/service/genesis_gen.h:416-463 | from when shares are awaited until the service is opened or created anew it keeps waiting and no step changes the threshold |
| `Governance.GenesisGenerator.OpenNow` | tee/src/service/genesis_gen.h:314-356 | keeps the invariant; succeeds exactly with enough active recovery members and a service that is not recovering, which is then open; anything else changes nothing |
| `Governance.GenesisGenerator.Init` | tee/src/service/genesis_gen.h:403-414 | keeps the invariant; a configuration is never overwritten, and with an open service initialising always throws |
| `Governance.GenesisGenerator.SetRecoveryThreshold` | tee/src/service/genesis_gen.h:416-463 | keeps the invariant; changes the threshold exactly to positive numbers that the active recovery members of an open service reach, never while recovery shares are awaited, and nothing else |

## Left out

- Branches for the endomorphism, the 10x26 field, GMP numbers and the precomputed generator table file.
- Jacobian coordinates, Z ratios and the isomorphism of the odd-multiples table: points are group elements, and a rescaled point is the same element.
- Constant-time behaviour, clearing of secrets and the generation of nonces and blinding values, which are arbitrary here.
- ScratchSpace.Scratch.AllocateFrame: a failing `malloc` is not modelled; ranges are offsets into a frame instead of pointers.
- That p and n are prime: Fermat's little theorem for p and the inverse law modulo n are hypotheses of the lemmas that need them.
- The scalar arithmetic of secp256k1 (reduction modulo n, the inversion chain): scalars are naturals and arithmetic on them is exact.
- FieldMul.MulInner: the aliasing of r with b is not covered; the source restricts that argument.
- EcmultConst.MultiplyDigits: window width 4 only, the width the source compiles in.
- StateRecords.VisitStates: speaks of vectors that consist of whole records; others make the source read past the end.
- StateRecords.DecryptStates: requires that the keys of a mapping fill their cells, and that a mapping with a single owner has an entry; otherwise the source reads outside the record. The same holds for StateRecords.EncryptStates.
- StateRequests.KeysAsked: speaks of policies whose accesses resolve, so that the requests themselves do not fail.
- StateLookups.SealedLookups: the vector is decrypted under the keys it was encrypted with; how the contract puts a vector together from entries of several transactions is not modelled.
- Wrap-around of record offsets beyond 2^64 cells.
- Evm.MemoryEffect: the words that hashing, storage and the environment give are choices from outside.
- The interpreter's contexts are values in a sequence, changed functionally inside one object; callers are indices instead of pointers.
- Account balances, call values, storage contents, logs, self-destruct lists and rollback.
- Member data, certificates' encoding, users, nodes and code identities of the governance tables.
- TransactionSync, ABI and RLP coding, Keccak, AES-GCM, the key-value store, the web3 client, and the start-up and marshalling code.
