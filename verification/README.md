# Base58 codec and bytecode machine: a verified model

This project models two parts of the repository in Dafny and proves what they compute.

**The Base58 codec** (`blockchain_cryptocurrency/base58.c`). `Base58` defines encoding and decoding the way
the format does: one `1` for every leading zero byte, then the shortest base-58 digits of the number that the
bytes denote. `Base58Encoder` and `Base58Decoder` hold the C loops in place: the digit buffer with its moving
bound, and Horner's rule over 32-bit limbs with its overflow tests and its two-part serialisation. Each loop is
proved against the definition, and the definitions are proved to undo each other. `Base58Check` adds the
version byte and the checksum, for any hash function. `Base58RoundTrip` runs the two entry points one after the
other, and `Base58Check.EncodeDecodeCheck` the three of the checked codec. `Positional` is the arithmetic of
digits that all of this rests on.

**The bytecode machine** (`smart_contract_platform/vm.c`). `Vm` gives one iteration of `execute_bytecode` as a
step on a program counter, a bounded stack and 32 bytes of memory. `Machine` is the C `Stack` as a class, with
its pushes, pops, block copies and cases in place; every case is proved to take exactly that step, and
`Machine.Stack.Execute` to perform the run. `VmInstructions` says of every opcode in plain numbers what its step
does. About the runs, `VmRuns` proves framing, control flow and length,
`VmHeights` decides underflow and overflow of jump-free code from a one-pass summary, `VmMemory` shows the
memory to be an array of bits, `VmBlocks` gives the laws of DUP and SWAP, `VmBits` the meaning of the bit
opcodes, and `Words` and `Exp` the signed arithmetic. `VmReference` and `VmOrder` hold the instructions named below
against the repository's own list of instructions and say exactly where they agree.

## Conventions

- Signed 64-bit arithmetic that leaves its range is taken to wrap in two's complement, and a right shift to keep
  the sign, as compilers do. A quotient or remainder by -1 of the least word, a shift by 64 or more, a read
  beyond the code, SLOAD and SSTORE have no meaning in the model: the outcome is `Stuck`.
- `exit(1)` is the outcome `Exited`, with the reason that its message gives.
- The hash is a parameter, any function from bytes to 32 bytes that may fail. Memory that C leaves uninitialised
  has any contents.
- `zerocount` in `b58tobin` and `i` in `b58check` are 32-bit in the code and in the model. `size_t` sums and
  products are required not to overflow, which no object in memory can make them do.

## Where the code and its descriptions differ

- `b58tobin` counts leading `1`s in 32 bits. The round trips therefore return the right size, and the same text,
  exactly when fewer than 2^32 of them lead; the bytes themselves always come back (`Base58.DecodeEncode`,
  `Base58.EncodeDecode`).
- The self-test in the head comment of `base58.c` hands the size that the encoder reports to the decoder. That
  size counts the NUL, and the decoder rejects every such text (`Base58RoundTrip.NulIsRejected`).
- With a buffer of no bytes `b58tobin` declares an array of length 0, which C leaves undefined, but it never
  reads it; the model covers that case (`Base58Decoder.TakeDigit`).
- `b58check` is to check that as many zeros as `1`s lead. On `b58check_enc`'s own bytes it answers as it should
  exactly if they are not all zero and fewer than 2^32 zeros lead (`Base58Check.CheckRoundTrip`); on zeros alone it
  reads beyond its buffer (`Base58Check.ZerosRunOffEnd`), and beyond 2^32 zeros its index wraps and it does not
  end. What it passes is `b58check_enc`'s own with one exception: four bytes that are the checksum of nothing
  (`Base58Check.CheckAccepts`, `Base58Check.BareChecksumPasses`).
- `reference_to_implement.txt` lists the instructions to implement. For the instructions below, read on 64-bit words,
  the lemmas give the inputs on which the code does what the list says; on all others it does not.
  - PUSHn is to push one value and pushes n words: right for n = 1 (`VmReference.PushAsDescribed`).
  - DUPx is to clone one element and copies a block: right for x = 1 (`VmReference.DupAsDescribed`).
  - SWAPx is to exchange two elements and reverses a block: right if the elements between are a palindrome
    (`VmBlocks.SwapIsExchange`).
  - A jump target is not to be PUSH data and can be (`VmRuns.JumpIntoData`): impossible exactly in code without
    jumps or with every byte 0x5b an instruction (`VmRuns.JumpsStayOnInstructions`).
  - BYTE is to count from the left and counts from the right; SHR is to be logical and keeps the sign; SAR gives the
    least word for negative words beyond 63 places; SHL and SHR by 64 to 255 places have no meaning in C; and all
    four cut the number of places to 32 bits (`VmReference.ShiftsAsDescribed`).
  - AND, OR and XOR cut their second operand to 32 bits (`VmReference.LogicAsDescribed`), and so does EQ
    (`VmReference.CompareAsDescribed`).
  - ADDMOD and MULMOD are to reduce the sum and the product and reduce what is left of them in a word
    (`VmReference.ModularAsDescribed`, `VmReference.SumModular`).
  - SMOD has the wrong sign for the least word (`Words.SModIsRem`).
  - SIGNEXTEND extends no sign, and asks for a third element that it does not use: right if there is a third element
    and no sign to extend (`VmReference.SignExtendAsDescribed`).
  - The list names operands from the top of the stack down, as its DUP rows show. The code takes those of SUB, DIV,
    SDIV, MOD, SMOD, ADDMOD, MULMOD, EXP, LT, GT, SLT, SGT, JUMPI, MSTORE and MSTORE8 from below up. `VmOrder` compares
    them in the list's order, with all that the code does otherwise (the cut of LT, GT, SLT, SGT and of JUMPI's
    condition to 32 bits, and the list's unsigned DIV, MOD, LT and GT, which the code has signed):
    `VmOrder.SubInListOrder`, `VmOrder.DivInListOrder`, `VmOrder.SdivInListOrder`, `VmOrder.ModInListOrder`,
    `VmOrder.SmodInListOrder`, `VmOrder.ModularInListOrder`, `VmOrder.ExpInListOrder`, `VmOrder.CompareInListOrder`,
    `VmOrder.JumpIInListOrder`; for the stores, whose unit differs too, the order alone (`VmOrder.StoreInListOrder`).
    What remains of the differences in the code's own order is in `VmReference.CompareAsDescribed` and
    `VmReference.JumpIAsDescribed` and in the entries above.
- EXP's overflow tests let overflows through and stop powers that fit (`Exp.ExpOverflowTestsFail`);
  `Exp.ExpRight` says exactly when the right power is pushed.

## Model

| member | source | states |
|---|---|---|
| CTypes.Uint32 | blockchain_cryptocurrency/base58.c:78-89 | a 32-bit count is right exactly below 2^32 |
| CTypes.Uint32IsLow | blockchain_cryptocurrency/base58.c:78-89 | it is the number below 2^32 that differs by a multiple of 2^32 |
| Base58Alphabet.OrderedIsCharOf | blockchain_cryptocurrency/base58.c:170 | the digit table is the digits and letters without 0, I, O and l, in order |
| Base58Alphabet.MapIsDigitOf | blockchain_cryptocurrency/base58.c:50-59 | the inverse table, with the high-bit test before it, gives the place of a character in that alphabet or -1 |
| Base58Alphabet.TablesAreInverse | blockchain_cryptocurrency/base58.c:93-99 | the two tables undo each other on all digits and all characters |
| Base58.DecodeEncode | blockchain_cryptocurrency/base58.c:66-140 | for all bytes and every buffer size: the decoder accepts the encoding exactly when the significant bytes fit; with room for all bytes it returns them right-aligned behind zeros, and their count exactly when fewer than 2^32 zeros lead |
| Base58.EncodeDecode | blockchain_cryptocurrency/base58.c:87-137 | for every accepted text whose reported size fits the buffer: encoding that many trailing bytes gives the text back exactly when fewer than 2^32 `1`s lead |
| Base58.EncodeInjective | blockchain_cryptocurrency/base58.c:172-216 | different bytes have different texts |
| Base58.EncodeKeeps | blockchain_cryptocurrency/base58.c:200-213 | a text is in the alphabet and keeps the number and the count of leading zeros |
| Base58.EncodeSample | blockchain_cryptocurrency/base58.c:172-216 | the bytes 0, 1, 0 are `15R` |
| Base58.FitsIffSignificantBytesDo | blockchain_cryptocurrency/base58.c:106-111 | a number fits a buffer exactly when its bytes without leading zeros do |
| Base58.PrefixOverflow | blockchain_cryptocurrency/base58.c:106-111 | rejecting at the first prefix that overflows is exact, whatever follows |
| Base58.DigitsOutgrowBytes | blockchain_cryptocurrency/base58.c:182 | 58^d > 256^b for all d >= 1 with 100 d >= 138 b |
| Base58.BufferIsBigEnough | blockchain_cryptocurrency/base58.c:182-198 | the digit buffer holds every number of its bytes, and until the last byte its first digit is not needed |
| Base58.EncodeLength | blockchain_cryptocurrency/base58.c:182-213 | a text is at least as long as its bytes and at most n*138/100+1 long |
| Base58.AddressLength | blockchain_cryptocurrency/wallet.c:158-161 | a 48-byte address takes 48 to 66 characters, so it fits the capacity of 69 |
| Base58Encoder.CarriedAll | blockchain_cryptocurrency/base58.c:188-197 | stopping at zeros or at the front leaves no carry over and the whole buffer multiplied |
| Base58Encoder.MultiplyAdd | blockchain_cryptocurrency/base58.c:188-197 | the inner loop turns the buffer's value v into 256 v + byte without a digit lost, its carry stays below 256, and below the new bound all digits are zero |
| Base58Encoder.TakenByte | blockchain_cryptocurrency/base58.c:186-198 | after each byte the number fits the buffer, and before the last one it leaves the first digit zero |
| Base58Encoder.FirstDigitFree | blockchain_cryptocurrency/base58.c:193-196 | below the first digit's weight that digit is zero, so the loop that stops in front of it skips nothing |
| Base58Encoder.RoomForNext | blockchain_cryptocurrency/base58.c:182-190 | while a byte is left, every digit up to and at `high` is zero, the first included, and the buffer has room for that byte |
| Base58Encoder.HoldsNext | blockchain_cryptocurrency/base58.c:186-198 | each byte keeps the buffer's value that of the bytes taken, with zeros before the new `high` and at it until the last byte |
| Base58Encoder.ToBase58 | blockchain_cryptocurrency/base58.c:182-198 | after all bytes the buffer's base-58 value is the bytes' base-256 value |
| Base58Encoder.EncodeFromBuffer | blockchain_cryptocurrency/base58.c:200-211 | the zeros counted and the digits left after skipping make up the format's text |
| Base58Encoder.WriteText | blockchain_cryptocurrency/base58.c:208-212 | writes the ones, the characters of the digits and the NUL, and nothing else |
| Base58Encoder.B58Enc | blockchain_cryptocurrency/base58.c:172-216 | succeeds exactly if the capacity exceeds the text's length, reports length + 1 either way, writes exactly the format's text and a NUL, or nothing on failure |
| Base58Decoder.ZeroMaskIsShift | blockchain_cryptocurrency/base58.c:77 | the zeromask tests the bits above the first `bytesleft` bytes |
| Base58Decoder.ShrIsFloor | blockchain_cryptocurrency/base58.c:117-125 | a shift by bytes is the quotient by a power of 256, rounded down |
| Base58Decoder.TooBig | blockchain_cryptocurrency/base58.c:106-111 | the two overflow tests fire exactly when the number needs more than the buffer's bytes, also when their count is not a multiple of 4 |
| Base58Decoder.MultiplyAddLimbs | blockchain_cryptocurrency/base58.c:100-105 | the limb loop turns v into 58 v + digit with the overflow as carry, which stays below 58; 64 bits suffice |
| Base58Decoder.TakeDigit | blockchain_cryptocurrency/base58.c:99-111 | reports exactly whether 58 v + digit fits, and then holds it; without limbs no limb is read |
| Base58Decoder.LookUp | blockchain_cryptocurrency/base58.c:93-99 | the digit of a character or -1, and 0 exactly for `1` |
| Base58Decoder.HornerStep | blockchain_cryptocurrency/base58.c:91-112 | one character more: the prefix's number becomes 58 v + digit, or the whole text does not fit |
| Base58Decoder.ReadDigit | blockchain_cryptocurrency/base58.c:91-112 | one round of the digit loop accepts exactly digits that keep the number in range |
| Base58Decoder.ReadDigits | blockchain_cryptocurrency/base58.c:91-112 | true exactly if all characters are in the alphabet and the number is below 256^binsz; the limbs then hold it |
| Base58Decoder.CountOnes | blockchain_cryptocurrency/base58.c:87-89 | counts the leading `1`s, in 32 bits |
| Base58Decoder.WriteBytes | blockchain_cryptocurrency/base58.c:116-118 | shifting and masking writes the big-endian bytes of a limb and nothing else |
| Base58Decoder.WriteFirstLimb | blockchain_cryptocurrency/base58.c:114-120 | the first limb gives just the bytes that are left over |
| Base58Decoder.WriteLimb | blockchain_cryptocurrency/base58.c:124-126 | each other limb adds four bytes to the number written |
| Base58Decoder.WriteLimbs | blockchain_cryptocurrency/base58.c:114-127 | the buffer is the big-endian form of the limbs' value in exactly binsz bytes |
| Base58Decoder.CountBytes | blockchain_cryptocurrency/base58.c:129-137 | the size without leading zero bytes, plus the count of `1`s |
| Base58Decoder.B58ToBin | blockchain_cryptocurrency/base58.c:66-140 | accepts exactly the texts of the alphabet whose number fits, fills the buffer with it and reports its size; changes nothing on failure |
| Base58RoundTrip.EncodeWithRetry | blockchain_cryptocurrency/base58.c:202-213 | from a buffer of any size: if it is too small, a retry with the size that the failed call reports succeeds |
| Base58RoundTrip.EncodeThenDecode | blockchain_cryptocurrency/base58.c:3-26 | on real buffers: encode, then decode without the NUL, its length given or 0, and the bytes are back at the end of the buffer |
| Base58RoundTrip.TextIsInput | blockchain_cryptocurrency/base58.c:80-81 | given its length, a text up to its NUL is what is read |
| Base58RoundTrip.GivenSizeIsInput | blockchain_cryptocurrency/base58.c:80-91 | given any size but 0, that many characters are read |
| Base58RoundTrip.SizeZeroIsInput | blockchain_cryptocurrency/base58.c:80-81 | given 0, every text without a NUL is read up to the NUL behind it |
| Base58RoundTrip.SizeZeroDecodes | blockchain_cryptocurrency/base58.c:66-140 | with a size of 0 every NUL-terminated encoding decodes to its bytes, right-aligned behind zeros, whatever follows the NUL |
| Base58RoundTrip.NulIsRejected | blockchain_cryptocurrency/base58.c:212-213 | with the NUL counted, no encoding is accepted |
| Base58Check.B58CheckEnc | blockchain_cryptocurrency/base58.c:218-232 | encodes version, data and the first four bytes of the double hash; reports size 0 if hashing fails |
| Base58Check.AddCheckIs | blockchain_cryptocurrency/base58.c:142-147 | in terms of the hash: what is encoded is version, data and the first four bytes of the hash of their hash, unless one of the two calls fails |
| Base58Check.VerdictIs | blockchain_cryptocurrency/base58.c:142-168 | for all bytes, texts and hashes: -4 for fewer than four bytes, -2 if one of the two hashes fails, -1 if the last four bytes are not the start of the hash of the hash of the others, and then by the counts of leading zeros and `1`s the endless loop, the read beyond a buffer, -3 for unequal counts, or the first byte |
| Base58Check.B58Check | blockchain_cryptocurrency/base58.c:149-168 | for all bytes and texts: returns -4, -2, -1, -3 or the version byte by the first test that fails; reads beyond a buffer exactly if the zeros and `1`s in common reach the end of one, and does not end exactly if they are 2^32 or more |
| Base58Check.CheckRoundTrip | blockchain_cryptocurrency/base58.c:149-232 | for every hash, version and payload: what b58check_enc writes decodes to its bytes, and b58check returns the version byte if they are not all zero and fewer than 2^32 zeros lead, reads beyond its buffer if they are all zero, and otherwise does not end |
| Base58Check.ZerosRunOffEnd | blockchain_cryptocurrency/base58.c:161-165 | with a hash of zeros, version 0 and no payload b58check reads beyond its buffer on b58check_enc's own text |
| Base58Check.EncodeDecodeCheck | blockchain_cryptocurrency/base58.c:66-232 | the same on real buffers: b58check_enc with its sizing protocol, b58tobin, b58check |
| Base58Check.ZerosOfOwn | blockchain_cryptocurrency/base58.c:161-165 | against a text's own bytes the comparison of zeros finds them equal in number, unless it leaves the buffer or wraps |
| Base58Check.CheckAccepts | blockchain_cryptocurrency/base58.c:149-168 | for every accepted text and every buffer size: b58check passes it exactly when the reported size is the buffer's, the bytes are those that b58check_enc makes of some version and payload or four bytes that are the checksum of nothing, they are not all zero and fewer than 2^32 `1`s lead; the text is then the encoding of the bytes and the result their first |
| Base58Check.BareChecksum | blockchain_cryptocurrency/base58.c:154-159 | four bytes that are the checksum of nothing, the first not zero, come back from their text and pass, though no version and payload give them |
| Base58Check.BareChecksumPasses | blockchain_cryptocurrency/base58.c:154-159 | such bytes for a hash of ones |
| Words.QuoRem | smart_contract_platform/vm.c:270-307 | the quotient and remainder towards zero make up the dividend, the remainder smaller than the divisor and of the dividend's sign |
| Words.QuoRemUnique | smart_contract_platform/vm.c:270-307 | they are the only such pair |
| Words.SDivIsQuo | smart_contract_platform/vm.c:281-296 | SDIV with its correction is the quotient towards zero, and nothing in it overflows |
| Words.SModIsRem | smart_contract_platform/vm.c:308-323 | SMOD is the remainder exactly unless the least word meets a positive divisor that leaves one; there the sign is wrong |
| Exp.Exponentiate | smart_contract_platform/vm.c:352-375 | the loop computes the recursive square-and-multiply with its tests |
| Exp.LoopCongruent | smart_contract_platform/vm.c:357-373 | whatever is pushed is the power modulo 2^64, for every base |
| Exp.ExpOutcome | smart_contract_platform/vm.c:352-375 | for every base and exponent: EXP exits exactly if in some round up to the exponent's highest bit the power so far, modulo 2^64, went below the square that it took, or the next square, modulo 2^64, is below 1; otherwise it pushes the power modulo 2^64 |
| Exp.ExpRight | smart_contract_platform/vm.c:352-375 | for every base and exponent: a negative exponent counts as 0; otherwise the right power is pushed exactly when it fits a word and the exponent is 0 or the base is not 0, not negative under an odd exponent above 1, and the last square does not wrap below 1; all other powers that fit exit as overflows |
| Exp.PushedRightIffFits | smart_contract_platform/vm.c:352-375 | a pushed result is wrong exactly when the power does not fit: those overflows went unnoticed |
| Exp.ExpExact | smart_contract_platform/vm.c:352-375 | in particular, with a positive base whose last square fits, no test fires and the power is pushed |
| Exp.ExpOverflowTestsFail | smart_contract_platform/vm.c:360-371 | an overflow that no test notices, and tests that fire on powers that fit: of 2^32, -2 and 0 |
| Memory.StoreByteIsMasking | smart_contract_platform/vm.c:673-675 | the masking expression keeps the bits below the offset and takes the others from the value |
| Memory.StoreByteBits | smart_contract_platform/vm.c:671-675 | the modelled byte has just those bits |
| Memory.StoreRefines | smart_contract_platform/vm.c:664-676 | a store replaces the bits from the offset to the end of its byte and no others |
| Memory.LoadRefines | smart_contract_platform/vm.c:652-663 | a load is the number that those bits denote |
| Memory.LoadAfterStore | smart_contract_platform/vm.c:652-676 | a load after a store at the same offset gives the value modulo 2^(8 - offset mod 8) |
| Memory.Store8IsStore | smart_contract_platform/vm.c:677-687 | MSTORE8 and MSTORE do the same |
| Vm.RunKeepsBound | smart_contract_platform/vm.c:121-127 | no run exceeds the stack's capacity |
| Vm.ActGoesToJumpdest | smart_contract_platform/vm.c:710-743 | only the jumps leave the line, and only for a byte 0x5b inside the code |
| VmRuns.StepFrame | smart_contract_platform/vm.c:121-175 | a step that does not underflow does the same above any further elements |
| VmRuns.RunFrame | smart_contract_platform/vm.c:242-873 | so does a whole run, jumps included, with the capacity raised; only STOP's returned index shifts |
| VmRuns.PoppedIsLast | smart_contract_platform/vm.c:873 | a run returns a value by the pop behind the code exactly if it comes there with that value on top, whatever it returns with |
| VmRuns.RunOnChain | smart_contract_platform/vm.c:710-743 | every program counter reached is decoded from the start or from a byte 0x5b |
| VmRuns.RunStaysInCode | smart_contract_platform/vm.c:247-248 | if the decoding ends at the end of the code and every 0x5b is an instruction, every program counter reached is an instruction and no byte beyond the end is read |
| VmRuns.JumpIntoData | smart_contract_platform/vm.c:717-723 | a run that enters the data of a PUSH |
| VmRuns.JumpsStayOnInstructions | smart_contract_platform/vm.c:710-743 | for every code and capacity: all runs from instructions, on whatever stack, reach nothing but instructions if and only if no jump that the capacity can feed is an instruction or every byte 0x5b is one |
| VmRuns.StepAdvances | smart_contract_platform/vm.c:792-798 | a step that takes no jump moves forward by its instruction's length and stays within the code |
| VmRuns.RunLength | smart_contract_platform/vm.c:247-248 | a run still going after k iterations has taken at least one jump for each time the code's length goes into k |
| VmRuns.LoopBound | smart_contract_platform/vm.c:247-248 | every run, going on or ended in any way, with J jumps taken has had at most (J + 1) times the code's length iterations |
| VmRuns.JumpFreeEnds | smart_contract_platform/vm.c:242-873 | jump-free code ends within one iteration more than its length |
| VmHeights.ThenAdmits | smart_contract_platform/vm.c:121-154 | a composed summary admits a height exactly when its parts do, one after the other |
| VmHeights.ThenAssociative | smart_contract_platform/vm.c:121-154 | composing summaries is associative |
| VmHeights.SummarizeConcat | smart_contract_platform/vm.c:242-873 | the summary of concatenated code is composed of the summaries |
| VmHeights.StepHeight | smart_contract_platform/vm.c:121-175 | a step that goes on had the elements and the room that its opcode's entry asks for, and changes the height by its net effect |
| VmHeights.StepFailsOnStack | smart_contract_platform/vm.c:121-154 | a step that underflows or overflows did not |
| VmHeights.RunHeight | smart_contract_platform/vm.c:242-873 | runs of jump-free code underflow or overflow only from heights not admitted, and complete only from those admitted |
| VmHeights.SummaryDecides | smart_contract_platform/vm.c:242-873 | a jump-free run that its data do not end early underflows or overflows if and only if the summary does not admit the starting height, counting the final pop if there is no STOP |
| VmHeights.AdmittedCodeIsSafe | smart_contract_platform/vm.c:242-873 | admitted, well-formed, jump-free code never underflows, overflows or reads beyond its end, at any point of any run |
| VmMemory.StepMemory | smart_contract_platform/vm.c:652-687 | a step changes the bits by its store, if it is one, and otherwise not at all |
| VmMemory.RunMemory | smart_contract_platform/vm.c:242-873 | after any run, going on or returned, the bits are the initial ones with the run's stores applied in order |
| VmMemory.LastWriteWins | smart_contract_platform/vm.c:664-687 | a bit that stores cover is that of the last of them |
| VmMemory.UncoveredBit | smart_contract_platform/vm.c:664-687 | a bit that no store covers is the initial one |
| VmMemory.LoadReadsBits | smart_contract_platform/vm.c:652-663 | MLOAD replaces its offset on the stack by the number that the bits denote |
| VmBlocks.SwapTwice | smart_contract_platform/vm.c:157-175 | SWAPx twice restores the stack; once, it keeps the elements and everything below the block |
| VmBlocks.SwapIsExchange | smart_contract_platform/vm.c:157-175 | SWAPx exchanges the first and the (x+1)th element exactly when those between read the same both ways, always for x up to 2 |
| VmBlocks.SwapStep | smart_contract_platform/vm.c:819-836 | SWAPx needs x + 1 elements and reverses them |
| VmBlocks.DupStep | smart_contract_platform/vm.c:801-818 | DUPx needs x elements and room for x more, and copies the block |
| VmBlocks.DupThenPops | smart_contract_platform/vm.c:139-154 | DUPx followed by x POPs restores the stack |
| VmBits.LogicBits | smart_contract_platform/vm.c:462-497 | AND, OR and XOR bit by bit, the second operand without its bits from 32 on |
| VmBits.NotBits | smart_contract_platform/vm.c:498-508 | NOT turns every bit over |
| VmBits.ShiftRightIsFloor | smart_contract_platform/vm.c:542-573 | a right shift divides by a power of two and rounds down |
| VmBits.SignExtendIsMod | smart_contract_platform/vm.c:376-390 | SIGNEXTEND keeps the low bits if bit 31 of its first operand is set, and otherwise does nothing |
| VmReference.SignExtendAsDescribed | smart_contract_platform/vm.c:376-390 | the whole step is the sign extension from b + 1 bytes exactly if there is a third element and the word is one of b + 1 signed bytes, or b is 7 or more and the mask takes nothing away |
| VmReference.SignExtendFails | smart_contract_platform/vm.c:376-390 | 255 from one byte stays 255; -1 becomes 0 under a mask of no bits |
| VmReference.JumpIAsDescribed | smart_contract_platform/vm.c:726-743 | JUMPI jumps on every condition but 0 exactly if the condition's low 32 bits are not 0, or it is 0, or the target is next anyway |
| VmReference.JumpIFails | smart_contract_platform/vm.c:726-743 | with the condition 2^32 it does not jump |
| VmReference.CompareAsDescribed | smart_contract_platform/vm.c:391-450 | SLT, SGT and EQ compare the whole words exactly if the other operand is not between the one that is cut and its low half; LT and GT compare unsigned exactly if it also has no sign to mistake |
| VmReference.RightAgainstAll | smart_contract_platform/vm.c:391-450 | against every word, SLT, SGT and EQ are right exactly if the operand that is cut is in 32 bits; LT and GT never |
| VmReference.ComparisonsFail | smart_contract_platform/vm.c:391-450 | an input on which each of the five is wrong |
| VmReference.LogicAsDescribed | smart_contract_platform/vm.c:462-497 | AND, OR and XOR of the whole words exactly if, from bit 32 on, the words have no bit in common, the second's bits are in the first, or the second has none |
| VmReference.ShiftsAsDescribed | smart_contract_platform/vm.c:509-573 | for every word and every whole number of places: BYTE is the byte from the left exactly if the one from the right is the same, or 0 for a large number that is cut below 8; SHL, SHR and SAR are the product, the logical and the arithmetic shift exactly if the number of places is one that the code handles, or what the cut leaves of it loses every bit as the whole does |
| VmReference.ByteFails | smart_contract_platform/vm.c:509-525 | byte 0 of 1 is the lowest in place of the highest |
| VmReference.ShlFails | smart_contract_platform/vm.c:526-541 | 1 by 64 places has no meaning and should be 0 |
| VmReference.ShrFails | smart_contract_platform/vm.c:542-557 | -1 by one place is wrong |
| VmReference.SarFails | smart_contract_platform/vm.c:558-573 | the least word by 2^32 places is itself and should be -1, and -1 by 2^32 places is right |
| VmReference.PushAsDescribed | smart_contract_platform/vm.c:792-798 | PUSHn pushes the one value of its n bytes exactly for n = 1, or if the stack is full |
| VmReference.ModularAsDescribed | smart_contract_platform/vm.c:324-351 | ADDMOD and MULMOD give the remainder of the true sum or product exactly if C defines the division, what wrapped away is a multiple of the modulus, and the sign is kept or the remainder 0 |
| VmReference.SumModular | smart_contract_platform/vm.c:324-337 | for ADDMOD: if nothing wraps, or if both the sum and what wrapped away are multiples |
| VmReference.ModularFails | smart_contract_platform/vm.c:324-351 | a sum and a product that wrap, modulo 3 |
| VmReference.DupAsDescribed | smart_contract_platform/vm.c:139-154 | DUPx clones the xth element exactly for x = 1, or if both fail |
| Words.SameRem | smart_contract_platform/vm.c:324-351 | two numbers leave the same remainder towards zero exactly if they differ by a multiple and, unless they are multiples, have the same sign |
| VmOrder.SubInListOrder | smart_contract_platform/vm.c:265-269 | SUB is the top less the next exactly if they differ by a multiple of 2^63 |
| VmOrder.SdivInListOrder | smart_contract_platform/vm.c:281-296 | SDIV is the quotient of the top by the next, which is not 0, exactly if they are equal but for their signs |
| VmOrder.SmodInListOrder | smart_contract_platform/vm.c:308-323 | so is SMOD the remainder |
| VmOrder.DivInListOrder | smart_contract_platform/vm.c:270-280 | DIV is the unsigned quotient of the top by the next exactly if they are equal, or both negative with the next less than twice as large, or -1 and 1, or the next is negative and smaller than the top |
| VmOrder.ModInListOrder | smart_contract_platform/vm.c:297-307 | MOD is the unsigned remainder exactly if they are equal, or only the top is negative and the two remainders coincide |
| VmOrder.ModularInListOrder | smart_contract_platform/vm.c:324-351 | ADDMOD and MULMOD take the top for the modulus that is to be third: right exactly if the two remainders coincide |
| VmOrder.ExpInListOrder | smart_contract_platform/vm.c:352-375 | of words not negative whose powers either way fit, EXP pushes the top to the next exactly if its tests let it through and they are equal or 2 and 4 |
| VmOrder.LargerExponentWins | smart_contract_platform/vm.c:352-375 | for 3 <= x < y, x^y > y^x |
| VmOrder.CompareInListOrder | smart_contract_platform/vm.c:391-437 | LT, GT, SLT and SGT compare the top with the next, unsigned and signed, exactly if the next is between the top and its low half as the opcode wants it |
| VmOrder.JumpIInListOrder | smart_contract_platform/vm.c:726-743 | JUMPI with the destination on top: the whole step is right exactly if the cut destination and the condition are both 0, or the cut destination is 0 and it is the next instruction, or neither is 0 and they are equal or both no targets |
| VmOrder.StoreInListOrder | smart_contract_platform/vm.c:664-687 | MSTORE and MSTORE8 with the offset on top are right for every memory exactly if offset and value are equal or neither is an offset |
| VmOrder.OrderFails | smart_contract_platform/vm.c:265-743 | 1 - 0, 4 / 2, 0 < 1 and a jump that come out wrong |
| VmBits.ShiftsMean | smart_contract_platform/vm.c:509-573 | BYTE gives a byte of the word, SHL the product modulo 2^64, SHR and SAR the quotient rounded down |
| Machine.Stack.constructor | smart_contract_platform/vm.c:32-74 | an empty stack of the given capacity with 32 bytes of memory |
| Machine.Stack.Clear | smart_contract_platform/vm.c:233-235 | empties the stack |
| Machine.Stack.Push | smart_contract_platform/vm.c:121-127 | adds the value on top, or fails with nothing changed exactly when the stack is full |
| Machine.Stack.Pop | smart_contract_platform/vm.c:130-136 | takes the top off, or fails exactly when there is none |
| Machine.Stack.CopyTop | smart_contract_platform/vm.c:145-149 | the temporary array holds the top elements, the top one first |
| Machine.Stack.Dup | smart_contract_platform/vm.c:139-154 | the copying loops append the top block, or exit for want of elements or of room |
| Machine.Stack.Swap | smart_contract_platform/vm.c:157-175 | the copying loops reverse the top block, or exit for want of elements |
| Machine.ComputeDivision | smart_contract_platform/vm.c:270-323 | exits exactly on division by 0, and else gives the quotient or remainder towards zero, for SMOD of the least word with the wrong sign |
| Machine.ComputeBinary | smart_contract_platform/vm.c:255-375 | ADD, MUL and SUB give the sum, the product and the difference modulo 2^64, EXP is the result of its loop or exits, and DIV to SMOD are as above |
| Machine.ComputeModular | smart_contract_platform/vm.c:324-351 | exits exactly for modulus 0, and else gives what the quotient towards zero leaves of the wrapped sum or product, smaller than the modulus and of its sign; that of the true one if nothing wrapped |
| Machine.ComputeComparison | smart_contract_platform/vm.c:391-573 | in either order of popping: the logic operations bit by bit, the bits from 32 on of the cut operand as zeros; the comparisons and shifts of the cut operand |
| Machine.ComputeShift | smart_contract_platform/vm.c:509-573 | BYTE a byte of the word, SHL the product modulo 2^64, SHR and SAR the quotient rounded down; and what larger numbers of places give |
| Machine.Stack.Binary | smart_contract_platform/vm.c:255-375 | the cases 0x01 to 0x07 and 0x0a take the modelled step |
| Machine.Stack.Modular | smart_contract_platform/vm.c:324-351 | ADDMOD and MULMOD take the modelled step |
| Machine.Stack.Extend | smart_contract_platform/vm.c:376-390 | SIGNEXTEND takes the modelled step: it asks for three elements and pops two |
| Machine.Stack.Compare | smart_contract_platform/vm.c:391-573 | the two-operand cases from 0x10 on take the modelled step |
| Machine.Stack.Unary | smart_contract_platform/vm.c:451-508 | ISZERO and NOT take the modelled step |
| Machine.Stack.Load | smart_contract_platform/vm.c:652-663 | MLOAD takes the modelled step, with 0 returned for an offset outside |
| Machine.Stack.Store | smart_contract_platform/vm.c:664-687 | MSTORE and MSTORE8 take the modelled step, with -1 returned for an offset outside |
| Machine.Stack.JumpTo | smart_contract_platform/vm.c:710-743 | JUMP and JUMPI take the modelled step, with -1 returned for an invalid target |
| Machine.Stack.Storage | smart_contract_platform/vm.c:688-709 | SLOAD and SSTORE pop their operands and have no further meaning |
| Machine.Stack.Plain | smart_contract_platform/vm.c:645-651 | POP, PC, MSIZE, PUSH0 and the empty cases beside them take the modelled step |
| Machine.Stack.PushData | smart_contract_platform/vm.c:792-798 | the PUSH loop takes the modelled step, whether the stack or the code ends first |
| Machine.Stack.Log | smart_contract_platform/vm.c:177-231 | LOG takes the modelled step: it pops offset, size and topics and exits for a range outside memory |
| Machine.Stack.Other | smart_contract_platform/vm.c:574-644 | STOP, BALANCE, the empty and the unknown cases take the modelled step |
| Machine.Stack.Iterate | smart_contract_platform/vm.c:247-873 | one iteration of the loop is one step; behind the code, the top is popped and returned, or there is none and the process exits |
| Machine.Stack.Execute | smart_contract_platform/vm.c:242-874 | the loop, followed for any number of iterations, is the run; a value popped at the end was the top element behind the code |
| VmInstructions.FinalPop | smart_contract_platform/vm.c:873 | behind the code the top is popped and returned |
| VmInstructions.FinalPopOfNothing | smart_contract_platform/vm.c:130-136 | without an element the process exits |
| VmInstructions.StopReturnsTop | smart_contract_platform/vm.c:253-254 | STOP returns the index of the top |
| VmInstructions.UnderflowExactly | smart_contract_platform/vm.c:121-175 | for each opcode, the number of elements below which, and only below which, it underflows |
| VmInstructions.UnknownExits | smart_contract_platform/vm.c:865-867 | the opcodes without a case end the process |
| VmInstructions.IdleDoesNothing | smart_contract_platform/vm.c:574-644 | the cases without statements do nothing |
| VmInstructions.StorageIsStuck | smart_contract_platform/vm.c:688-709 | SLOAD and SSTORE have no meaning once they have their operands |
| VmInstructions.Sums | smart_contract_platform/vm.c:255-269 | 0x01 pushes the sum, 0x02 the product and 0x03 the difference modulo 2^64 |
| VmInstructions.ZeroDivisorExits | smart_contract_platform/vm.c:270-351 | 0x04 to 0x09 exit on a divisor of 0 |
| VmInstructions.Quotients | smart_contract_platform/vm.c:270-323 | 0x04 and 0x05 push the quotient towards zero, 0x06 and 0x07 its remainder, the latter negated for the least word over a positive divisor |
| VmInstructions.Moduli | smart_contract_platform/vm.c:324-351 | 0x08 and 0x09 push the remainder of the sum and of the product modulo 2^64 |
| VmInstructions.Powers | smart_contract_platform/vm.c:352-375 | 0x0a pushes the power modulo 2^64 or exits, as `Exp.ExpOutcome` says; 1 for exponents not positive |
| VmInstructions.SignExtensions | smart_contract_platform/vm.c:376-390 | 0x0b keeps the bits below the place given by the top's low five bits if bit 31 of the top is set, and otherwise the word |
| VmInstructions.Comparisons | smart_contract_platform/vm.c:391-450 | 0x10 to 0x14 push 1 or 0 by comparing with an operand modulo 2^32 |
| VmInstructions.IsZeroAndNot | smart_contract_platform/vm.c:451-508 | 0x15 pushes whether the top is 0, 0x19 minus the top less 1 |
| VmInstructions.Logic | smart_contract_platform/vm.c:462-497 | 0x16, 0x17 and 0x18 combine the bits of the top with the low 32 of the next by and, or, xor |
| VmInstructions.Shiftings | smart_contract_platform/vm.c:509-573 | 0x1a to 0x1d for every number of places: the byte, the product modulo 2^64, the quotient rounded down, 0, the least word, the exit, or no meaning in C |
| VmInstructions.Loads | smart_contract_platform/vm.c:652-663 | 0x51 goes on exactly for bit offsets inside the memory, with its byte divided by 2 to the offset's place, and else returns 0 |
| VmInstructions.Stores | smart_contract_platform/vm.c:664-687 | 0x52 and 0x53 go on exactly for bit offsets inside the memory, with the byte's lower bits kept and the value's low bits above them, and else return -1 |
| VmInstructions.Jumpings | smart_contract_platform/vm.c:710-743 | 0x56, and 0x57 on a condition that is not a multiple of 2^32, go to a byte 0x5b or return -1 |
| VmInstructions.PopAndConstants | smart_contract_platform/vm.c:645-651 | 0x50 pops; 0x58 pushes the next address, 0x59 256 and 0x5f 0, if there is room |
| VmInstructions.Pushings | smart_contract_platform/vm.c:792-798 | 0x60 to 0x7f push their bytes one by one and go on behind them, or exit where the room ends first |
| VmInstructions.Duplications | smart_contract_platform/vm.c:139-154 | 0x80 to 0x8f repeat the top elements in their order |
| VmInstructions.Reversals | smart_contract_platform/vm.c:157-175 | 0x90 to 0x9f reverse the top elements and keep those below |
| VmInstructions.Loggings | smart_contract_platform/vm.c:177-231 | 0xa0 to 0xa4 take offset, size and topics off, or exit for a range outside 32 bytes |

## Left out

- Machine.Stack.Execute: takes a bound on the iterations, because code with jumps need not end; `VmRuns.JumpFreeEnds` gives a bound that suffices for jump-free code.
- Machine.Stack.constructor: does not model the storage table that `stack_create` allocates and clears, because only SLOAD and SSTORE use it.
- Machine.Stack.Storage: does not model what SLOAD and SSTORE read and write, because the code computes their addresses with shifts that C leaves undefined and may return the address of a local variable.
- Machine.Stack.Log: does not model the printing, and compares offsets as numbers where C compares pointers that may lie outside the array.
- Machine.ComputeShift: gives no result for shifts by 64 or more, nor for BYTE offsets from 8 to 31, which C leaves undefined.
- Base58Encoder.B58Enc: requires that the size computation stays within `size_t`, and takes the input by value, so an input that overlaps the output is not modelled.
- Base58Decoder.B58ToBin: requires that sizes stay within `size_t`, and takes the text by value.
- The 32-bit `int` fields of the C stack: capacities are taken to be natural numbers.
- Further differences from `reference_to_implement.txt`: MLOAD, MSTORE, MSTORE8 and MSIZE count bits and single bytes where the list has bytes and words, PC gives the address of the next instruction, 0x1e and 0x5f are accepted, and the instructions on accounts, blocks and calls do nothing. The steps say what the code does there; they are not held against the list.
- VmOrder.ExpInListOrder: says nothing of powers that do not fit a word; there EXP's result may be right by coincidence modulo 2^64.
- Gas, the printing of the stack after every instruction, failure of `malloc`, and the demonstration `main`.
- Mining and the validation of blocks and chains: a search over an opaque hash, with comparisons that decide no chain property.
- The hexadecimal conversion loops of the wallet, the transactions and the verifications: plain loops over C library parsing.
- Dilithium, SHA, zlib and OpenSSL: foreign code.
- Node discovery and propagation: sockets, SQLite and files.
