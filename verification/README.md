# LZW compressor (12-bit codes, hashed dictionary) in Dafny

A model of the compressor in `java/LZWCompression.java`:

- **the dictionary probe `findMatch`**: an open-addressing hash table of
  5021 slots keyed by (prefix code, appended byte). Its home slot is
  `(character << 4) ^ prefix`. It probes by subtracting a fixed stride with
  wrap-around until it reaches an empty slot or the key.
- **the bit packer `outputCode`** and the final flush of `compress`: 12-bit
  codes are packed most-significant bit first through a 32-bit `int`
  buffer. A trailing half byte is shifted to the top of a last byte.
- **the encoder loop `compress`**: roots 0..127 are seeded, and the current
  match is extended on a hit. On a miss the match's code is emitted and,
  while codes remain, the next code is learned. At the end the pending code
  and the sentinel 4095 are emitted.

Modules, one per file:

- `Params` (`params.dfy`): the constants of lines 7-12 plus the 128 roots.
- `Arith` (`arith.dfy`): powers of two and floor division facts.
- `Probe` (`probe.dfy`): the home slot, the stride and the probe sequence. It
  proves that 5021 is prime and that every probe sequence visits every slot.
- `Dictionary` (`dictionary.dfy`): the three `short` arrays as one sequence
  of `Slot` records, and `FindMatch`. `Represents` relates the hash table to
  the code table of `Lzw`.
- `Lzw` (`lzw.dfy`): the encoding with the dictionary as a code-indexed
  table, independent of hashing. `Codes(input)` is the sequence of codes
  handed to the packer. It also holds the ghost decoding function `Denote`.
- `BitPacker` (`bitpacker.dfy`): the declarative packing `Pack` and its
  inverse `Unpack`, and the Java packer (`OutputCode`, `Flush`) with 32-bit
  wrap-around. The two are proved to agree.
- `Compressor` (`compressor.dfy`): the `compress` loop as a method over the
  hash table.

The method is proved to write exactly the Java packer's bytes for
`Lzw.Codes(input)`. For non-empty input these bytes are `Pack` of those
codes. The packing round-trips, and for inputs of bytes below 128 the codes
decode back to the input.

Java semantics modelled explicitly:

- `(short)` narrowing (`Dictionary.Short`).
- 32-bit `int` wrap-around of `buffer << 12 | code` (`BitPacker.Wrap32`,
  `BitPacker.ShiftIn`).
- `>>` as floor division (`BitPacker.ShiftRight`).
- `write(int)` keeping only the low 8 bits (`BitPacker.LowByte`).
- The EOF code -1 ORed into the buffer on empty input.

The XOR of the home slot is defined on naturals (`Probe.Xor`). Both of its
operands are non-negative and below 2^12.

## Model

| member | source | states |
|---|---|---|
| Probe.XorBound | java/LZWCompression.java:75 | the XOR of two values below 2^n is below 2^n |
| Probe.Home | java/LZWCompression.java:75 | for a prefix below 4096 and a byte, the home slot `(character << 4) ^ prefix` is below 4096, hence a valid index of the 5021-slot table |
| Probe.Xor | java/LZWCompression.java:75 | `^` on non-negative values is at most their sum, is the identity with 0 and gives 0 on equal operands |
| Probe.HomeExample | java/LZWCompression.java:75 | the home slot of key (65, 65) is 1105 |
| Probe.Stride | java/LZWCompression.java:76 | the stride is in [1, TABLE_SIZE); adding it to the home slot gives 1 (mod TABLE_SIZE) for home 0 and 0 otherwise |
| Probe.NextProbe | java/LZWCompression.java:82-83 | subtracting the stride and adding TABLE_SIZE once on underflow gives a slot index, equal to (index - stride) mod TABLE_SIZE |
| Probe.ProbeAt | java/LZWCompression.java:75-84 | every index the probe loop visits is a valid slot |
| Probe.ProbeClosed | java/LZWCompression.java:75-84 | the k-th probed slot is (home - k * stride) mod TABLE_SIZE |
| Probe.NoDivisorInSound | java/LZWCompression.java:11 | trial division that finds no divisor in [lo, hi] means none of them divides n |
| Probe.TrialDivision | java/LZWCompression.java:11 | no number in [2, 70] divides 5021, and 71^2 = 5041 > 5021 |
| Probe.TableSizePrime | java/LZWCompression.java:11 | TABLE_SIZE = 5021 is prime |
| Probe.NoZeroDivisors | java/LZWCompression.java:11 | a product of two non-zero residues mod 5021 is non-zero |
| Probe.ProbeInjective | java/LZWCompression.java:76-84 | the first TABLE_SIZE probes of a key are pairwise distinct slots |
| Probe.OrbitSize | java/LZWCompression.java:76-84 | the first n probes (n <= TABLE_SIZE) cover exactly n slots |
| Probe.SubsetSameSize | java/LZWCompression.java:76-84 | a subset of a finite set with the same size is the set (the step from "TABLE_SIZE distinct probes" to "all slots") |
| Probe.OrbitCovers | java/LZWCompression.java:76-84 | every slot is reached within TABLE_SIZE probes |
| Probe.ProbeCovers | java/LZWCompression.java:76-84 | every slot, in particular any empty one, is reached within TABLE_SIZE probes of any key, so the loop of `findMatch` terminates |
| Dictionary.Short | java/LZWCompression.java:54-56 | the `(short)` cast lands in [-32768, 32768) and leaves values in that range unchanged, so codes, prefixes and bytes are stored losslessly |
| Dictionary.InitialSlots | java/LZWCompression.java:34-42 | after the two initialisation loops slot i < 128 holds root i with prefix -1 and every other slot is empty |
| Dictionary.Pos | java/LZWCompression.java:75-84 | the slot probed after k steps for a key is a valid index |
| Dictionary.StopsAtUnique | java/LZWCompression.java:78-85 | a probe stops at one place only |
| Dictionary.FindMatch | java/LZWCompression.java:74-86 | given a table with an empty slot, returns an index in range that is empty or holds the key; it is the first such slot on the key's probe sequence, all earlier ones holding other keys; the table is a value, so it is unchanged |
| Dictionary.InitialRepresents | java/LZWCompression.java:32-42 | the initial hash table stores the initial code table (128 roots, 128 occupied slots) |
| Dictionary.OccupiedBelow | java/LZWCompression.java:34-42 | a table whose occupied slots are exactly those below n has n occupied slots |
| Dictionary.SmallSetMisses | java/LZWCompression.java:53-54 | a set of fewer than n indices below n misses one of them |
| Dictionary.HasEmptySlot | java/LZWCompression.java:40-42 | a table storing at most 4095 codes has an empty slot, so `findMatch` may be called |
| Dictionary.KeysUnique | java/LZWCompression.java:53-57 | no two occupied learned slots hold the same key |
| Dictionary.StoredKeyFound | java/LZWCompression.java:78-85 | once a key is stored, every later probe for it stops at the slot holding its code |
| Dictionary.ProbeAnswers | java/LZWCompression.java:48-50 | the slot where the probe stops is empty exactly when the key is not in the code table, and otherwise holds the key's code (the first code with that key) |
| Dictionary.OccupiedInsert | java/LZWCompression.java:54-56 | filling an empty slot adds exactly one occupied slot |
| Dictionary.InsertKeepsCodes | java/LZWCompression.java:53-57 | after filling the returned empty slot, every learned code, old and new, is still found where its probe stops |
| Dictionary.InsertKeepsSlots | java/LZWCompression.java:53-57 | after the insertion every occupied non-root slot holds a learned code, in the slot where that code's probe stops |
| Dictionary.InsertRepresents | java/LZWCompression.java:53-57 | inserting a missing key at the empty slot where its probe stops stores the code table extended by that key, with code `nextCode` |
| Lzw.RootsNeverHit | java/LZWCompression.java:48-50 | a lookup with a non-negative prefix, as every lookup in the loop has, never hits a root: a hit is a learned code, 128 or above |
| Lzw.Start | java/LZWCompression.java:44 | for non-empty byte input the state after the first read satisfies the encoder invariant; for empty input the match is EOF |
| Lzw.Step | java/LZWCompression.java:47-59 | one iteration keeps every old code and emitted code, emits a code exactly when the lookup misses, and then the code is the old match and the match restarts from the byte; a miss while codes remain learns exactly one code, the missing key, and nothing else is ever learned |
| Lzw.Lookup | java/LZWCompression.java:48-50 | a hit returns the first code whose key is (prefix, byte); a miss means no code has that key |
| Lzw.Codes | java/LZWCompression.java:44-63 | every code handed to the packer is in [0, 4095], except the EOF seed of an empty input |
| Lzw.CodesEmpty | java/LZWCompression.java:44-47 | on empty input the loop does not run: the codes are EOF and 4095 |
| Lzw.LearnWellFormed | java/LZWCompression.java:53-57 | learning a missing key while codes remain keeps the code table well formed: roots first, at most 4095 codes, each learned key new and extending a byte or earlier code |
| Lzw.StepValid | java/LZWCompression.java:47-59 | one loop iteration keeps the table well formed, the match a byte or known code, and every emitted code below 4095 |
| Lzw.RunValid | java/LZWCompression.java:47-60 | the encoder invariant holds over any byte sequence |
| Lzw.FinalValid | java/LZWCompression.java:44-60 | the invariant holds when the input is exhausted |
| Lzw.StepTable | java/LZWCompression.java:53-57 | one iteration keeps the old codes, adds at most one, never goes past 4095 codes, and changes nothing once the table is full |
| Lzw.RunTable | java/LZWCompression.java:32-57 | codes are assigned in order from 128, never reassigned, at most one per byte and never 4095; a full table stays unchanged |
| Lzw.CodesFraming | java/LZWCompression.java:47-63 | for non-empty input the codes are at least 2 and at most |input| + 1, all but the last are in [0, 4094], and the last is the sentinel 4095 |
| Lzw.EmittedCount | java/LZWCompression.java:51-52 | at most one code is emitted per byte consumed |
| Lzw.Denote | java/LZWCompression.java:53-57 | every code of a table whose learned entries extend earlier codes stands for a non-empty string (decoding terminates) |
| Lzw.DenoteExtend | java/LZWCompression.java:53-57 | learning codes does not change the string of an existing code |
| Lzw.ExpandExtend | java/LZWCompression.java:53-57 | learning codes does not change the strings of emitted codes |
| Lzw.StartSpells | java/LZWCompression.java:44 | before the loop the seed byte alone is the current match's string |
| Lzw.HitSpells | java/LZWCompression.java:49-50 | on a hit the match's string grows by the byte read |
| Lzw.MissSpells | java/LZWCompression.java:51-58 | on a miss the emitted strings plus the new match's string still spell the bytes read |
| Lzw.StepSpells | java/LZWCompression.java:47-60 | each iteration keeps "emitted strings + match string = bytes read" |
| Lzw.RunSpells | java/LZWCompression.java:44-60 | after n bytes the emitted strings plus the match's string spell the first n bytes |
| Lzw.Decodable | java/LZWCompression.java:44-63 | for non-empty input of bytes below 128, the strings of all codes but the sentinel, in the final code table, concatenate to the input |
| Lzw.HighByteCollision | java/LZWCompression.java:58 | for input 65 65 128 the codes are 65, 65, 128, 4095 and code 128 was learned as "AA"; in the final, well-formed table the emitted codes read back as "AAAA", not the input, so bytes of 128 and above are not decodable |
| Lzw.CollisionFinal | java/LZWCompression.java:44-60 | after 65, 65, 128 the loop has missed twice, learned 128 = (65, 65) and 129 = (65, 128), emitted 65 twice and holds the raw byte 128 as its match |
| Lzw.RepeatedByteFinal | java/LZWCompression.java:44-60 | after "AAAA" the loop has learned 128 = (65, 'A') and 129 = (128, 'A'), emitted 65 and 128 and holds 65 as its match |
| Lzw.RepeatedByteLookups | java/LZWCompression.java:48-50 | the three lookups for "AAAA": miss, hit at code 128, miss |
| Lzw.RepeatedByteCodes | java/LZWCompression.java:44-63 | input "AAAA" gives codes 65, 128, 65, 4095 and learns 128 = (65, 'A') and 129 = (128, 'A') |
| BitPacker.ValBits | java/LZWCompression.java:89 | a value below 2^w reads back from its w bits |
| BitPacker.BitsVal | java/LZWCompression.java:94 | a bit string is the w-bit form of its value |
| BitPacker.CodeStream | java/LZWCompression.java:89-90 | each code contributes exactly 12 bits |
| BitPacker.ToBytesShape | java/LZWCompression.java:92-95 | a bit stream cuts into ceil(n / 8) bytes, each in [0, 255] |
| BitPacker.FromToBytes | java/LZWCompression.java:92-95 | the bits of the bytes are the stream followed by zero padding to the byte boundary |
| BitPacker.ToCodesStream | java/LZWCompression.java:89 | reading 12-bit codes from the code stream with fewer than 12 padding bits gives the codes back |
| BitPacker.PackRoundTrip | java/LZWCompression.java:88-96 | `Unpack(Pack(codes)) == codes` for codes in [0, 4096) |
| BitPacker.PackShape | java/LZWCompression.java:88-96 | the packed form has ceil(12 n / 8) bytes, begins with the codes' bits and has only zero bits after them |
| BitPacker.ShiftLeft | java/LZWCompression.java:65 | `x << k` keeps the sign of x and is zero exactly when x is |
| BitPacker.ShiftRight | java/LZWCompression.java:94 | `x >> k` keeps the sign of x and does not grow its magnitude |
| BitPacker.ShiftIn | java/LZWCompression.java:89 | `(buffer << 12) \| code` is an `int` whose low 12 bits are the code, and which differs from buffer * 2^12 + code by a multiple of 2^32 |
| BitPacker.ShiftLeftMul | java/LZWCompression.java:65 | `x << k` before narrowing is x * 2^k |
| BitPacker.ShiftRightDiv | java/LZWCompression.java:94 | the arithmetic shift `x >> k` is floor division by 2^k |
| BitPacker.Wrap32 | java/LZWCompression.java:89 | narrowing to `int` gives a value in [-2^31, 2^31) congruent to the input mod 2^32 |
| BitPacker.LowByte | java/LZWCompression.java:94 | `write(int)` writes a byte |
| BitPacker.WrapByte | java/LZWCompression.java:89-94 | bits lost to 32-bit overflow never reach a byte written with fewer than 24 pending bits below it |
| BitPacker.ShiftInStream | java/LZWCompression.java:89 | shifting a code into a buffer (`buffer << 12`, then OR) that holds a stream gives a buffer holding the stream followed by the code's 12 bits (mod 2^32) |
| BitPacker.Drain | java/LZWCompression.java:92-95 | the write loop leaves fewer than 8 bits pending, writes one byte per 8 bits drained and keeps earlier bytes |
| BitPacker.OutputCode | java/LZWCompression.java:88-96 | `outputCode` keeps the bit count in [0, 8), sets it to (count + 12) mod 8, writes floor((count + 12) / 8) bytes and keeps earlier bytes |
| BitPacker.Flush | java/LZWCompression.java:64-66 | the flush writes one more byte exactly when bits are pending |
| BitPacker.EmitAll | java/LZWCompression.java:88-96 | the bit count stays in [0, 8) over any sequence of `outputCode` calls |
| BitPacker.EmitAllSnoc | java/LZWCompression.java:62-63 | emitting one more code is one more `outputCode` call |
| BitPacker.ByteOfStream | java/LZWCompression.java:94 | with c bits pending, `buffer >> c` writes the stream's byte just before those bits |
| BitPacker.DrainByte | java/LZWCompression.java:93-94 | one pass of the write loop writes the stream's next whole byte |
| BitPacker.DrainStream | java/LZWCompression.java:92-95 | the write loop leaves the packer holding the stream: its whole bytes written, the rest pending |
| BitPacker.OutputStream | java/LZWCompression.java:88-96 | `outputCode` appends the code's 12 bits to the stream the packer holds |
| BitPacker.EmitAllStream | java/LZWCompression.java:88-96 | after codes are output one by one, the packer holds their bit stream |
| BitPacker.PackerProgress | java/LZWCompression.java:89-95 | after n codes the bit count is 12 n mod 8 and floor(12 n / 8) bytes have been written |
| BitPacker.PadByte | java/LZWCompression.java:65 | `buffer << (8 - count)` writes the pending bits at the top of a byte, zeros below |
| BitPacker.FlushStream | java/LZWCompression.java:64-66 | the flush completes the stream's bytes: the pending bits become the zero-padded last byte |
| BitPacker.EmitIsPack | java/LZWCompression.java:88-96 | the bytes the Java packer writes, flush included, are exactly `Pack` of the codes |
| BitPacker.ShiftRightMinusOne | java/LZWCompression.java:94 | `-1 >> k` is -1 |
| BitPacker.EmptyOutput | java/LZWCompression.java:44-66 | for the codes EOF, 4095 of an empty input the packer writes FF FF FF and nothing is flushed |
| BitPacker.OutputOneByte | java/LZWCompression.java:88-96 | with fewer than 4 bits pending, `outputCode` writes one byte and leaves 4 more bits pending |
| BitPacker.OutputTwoBytes | java/LZWCompression.java:88-96 | with 4 to 7 bits pending, `outputCode` writes two bytes and leaves 4 fewer bits pending |
| BitPacker.ExampleFirst | java/LZWCompression.java:88-96 | code 65 from the start writes 04 and leaves 4 bits pending |
| BitPacker.ExampleSecond | java/LZWCompression.java:88-96 | code 128 next writes 10 80 |
| BitPacker.ExampleThird | java/LZWCompression.java:88-96 | code 65 next writes 04 |
| BitPacker.ExampleLast | java/LZWCompression.java:88-96 | the sentinel next overflows the buffer to a negative `int` and writes 1F FF |
| BitPacker.EmitPrefix | java/LZWCompression.java:88-96 | the packer after i + 1 codes is `outputCode` applied to the packer after i codes |
| BitPacker.EmitFour | java/LZWCompression.java:88-96 | the packer after four codes is the fourth of four successive `outputCode` states |
| BitPacker.PackExample | java/LZWCompression.java:88-96 | the codes 65, 128, 65, 4095 pack into 04 10 80 04 1F FF |
| Compressor.Compress | java/LZWCompression.java:31-68 | `compress` writes the Java packer's bytes for `Lzw.Codes(input)`; for non-empty input these are `Pack` of those codes, and for empty input FF FF FF |
| Compressor.Init | java/LZWCompression.java:32-44 | the state after initialisation and the first read mirrors the encoder's start: the hash table stores exactly the 128 roots, `nextCode` is 128 |
| Compressor.Iteration | java/LZWCompression.java:48-59 | only the probed slot can change; a hit changes neither table, `nextCode` nor packer; a miss (an empty slot) writes output and restarts the match from the byte; `nextCode` grows by at most one and never past 4095; a filled slot was empty, and a code, prefix and byte in range are stored without loss |
| Compressor.Finish | java/LZWCompression.java:62-66 | the final output keeps the bytes written so far and adds ceil((count + 24) / 8) bytes for the pending code, the sentinel and the part byte |
| Compressor.InitInv | java/LZWCompression.java:32-44 | after initialisation and the first read, the hash table stores the 128 roots and the packer is empty |
| Compressor.ReadyToProbe | java/LZWCompression.java:47-48 | inside the loop the key is valid for `findMatch` and the table has an empty slot |
| Compressor.TracksStep | java/LZWCompression.java:47 | reading one more byte is one more step of the encoder |
| Compressor.MirrorsStep | java/LZWCompression.java:48-59 | a hit or a miss with or without learning keeps the hash table, `nextCode`, `stringCode` and the packer in step with the encoder |
| Compressor.IterationInv | java/LZWCompression.java:47-60 | one loop iteration keeps the loop invariant |
| Compressor.FinishInv | java/LZWCompression.java:62-66 | after the loop, emitting the pending code and the sentinel and flushing writes the packer's bytes for `Lzw.Codes(input)` |
| Compressor.RepeatedByteOutput | java/LZWCompression.java:31-68 | for input "AAAA" the codes are 65, 128, 65, 4095 and `compress` writes 04 10 80 04 1F FF |

## Left out

- `calculateEntropy`, `logResults`, `main` and the `samples` field: floating point, file I/O, logging and the command-line driver, none of which feeds the compressor's logic.
- `readByte`, the buffered streams and `output.flush()`: the input stream is the byte sequence `input`, read in order, then EOF; the output is the sequence of bytes written. I/O exceptions are not modelled.
- The three parallel `short` arrays are one sequence of `Slot` records, and `findMatch` takes the table as a value. Its "does not modify the table" is therefore true by construction rather than stated.
- A decompressor: the source has none. Decoding exists only as the ghost functions `Lzw.Denote` and `Lzw.Expand`, and as `BitPacker.Unpack`.
- Lzw.Decodable: holds only for inputs whose bytes are all below 128. Only codes 0..127 are seeded as roots, and `stringCode = character` takes a byte of 128 or more as a code number. `Lzw.HighByteCollision` shows such input is not decodable. The source's only caller feeds ASCII `'0'`/`'1'`.
- BitPacker.PackRoundTrip, BitPacker.PackShape, BitPacker.PackerProgress: stated for codes in [0, 4096). The only other code, EOF (-1), arises only for empty input, and `BitPacker.EmptyOutput` covers it.
- Only bytes 0..127 are seeded as roots (java/LZWCompression.java:34-38).
- Compressor.Init, Compressor.InitInv: model one `compress()` call on a freshly constructed instance. `outputBitBuffer` and `outputBitCount` (lines 17-18) are fields that `compress()` does not reset, so a second call on the same instance would start from the previous bit count; the driver constructs a new instance for each call (line 164).
- Any bound on the length of the input: the model has none, and nothing in the source depends on one.
