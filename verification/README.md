# pegasus — a Dafny model of the bit-exact coding pipeline

pegasus is a digital channel simulator written in C. Its pipeline runs as follows:

1. A **source** generates a bit sequence.
2. The sequence is **re-chunked** into blocks.
3. The blocks are protected by a **forward error correction (FEC)** code.
4. The blocks are **modulated** onto constellation points.
5. The points are sent through a noisy channel.
6. The received points are **demodulated**, decoded and joined.
7. The bit and symbol error rates are measured.

This project models every stage of that pipeline that involves neither floating point nor randomness. It proves what each stage computes.

Seventeen Dafny files, one module each:

| file | module | what it models |
|---|---|---|
| wrappers.dfy | Wrappers | `Option`; `Result` with the fatal outcomes `pgp_range` and `pgp_switch_default` |
| bits.dfy | Bits | bit strings as `seq<bool>`: big-endian value, n-bit encoding, XOR, weight |
| gf2.dfy | Gf2 | the long division over GF(2) inside `pgb_divmod2`, as a sequence of loop steps |
| block.dfy | Block | `pgs_block_t` (bits plus the `used` mark) and the routines of pegasus_block.c except the printing and freeing ones |
| rechunk.dfy | Rechunk | `pgt_blocks_to_blocks`: re-segmenting a stream of equal blocks |
| tools.dfy | Tools | Gray code, `pgt_popcount`, and BER/SER as mismatch counts |
| fec_schemes.dfy | FecSchemes | the constants of pegasus_fec.h, the polynomial blocks, and the size and name switches |
| syndromes.dfy | Syndromes | `pgf_examine_error_vectors`: the syndrome table, declaratively and as the C loop |
| hamming.dfy | Hamming | the Hamming(7,4) coder |
| crc.dfy | Crc | the cyclic/BCH coder (remainder suffix, syndrome-table correction) |
| fec.dfy | Fec | `pgf_encode_block(s)` / `pgf_decode_block(s)` and the FEC round trip |
| modulation_schemes.dfy | ModulationSchemes | the constants of pegasus_modulation.h and the size and name switches |
| constellation.dfy | Constellation | `pgm_fill_xsk` (index placement) and the two QAM grid walks |
| modulation.dfy | Modulation | `pgm_modulate`, `pgm_find_block`, `pgm_demodulate` |
| random.dfy | Random | the xorshift step `__pgr_get_u64` on 64-bit words |
| source.dfy | Source | `pgs_generate`, with its predefined and random sources |
| selftests.dfy | SelfTests | `pgst_fec_test` and `pgst_modulator_test`: split, code, decode, join and measure the BER |

## Modelling choices

- **Blocks.** A block is `Block(bits: seq<bool>, used: bool)`. Its size is `|bits|`. pegasus_common_types.h:47-52 names the size field `chunk_size`. pegasus_fec.c:309, :349, :408, :448 and pegasus_tools.c:61, :132 read a field `.bits_count`, which the struct does not declare. Both are read here as the block's size.
- **Bit accessors.** `pgb_get_bit`, `pgb_set_bit` and friends do no bounds check. So an in-range index is a precondition. The same holds for the unchecked table reads in the coders.
- **Fatal calls.** The `pgp_*` calls (`pgp_range`, `pgp_switch_default`) end the program. Where a caller can reach them, they are modelled as a `Fail` result.
- **NULL.** A NULL array argument is `None`.
- **Fixed width.** `unsigned long long` arithmetic is unbounded here. Where the 64-bit width matters, it is a precondition: `1ULL << n` needs n < 64, and `pgb_ull_to_block` needs a value below 2^64.
- **Xorshift state.** The generator state is a 64-bit word, written as a sequence of 64 bits with the most significant bit first. Shifts are spelled out bit by bit.
- **Constellation points.** Points are symbolic:
  - `Polar(k, t)` stands for k·(cos a, sin a) with a = phase shift + 2t·angle step;
  - `Grid(i, q)` stands for (i, q) times the normalisation factor.

  The integer walk that decides which point lands in which slot is modelled exactly.
- **Nearest-point search.** The distance is an abstract function argument. The thresholds are symbolic (`Half`, `SinOf`, `InverseBoundRoot2`), and a function argument gives their numeric value.
- **Hamming index arrays.** The arrays `PGF_HAMMING74_FEC_BITS` and `PGF_HAMMING74_SYNDROME_BITS` are not declared in any of the files modelled here. They are parameters. The correction lemmas hold for every pair of arrays that corrects single errors, and `Hamming.StandardArraysCorrect` shows that the textbook layout is such a pair.
- **Schemes.** Only the 5 FEC schemes and the 15 modulation schemes that the headers define are modelled. pegasus_modulation.c names 4096-PSK and 4096-QAM, which pegasus_modulation.h does not define: the tables at :181 and :217, the switches at :256-275, :318-337 and :380-399, the table reads at :444 and :462, and the searches at :602-608 and :650-656.
- **Random source.** `pgr_get_u64()` without OpenMP is `__pgr_get_u64(0)` (pegasus_random.h:42-43). So the random source draws every word from slot 0 of the seed array. That array is a parameter.

## Model

| member | source | states |
|---|---|---|
| Block.CreateBlocks | pegasus_block.c:32-48 | `count` blocks, each of exactly `alignment` bits, every bit clear and the `used` mark clear |
| Block.CreateBlock | pegasus_block.c:50-53 | one block of `alignment` clear bits, unmarked |
| Block.GetBit | pegasus_block.c:73-79 | bit i of an n-bit block is the digit of weight 2^(n-1-i) in the block's big-endian value |
| Block.SetBit | pegasus_block.c:81-87 | the indexed bit takes the value; every other bit, the size and the mark stay |
| Block.XorBit | pegasus_block.c:89-95 | bit i becomes bit i xor v; nothing else changes |
| Block.XorBitTwice | pegasus_block.c:89-95 | xor-ing the same value into a bit twice restores the block |
| Block.FlipBit | pegasus_block.c:116-122 | the one-bit field takes its complement; nothing else changes |
| Block.CopyXorBit | pegasus_block.c:97-105 | target bit i becomes target[i] xor source[j]; nothing else changes |
| Block.CopyXorIsXorBit | pegasus_block.c:89-105 | `pgb_copyxor_bit` is `pgb_xor_bit` applied with the source's bit |
| Block.CopyBit | pegasus_block.c:107-114 | target bit i becomes source bit j; nothing else changes |
| Block.CmpBit | pegasus_block.c:124-131 | true exactly when the two bits' sum modulo 2, what `pgb_copyxor_bit` would leave, is zero |
| Block.BlockToUll | pegasus_block.c:134-146 | the loop's sum of 2^(n-1-i) over the set bits i is the block's big-endian value, and it is below 2^n |
| Bits.ToNatBound | pegasus_block.c:134-146 | the big-endian value of n bits is below 2^n |
| Block.UllToBlock | pegasus_block.c:148-158 | size and mark stay; bit n-1-i becomes bit i of the value, so reading the block back gives value mod 2^n |
| Bits.ToNatFromNat | pegasus_block.c:148-158 | writing a value into n bits and reading it back gives the value mod 2^n |
| Bits.FromNatToNat | pegasus_block.c:134-158 | reading a bit string and writing the value back into as many bits reproduces it |
| Bits.FromNatBit | pegasus_block.c:156-157 | bit n-1-i of the n-bit encoding is (v >> i) & 1 |
| Block.UllToBlockOfOwnValue | pegasus_block.c:134-158 | writing a block's own value back into it leaves it unchanged |
| Bits.ToNatInjective | pegasus_block.c:134-146 | two blocks of equal size with equal values have equal bits |
| Bits.ToNatZero | pegasus_fec.c:391-392 | a block's value is zero exactly when all its bits are clear, which is what the nonzero-syndrome test asks |
| Block.BinaryStringToBlock | pegasus_block.c:160-168 | bit i becomes (s[i] == '1') for i below strlen(s); later bits, the size and the mark stay |
| Block.BinaryStringRoundTrip | pegasus_block.c:160-168 | loading a full-length string of binary digits and printing the bits back as digits returns the string |
| Block.DivMod2 | pegasus_block.c:170-187 | a fresh unmarked block of |divisor|-1 bits holding the GF(2) remainder of the dividend; the dividend is a value and stays unchanged |
| Gf2.Remainder | pegasus_block.c:182-185 | the remainder has |divisor|-1 bits |
| Gf2.RemainderLinear | pegasus_block.c:177-180 | the remainder of a xor b is remainder(a) xor remainder(b) for equal-length a and b |
| Gf2.ReduceLinear | pegasus_block.c:177-180 | every partial run of the reduction loop is GF(2)-linear in the dividend |
| Gf2.ReductionClearsQuotient | pegasus_block.c:177-180 | with a leading divisor bit 1, the reduction clears every bit it visits, so only the remainder is left |
| Gf2.ReduceZeroPrefix | pegasus_block.c:177-180 | a dividend whose visited bits are clear passes through the loop unchanged |
| Gf2.RemainderOfTail | pegasus_block.c:170-187 | zeros followed by r, with r one bit shorter than the divisor, has remainder r |
| Gf2.RemainderOfZero | pegasus_block.c:170-187 | the all-zero dividend has the all-zero remainder |
| Gf2.Quotient | pegasus_block.c:177-178 | the quotient has one coefficient per outer-loop iteration, |dividend| - |divisor| + 1 |
| Gf2.ReduceIsProduct | pegasus_block.c:177-180 | the loop adds to the dividend exactly the product of the divisor with the bits it finds set, its quotient |
| Gf2.DivisionIdentity | pegasus_block.c:170-187 | with a leading divisor bit 1, dividend = quotient × divisor + remainder over GF(2), the remainder filling the last |divisor|-1 positions |
| Block.XorBlock | pegasus_block.c:189-193 | target[i] ^= pattern[i] for every i below the target's size; size and mark stay |
| Block.XorTwice | pegasus_block.c:189-193 | applying the same pattern twice restores the target |
| Block.MultiXorIsParity | pegasus_block.c:195-204 | `Block.MultiXor`, the xor fold of `pgb_multixor` over the listed positions, is true exactly when an odd number of those bits is set |
| Block.MultiXorLinear | pegasus_block.c:195-204 | the parity over a fixed index list is linear in the block |
| Block.Copy | pegasus_block.c:206-220 | fatal (range error) exactly when either range overruns its block; otherwise dst[d+k] = src[s+k] for k below amount, and every other bit and the mark stay |
| Rechunk.BlocksToBlocks | pegasus_tools.c:53-88 | a NULL source gives count 0; a target size of 0 means the source block size; the count is ceil(count·size / target size); the targets are the source stream cut into blocks of the target size |
| Rechunk.CopyBlockBits | pegasus_tools.c:75-85 | the inner loop places every bit of source block i at its serial position |
| Rechunk.CeilDivBounds | pegasus_tools.c:66-68 | the target count times the target size covers the stream, and by less than one target block too much |
| Rechunk.Split | pegasus_tools.c:66-70 | ceil(|s| / t) blocks, all of t bits |
| Rechunk.SplitIndex | pegasus_tools.c:80-83 | source serial bit k lands in target block k / t at position k mod t |
| Rechunk.FlattenIndex | pegasus_tools.c:77-80 | serial bit k of equal blocks of size n is bit k mod n of block k / n |
| Rechunk.SplitPadding | pegasus_tools.c:70 | target bits past the end of the stream stay zero and unmarked, as allocated |
| Rechunk.FlattenSplit | pegasus_tools.c:53-88 | joining the target blocks gives the stream followed by zero padding up to a multiple of the target size |
| Rechunk.FlattenSplitBit | pegasus_tools.c:53-88 | bit k of the joined targets is the stream's bit k, or zero past the stream |
| Rechunk.RechunkLossless | pegasus_tools.c:53-88 | re-chunking is lossless and order-preserving: the source stream is a prefix of the joined targets, and only zeros follow |
| Rechunk.RechunkTwice | pegasus_tools.c:53-88 | re-chunking twice gives the same stream as re-chunking once, up to trailing zeros |
| Tools.Gray | pegasus_tools.c:90-93 | the Gray code of v is (v >> 1) xor v, with xor defined bitwise on naturals |
| Tools.GrayAdjacent | pegasus_tools.c:90-93 | the Gray codes of v and v+1 differ in exactly one bit |
| Tools.GrayZero | pegasus_tools.c:90-93 | only 0 has Gray code 0 |
| Tools.FromGrayGray | pegasus_tools.c:90-93 | the inverse Gray transform recovers v from its code |
| Tools.GrayFromGray | pegasus_tools.c:90-93 | every natural number is the Gray code of its inverse transform |
| Tools.GrayInjective | pegasus_tools.c:90-93 | distinct values have distinct Gray codes |
| Tools.GrayBound | pegasus_tools.c:90-93 | an n-bit value has an n-bit Gray code |
| Tools.GrayOnto | pegasus_tools.c:90-93 | every n-bit code is the Gray code of an n-bit value, so Gray coding permutes [0, 2^n) |
| Tools.Popcount | pegasus_tools.c:154-160 | the portable branch returns the number of one bits of its 64-bit argument |
| Tools.PopcountAsWritten | pegasus_tools.c:150-153 | the GCC branch: below 2^32, where every error vector the FEC tables examine lies, it counts the set bits like the portable branch |
| Tools.PopcountTruncates | pegasus_tools.c:152-153 | at 2^32, a valid argument with one bit set, the GCC branch reports zero set bits |
| Bits.WeightFromNat | pegasus_fec.c:110-113 | the popcount of pattern i is the number of set bits of the block that `pgb_ull_to_block` makes from i |
| Tools.Quotient | pegasus_tools.c:114 | a ratio of counts with numerator at most the denominator is NaN for 0/0; otherwise it lies in [0, 1] and is 0 exactly when the numerator is 0 |
| Tools.WrongBits | pegasus_tools.c:102-112 | the mismatch count over the first n positions is at most n |
| Tools.WrongBitsIsWeight | pegasus_tools.c:102-112 | the mismatch count is the Hamming weight of the xor of the two prefixes |
| Tools.WrongBitsZero | pegasus_tools.c:102-112 | no mismatch exactly when the two prefixes are equal |
| Tools.WrongBitsInverted | pegasus_tools.c:102-112 | when every bit is inverted, every position is counted |
| Tools.Ber | pegasus_tools.c:95-115 | 0 when either array is NULL; NaN for length 0; otherwise the Hamming weight of the xor of the first `length` bits of block 0 of the two arrays, divided by `length`: in [0, 1], and 0 exactly when those bits agree |
| Tools.BlockWrongMeans | pegasus_tools.c:129-139 | a block pair counts as a symbol error exactly when some bit of the original differs |
| Tools.WrongBlocks | pegasus_tools.c:124-140 | the wrong-block count over the first n pairs is at most n |
| Tools.WrongBlocksCounts | pegasus_tools.c:124-140 | the wrong-block count is the number of indices i < n whose original block differs from the distorted block's prefix |
| Tools.WrongBlocksZero | pegasus_tools.c:124-140 | no wrong block exactly when every original block agrees with its distorted counterpart |
| Tools.Ser | pegasus_tools.c:117-143 | 0 when either array is NULL; NaN for count 0; otherwise the number of indices i < count whose blocks differ, divided by count: in [0, 1], and 0 exactly when every block pair agrees |
| FecSchemes.FromId | pegasus_fec.h:29-33 | identifiers 1..5 name a scheme, and the scheme's identifier is the one looked up; every other identifier names none |
| FecSchemes.IdsDistinct | pegasus_fec.h:29-33 | the five identifiers are pairwise distinct, and looking a scheme's identifier up gives the scheme back |
| FecSchemes.Suffix | pegasus_fec.h:63-66 | output size = input size + parity suffix for every scheme: 7 = 4+3, 8 = 5+3, 15 = 5+10, 15 = 7+8, 0 = 0+0 |
| FecSchemes.PolynomeShape | pegasus_fec.h:41-43 | each polynomial string is a string of binary digits, of length suffix+1, with a leading '1' |
| FecSchemes.Polynome | pegasus_fec.c:33-69 | the polynomial block has suffix+1 bits, so the string fills it exactly |
| FecSchemes.PolynomeBits | pegasus_fec.c:43-46 | the polynomial block's leading bit is set, and it is no longer than a codeword plus one |
| FecSchemes.TestShape | pegasus_fec.h:45-47 | each test string is a string of binary digits as long as the scheme's output block |
| FecSchemes.TestBits | pegasus_fec.c:106-109 | the test message block has the scheme's output size |
| FecSchemes.TestIsCodeword | pegasus_fec.h:41-47 | each test message divides by its polynomial with remainder zero |
| FecSchemes.Cyclic85TestIsCodeword | pegasus_fec.h:41-45 | "10101101" mod "1011" is 000 |
| FecSchemes.Bch1557TestIsCodeword | pegasus_fec.h:42-46 | "101011001000111" mod "10100110111" is ten zeros |
| FecSchemes.Bch1575TestIsCodeword | pegasus_fec.h:43-47 | "101010111100101" mod "111010001" is eight zeros |
| FecSchemes.Name | pegasus_fec.c:197-221 | a name exactly for identifiers 1..5; any other identifier is fatal (switch default) |
| FecSchemes.NamesDistinct | pegasus_fec.h:35-39 | distinct schemes have distinct names |
| FecSchemes.InputSize | pegasus_fec.c:223-247 | the scheme's input block size (0 for None), fatal for an unknown identifier |
| FecSchemes.OutputSize | pegasus_fec.c:249-273 | the scheme's output block size (0 for None), fatal for an unknown identifier |
| Syndromes.Pattern | pegasus_fec.c:113 | error pattern i is the n-bit big-endian block that `pgb_ull_to_block` makes from i |
| Syndromes.Best | pegasus_fec.c:110-119 | the smallest examined pattern (popcount at most t) at or above `lo` whose syndrome is s, or none when no such pattern exists |
| Syndromes.Entry | pegasus_fec.c:116-119 | a slot holds a block of n bits |
| Syndromes.Table | pegasus_fec.c:105 | the table has `volume` slots of n bits |
| Syndromes.EntryStep | pegasus_fec.c:110-119 | pattern lo takes slot s exactly when it is examined and reaches s; otherwise the later patterns decide |
| Syndromes.Partial | pegasus_fec.c:105-123 | the table part-way through the loop keeps `volume` slots of n bits |
| Syndromes.PartialStep | pegasus_fec.c:110-123 | one iteration marks slot syndrome(i) used and overwrites it with pattern i when popcount(i) <= t, and changes nothing otherwise |
| Syndromes.PartialEmpty | pegasus_fec.c:105 | before any pattern is examined, the table is as `pgb_create_blocks` made it |
| Syndromes.SlotBound | pegasus_fec.c:116-117 | a syndrome of |poly|-1 bits is below 2^(|poly|-1), so the index fits a table of that volume |
| Syndromes.DistortedMessage | pegasus_fec.c:113-114 | `pgb_xor` of the test message with the pattern block gives message xor pattern |
| Syndromes.CopyWhole | pegasus_fec.c:119 | copying the n-bit pattern over an n-bit slot replaces all its bits and keeps the mark |
| Syndromes.LoadPattern | pegasus_fec.c:113 | the error block holds the n-bit encoding of i |
| Syndromes.ExaminePattern | pegasus_fec.c:112-123 | for an examined pattern, the loop body advances the table by one step and restores the test message |
| Syndromes.ExamineStep | pegasus_fec.c:110-123 | one pass of the descending loop, whether or not the popcount test admits the pattern |
| Syndromes.ExamineErrorVectors | pegasus_fec.c:98-126 | the loop from 2^n-1 down to 1 leaves exactly the declarative table |
| Syndromes.PartialComplete | pegasus_fec.c:110 | once pattern 1 has been examined, the partial table is the whole table |
| Syndromes.TableEntry | pegasus_fec.c:116-119 | last write wins in the descending loop: a used slot holds the numerically smallest examined pattern with that syndrome, and an unused slot is all zero because no examined pattern reaches it |
| Syndromes.TableSlot | pegasus_fec.c:116-119 | a slot that some examined pattern reaches holds the smallest such pattern, marked used |
| Syndromes.TableCovers | pegasus_fec.c:110-119 | every examined pattern finds its slot used, holding a pattern no larger than itself with the same syndrome |
| Syndromes.SlotOfCodeword | pegasus_fec.c:114-117 | when the test message is a codeword, the slot depends on the error pattern alone |
| Crc.InitSyndromes | pegasus_fec.c:128-168 | the table built for a scheme is that scheme's declarative table, and every used slot holds a nonzero pattern |
| Crc.CodeOf | pegasus_fec.c:138-165 | the code a scheme's table is built from has codeword length, a monic polynomial of suffix+1 bits, and its test message |
| Crc.TableOf | pegasus_fec.h:73-75 | a scheme's table has 2^suffix slots of output-block size |
| Crc.Encode | pegasus_fec.c:286-297 | fatal when either copy overruns; otherwise the target is the k data bits, then the first `suffix` bits of the remainder of (data followed by the target's old tail), then the old tail |
| Crc.EncodeIsCodeword | pegasus_fec.c:286-297 | encoding into a fresh block of k+s bits gives the data followed by the remainder of (data followed by s zeros) |
| Crc.Codeword | pegasus_fec.c:293-295 | a codeword starts with the data and has |data| + |poly| - 1 bits |
| Crc.CodewordDivisible | pegasus_fec.c:286-297 | the encoder's output has remainder zero under its polynomial |
| Crc.Syndrome | pegasus_fec.c:390-391 | the syndrome is an index below the table volume 2^(|poly|-1) |
| Crc.SyndromeOfError | pegasus_fec.c:390-391 | a codeword hit by pattern v has the syndrome pattern v alone would have |
| Crc.Decode | pegasus_fec.c:382-396 | fatal when the copy overruns; otherwise output bit j is the received bit (j < k), xor-ed with the slot's pattern bit only when the syndrome is nonzero and the slot is used |
| Crc.DecodeFresh | pegasus_fec.c:382-396 | into a fresh k-bit block, the output is the first k received bits, corrected by the slot's pattern when the slot is used |
| Crc.EncodeFor | pegasus_fec.c:314-333 | each CRC scheme's encoder succeeds exactly when the source holds its input bits and the target its output bits |
| Crc.DecodeFor | pegasus_fec.c:413-432 | each CRC scheme's decoder succeeds exactly when the target and the received word hold its input bits |
| Crc.SchemeSetting | pegasus_fec.c:138-165 | each CRC scheme decodes with a monic polynomial, a codeword test message and a table of 2^suffix slots |
| Crc.SchemeEncode | pegasus_fec.c:314-333 | a scheme encodes a data block into a fresh output block as its codeword |
| Crc.SchemeDecode | pegasus_fec.c:413-432 | a scheme decodes a clean codeword into a fresh input block as its data |
| Crc.DecodesCleanCodeword | pegasus_fec.c:382-396 | a codeword without errors has syndrome 0 and decodes to its data |
| Crc.CorrectsTableErrors | pegasus_fec.c:382-396 | a codeword hit by the pattern the table keeps for its nonzero syndrome decodes to its data |
| Crc.SameRemainderDivides | pegasus_fec.c:390-394 | removing a used slot's pattern from a word with that syndrome leaves a word divisible by the polynomial |
| Crc.DecodesToCodeword | pegasus_fec.c:382-396 | every received word decodes to the data part of a codeword: uncorrected when its syndrome is 0 or its slot unused, otherwise with the slot's pattern removed |
| Crc.Cyclic85HighBitRemainder | pegasus_fec.h:41 | x^7 leaves remainder 1 modulo x^3 + x + 1, so a bit-0 error and a bit-7 error share syndrome 1 |
| Crc.Cyclic85KeepsBitZero | pegasus_fec.c:110-111 | the single error in data bit 0 (pattern 128) passes the popcount test |
| Crc.Cyclic85BitZeroSlot | pegasus_fec.c:116-117 | pattern 128 lands in slot 1 |
| Crc.Cyclic85BitSevenSlot | pegasus_fec.c:116-119 | pattern 1 lands in slot 1 too, and it is the pattern slot 1 keeps |
| Crc.Cyclic85Slots | pegasus_fec.c:110-119 | for Cyclic(8,5) the tie-break matters: patterns 128 and 1 share slot 1, which keeps 1 |
| Crc.Cyclic85Scheme | pegasus_fec.h:41-75 | the (8,5) scheme's code has the shape these lemmas need |
| Crc.Cyclic85MissesBitZero | pegasus_fec.c:382-396 | a Cyclic(8,5) codeword with data bit 0 flipped decodes with that bit still flipped, although the code's power is 1 |
| Hamming.Encode | pegasus_fec.c:275-284 | fatal when the source has fewer than 4 bits; otherwise the 4 data bits are copied, bit 4+i is the parity of the data bits FEC_BITS[i] lists, and later bits stay |
| Hamming.Decode | pegasus_fec.c:363-380 | fatal when the target has fewer than 4 bits; otherwise data bit j is the received bit, flipped exactly when the 3-bit syndrome equals j+1 |
| Hamming.Codeword | pegasus_fec.c:278-283 | a codeword has 7 bits and starts with its 4 data bits |
| Hamming.SyndromeLinear | pegasus_fec.c:370-374 | the syndrome is linear in the received word |
| Hamming.StandardArraysCorrect | pegasus_fec.c:363-380 | with the textbook arrays, codewords have syndrome 0 and an error in bit j has a syndrome that flips bit j back or leaves the data alone |
| Hamming.EncodeIsCodeword | pegasus_fec.c:275-284 | encoding into a fresh 7-bit block gives the codeword of the first 4 source bits |
| Hamming.CleanDecodes | pegasus_fec.c:363-380 | a codeword decodes to its data |
| Hamming.FlipDecodes | pegasus_fec.c:363-380 | a codeword with any one bit flipped decodes to its data |
| Hamming.CorrectsOneError | pegasus_fec.c:363-380 | with single-error-correcting arrays, a codeword with at most one flipped bit decodes to its data |
| Hamming.DecodeGives | pegasus_fec.c:376-378 | decoding into a fresh block gives the received data bits corrected by the syndrome |
| Hamming.RoundTrip | pegasus_fec.c:275-380 | a source block encodes, and decodes back to its first 4 bits with no error or with one flipped bit |
| Fec.EncodeBlock | pegasus_fec.c:299-339 | an unknown scheme is fatal (switch default); None copies the source into the target and fails when it does not fit; any other failure is a range error; size and mark stay |
| Fec.DecodeBlock | pegasus_fec.c:398-438 | an unknown scheme is fatal (switch default); None copies the received block and fails when it does not fit; any other failure is a range error; size and mark stay |
| Fec.HammingDispatch | pegasus_fec.c:311-313 | Hamming74 selects the Hamming coder in both switches |
| Fec.CrcDispatch | pegasus_fec.c:314-334 | the cyclic and BCH schemes select the syndrome coder with their own constants, polynomial and table |
| Fec.EncodeAll | pegasus_fec.c:356-358 | the loop succeeds exactly when every block encodes, and block i of the result is target i encoded from source i; a failure is some block's failure |
| Fec.DecodeAll | pegasus_fec.c:455-457 | the loop succeeds exactly when every block decodes, and block i of the result is target i decoded from received block i; a failure is some block's failure |
| Fec.EncodeEach | pegasus_fec.c:349-358 | encoding into fresh targets of one width gives as many unmarked blocks of that width |
| Fec.DecodeEach | pegasus_fec.c:448-457 | decoding into fresh targets of one width gives as many unmarked blocks of that width |
| Fec.EncodeBlocks | pegasus_fec.c:341-361 | NULL gives count 0; an unknown scheme is fatal; otherwise the count is the input count, and the blocks are unmarked and of the scheme's output size (or the source size for None) |
| Fec.DecodeBlocks | pegasus_fec.c:440-461 | NULL gives count 0; an unknown scheme is fatal; otherwise the count is the input count, and the blocks are unmarked and of the scheme's input size (or the received size for None) |
| Fec.BlockRoundTrip | pegasus_fec.c:299-438 | for every scheme, a data block encodes into a fresh block, and that block decodes into a fresh block as the data |
| Fec.CopyRoundTrip | pegasus_fec.c:308-309 | without a code, a block is copied out and copied back unchanged |
| Fec.HammingBlockRoundTrip | pegasus_fec.c:311-312 | a Hamming block comes back whenever the arrays correct single errors |
| Fec.CrcBlockRoundTrip | pegasus_fec.c:314-333 | a cyclic or BCH block comes back: it encodes to a codeword, which decodes to the data |
| Fec.AllRestored | pegasus_fec.c:356-358 | every block of a uniform array makes the round trip on its own |
| Fec.EncodeAllRestored | pegasus_fec.c:356-358 | the encode loop over fresh targets succeeds, with blocks the decoder restores |
| Fec.EncodeBlocksOk | pegasus_fec.c:341-361 | `pgf_encode_blocks` returns the input count and the blocks of its loop |
| Fec.EncodeRestored | pegasus_fec.c:349-360 | the blocks `pgf_encode_blocks` creates encode to blocks the decoder restores |
| Fec.EncodeStage | pegasus_fec.c:341-361 | encoding a uniform array succeeds, with the input count, and gives blocks the decoder restores |
| Fec.DecodeAllRestored | pegasus_fec.c:455-457 | the decode loop over fresh targets gives back every source block, unmarked |
| Fec.DecodeStage | pegasus_fec.c:440-461 | decoding the restorable blocks gives the input count and every source block, unmarked |
| Fec.RoundTrip | pegasus_selftests.c:114-131 | with no channel errors, decoding the encoded array gives back every source block with the same count, for every scheme; this is the encode/decode stage of the FEC self-test |
| ModulationSchemes.FromId | pegasus_modulation.h:27-41 | identifiers 1..15 name a scheme, and the scheme's identifier is the one looked up |
| ModulationSchemes.IdsDistinct | pegasus_modulation.h:27-41 | the fifteen identifiers are pairwise distinct |
| ModulationSchemes.GetVolume | pegasus_modulation.c:284-344 | every scheme's volume is 1 << its block size (at least 2); an unknown identifier is fatal |
| ModulationSchemes.GetBlockSize | pegasus_modulation.c:346-406 | a block size between 1 and 10 bits; an unknown identifier is fatal |
| ModulationSchemes.Name | pegasus_modulation.c:222-282 | a name exactly for identifiers 1..15; any other identifier is fatal |
| ModulationSchemes.QamGridSizes | pegasus_modulation.h:115-119 | (bound+1)^2 equals the volume for 16-, 64-, 256- and 1024-QAM (bounds 3, 7, 15, 31); for 32-QAM, (5+1)^2 - 4 corners = 32 |
| ModulationSchemes.QamMinimumIsNormalization | pegasus_modulation.h:137-141 | every QAM early-exit minimum is that scheme's normalisation factor |
| ModulationSchemes.XskFlags | pegasus_modulation.c:121-175 | only QPSK and the higher PSKs are Gray coded, only ASK scales its points by the index, and a PSK's threshold is the sine of its angle step |
| Constellation.XskWalk | pegasus_modulation.c:44-52 | point i is at angle step i, scaled by i only when self-multiplying |
| Constellation.XskSlot | pegasus_modulation.c:46 | the slot of point i is within the table |
| Constellation.FillXsk | pegasus_modulation.c:34-53 | point i goes to slot gray(i) when Gray coded and to slot i otherwise; since Gray coding permutes the slots, every slot is written exactly once |
| Constellation.Ungray | pegasus_tools.c:90-93 | each n-bit code is the Gray code of exactly one n-bit value, the one returned |
| Constellation.Placed | pegasus_modulation.c:69-70 | the placed table has one slot per walk point |
| Constellation.PlacedAt | pegasus_modulation.c:69-70 | the n-th point of a Gray-coded walk is in slot gray(n) |
| Constellation.WriteNext | pegasus_modulation.c:69-71 | storing the next point keeps every earlier one, because distinct indices have distinct Gray codes |
| Constellation.WrittenIsPlaced | pegasus_modulation.c:55-78 | once every point is stored, the table is the Gray-coded placement of the walk |
| Constellation.SerpentineAt | pegasus_modulation.c:61-78 | the rectangular walk has (b+1)^2 points, and point n is in column n / (b+1), row n mod (b+1) |
| Constellation.WalkIndex | pegasus_modulation.c:61-78 | column c, row r of the walk is point c·(b+1) + r |
| Constellation.SerpentineCovers | pegasus_modulation.c:61-78 | every grid point (-b+2c, -b+2r) is visited: q ascends in even columns and descends in odd ones |
| Constellation.SerpentineInjective | pegasus_modulation.c:61-78 | no grid point is visited twice |
| Constellation.SerpentineCoords | pegasus_modulation.c:61-78 | every walk index lies in some column and row |
| Constellation.WalkPointInjective | pegasus_modulation.c:61-66 | distinct (column, row) pairs are distinct grid points |
| Constellation.SerpentineSteps | pegasus_modulation.c:61-78 | consecutive points are grid neighbours: q moves by 2 within a column, and a new column starts two to the right at the row where the previous one ended |
| Constellation.ColumnsAt | pegasus_modulation.c:61-78 | row r of an earlier column keeps its index in a longer prefix of the walk |
| Constellation.ColumnEnds | pegasus_modulation.c:72-74 | the test abs(q) > abs(q_end) ends a column exactly after its last row |
| Constellation.ColumnPoint | pegasus_modulation.c:61-70 | the loop's (i, q) in column c, row r is the walk's point there |
| Constellation.StorePoint | pegasus_modulation.c:69-71 | storing the next point at slot gray(index) extends the stored prefix of the walk by one |
| Constellation.FillColumn | pegasus_modulation.c:63-76 | one column of the rectangular fill stores the b+1 points of that column |
| Constellation.FillRectangleQam | pegasus_modulation.c:55-78 | the n-th point of the serpentine walk ends in slot gray(n) |
| Constellation.DropCorners | pegasus_modulation.c:94-97 | dropping points never lengthens the walk |
| Constellation.DropStep | pegasus_modulation.c:94-102 | one more point is kept exactly when it is not a corner |
| Constellation.DropPrefix | pegasus_modulation.c:94-102 | the points kept from a prefix of the walk are a prefix of the points kept from all of it |
| Constellation.DropCornersContents | pegasus_modulation.c:94-97 | no corner survives, and every other point of the walk does |
| Constellation.DropConcat | pegasus_modulation.c:94-102 | dropping corners distributes over joining two walks |
| Constellation.DropNone | pegasus_modulation.c:94-97 | a walk without corners is kept whole |
| Constellation.ColumnKept | pegasus_modulation.c:94-102 | the outer columns lose their two corners; inner columns lose nothing |
| Constellation.ColumnsKept | pegasus_modulation.c:94-102 | the first c columns lose 2 points, or all 4 once the last column is included |
| Constellation.CrossSize | pegasus_modulation.c:80-109 | the cross-shaped walk has exactly (b+1)^2 - 4 entries |
| Constellation.CrossStep | pegasus_modulation.c:94-102 | a corner is passed over without advancing the index; any other point is stored at slot gray(index) |
| Constellation.FillCrossColumn | pegasus_modulation.c:88-107 | one column of the cross fill stores its non-corner points in order |
| Constellation.FillCrossQam | pegasus_modulation.c:80-109 | the k-th non-corner point of the walk ends in slot gray(k) |
| Constellation.WalkFits | pegasus_modulation.c:111-220 | every scheme's walk has exactly as many points as its table has slots |
| Constellation.SerpentineFits | pegasus_modulation.c:187-217 | a rectangular QAM walk covers its (b+1)×(b+1) grid with one point per slot |
| Constellation.Table | pegasus_modulation.c:111-220 | each table has the scheme's volume of slots |
| Constellation.TableAt | pegasus_modulation.c:111-220 | the n-th point of a scheme's walk is in slot gray(n), or slot n without Gray coding |
| Constellation.InitTable | pegasus_modulation.c:111-220 | each scheme's table is filled by the filler and arguments `pgm_init_tables` uses for it |
| Constellation.XskLayout | pegasus_modulation.c:121-175 | an ASK, FSK or PSK table is the `pgm_fill_xsk` table for its flags |
| Constellation.GridLayout | pegasus_modulation.c:187-211 | a QAM table is its grid walk (serpentine or cross) placed in Gray order |
| Modulation.ModulateBlock | pegasus_modulation.c:408-470 | exactly table[block_to_ull(block)] of the scheme; an unknown scheme is fatal |
| Modulation.Modulate | pegasus_modulation.c:473-490 | NULL gives count 0; otherwise one point per block, each the block's table point, and the input count; an unknown scheme is fatal only when there is a block |
| Modulation.FindBlock | pegasus_modulation.c:492-516 | the search starts at index 0; it returns the first i >= 1 closer than the minimum, or else the first index of least distance (strict-less tie-break); the result is below the table size |
| Modulation.NearestUnique | pegasus_modulation.c:492-516 | that description determines the index uniquely |
| Modulation.ZeroNoise | pegasus_modulation.c:492-516 | if distinct points are at least `minimum` apart and d(p, p) = 0, then searching for table[k] yields k and nothing else |
| Modulation.IndexToBlock | pegasus_modulation.c:515 | the block keeps its size and mark and holds the found index |
| Modulation.FindBlocks | pegasus_modulation.c:677-678 | each signal gives a fresh unmarked block of the scheme's size holding the index the search picks for it |
| Modulation.Demodulate | pegasus_modulation.c:664-681 | NULL gives count 0; otherwise the input count and one scheme-size block per signal holding the searched index; an unknown scheme is fatal even with no signals |
| Modulation.ZeroNoiseRoundTrip | pegasus_selftests.c:183-198 | with separated table points and no noise, demodulating the modulated blocks gives back every block, unmarked and of the scheme's size |
| Random.XorShiftLeft | pegasus_random.c:70 | bit i of x ^ (x << k) is bit i of x xor bit i+k of x, or xor 0 where the shift brings in zeros |
| Random.XorShiftRight | pegasus_random.c:71 | bit i of x ^ (x >> k) is bit i of x xor bit i-k of x, or xor 0 where the shift brings in zeros |
| Random.GetU64 | pegasus_random.c:68-74 | the caller's slot takes the new state, which is also the value returned; no other slot changes |
| Random.ShiftLeft21Inverse | pegasus_random.c:70 | x ^= x << 21 is undone by y ^ y<<21 ^ y<<42 ^ y<<63 |
| Random.ShiftRight35Inverse | pegasus_random.c:71 | x ^= x >> 35 is its own inverse |
| Random.ShiftLeft4Inverse | pegasus_random.c:72 | x ^= x << 4 is undone by the shifts by 4, 8, 16 and 32 applied in turn |
| Random.StepInverse | pegasus_random.c:70-72 | `Random.Step`, the generator's three shift-xors, is undone by the inverse shift-xors applied in reverse order |
| Random.StepInjective | pegasus_random.c:70-72 | `Random.Step` maps distinct states to distinct states |
| Random.GetU64Undo | pegasus_random.c:68-74 | the drawn value determines the state it was drawn from |
| Random.ZeroFixedPoint | pegasus_random.c:70-72 | `Random.Step` fixes zero, and zero is the only state it maps to zero |
| Random.NonzeroStaysNonzero | pegasus_random.c:68-74 | a nonzero state never draws zero |
| Random.RepeatNonzero | pegasus_random.c:68-74 | repeating a map under which only zero comes from zero keeps a nonzero word nonzero |
| Random.IterateNonzero | pegasus_random.c:68-74 | a nonzero seed never reaches the zero state, however many words are drawn |
| Source.Name | pegasus_source.c:38-54 | a name for the random and predefined sources; any other source is fatal |
| Source.NamesDistinct | pegasus_source.h:29-33 | the two sources have different names |
| Source.Chunked | pegasus_source.c:86-104 | the layout has exactly `amount` bits |
| Source.ChunksBit | pegasus_source.c:90-98 | bit k of the whole chunks is bit k mod w of codeword k / w |
| Source.ChunkedBit | pegasus_source.c:86-104 | bit k of the layout is bit k mod w of codeword k / w, the trailing partial chunk included |
| Source.ChunkedWord | pegasus_source.c:90-98 | every whole chunk holds exactly its codeword |
| Source.PredefinedChunk | pegasus_source.c:86-98 | in predefined mode, whole chunk j holds codeword j mod volume as a big-endian block of the modulation's width |
| Source.SequentialChunk | pegasus_source.c:90-98 | chunk j of the sequential layout reads back as j mod 2^w |
| Source.NextIndex | pegasus_source.c:95-97 | incrementing current_index and resetting it at the volume keeps it equal to j mod volume |
| Source.Written | pegasus_source.c:90-93 | writing chunks keeps the buffer's size and mark |
| Source.ChunkWritten | pegasus_source.c:92-93 | copying codeword j after j chunks gives j+1 chunks |
| Source.LastChunkWritten | pegasus_source.c:99-103 | the trailing partial chunk holds the leading `extra_bits` bits of the next codeword, which completes the layout |
| Source.AllChunksWritten | pegasus_source.c:90-98 | when the chunks fill the buffer exactly, writing all of them completes the layout |
| Source.Encoded | pegasus_source.c:92 | the block becomes the value in its own width |
| Source.NextSequential | pegasus_source.c:90-98 | one loop pass writes codeword j mod volume into chunk j and advances current_index to (j+1) mod volume |
| Source.FillSequential | pegasus_source.c:86-104 | every bit of the buffer is written with the sequential layout |
| Source.LastSequential | pegasus_source.c:99-103 | the tail writes the leading bits of the next index and completes the layout |
| Source.GeneratePredefined | pegasus_source.c:82-105 | an unknown modulation is fatal; otherwise the buffer holds the sequential codewords of the scheme's width, wrapping at its volume |
| Source.RandomBits | pegasus_source.c:56-80 | the random layout has exactly `amount` bits |
| Source.WordBlock | pegasus_source.c:66-68 | a drawn word written into a fresh 64-bit block is that block's bits |
| Source.DrawWord | pegasus_source.c:66-68 | drawing from slot 0 gives the next word of its sequence and advances only slot 0 |
| Source.NextRandom | pegasus_source.c:64-71 | one loop pass writes the (j+1)-th drawn word into chunk j |
| Source.LastRandom | pegasus_source.c:72-79 | a partial tail draws one more word and takes its leading bits; without a tail nothing is drawn |
| Source.FillWords | pegasus_source.c:59-71 | one word is drawn from slot 0 per whole 64-bit chunk, each into its chunk |
| Source.GenerateRandom | pegasus_source.c:56-80 | the buffer holds the words drawn from slot 0, ceil(amount/64) of them, and slot 0 has advanced that many steps |
| Source.Generate | pegasus_source.c:107-127 | a fresh zeroed buffer of `amount` bits, filled by the chosen source; the count is `amount`; an unknown source leaves it zero without panic; only the predefined source can fail, for an unknown modulation |
| SelfTests.FlattenUnmarked | pegasus_tools.c:75-86 | the copy loop reads only the bits, so clearing the marks does not change it |
| SelfTests.JoinedFirstBlock | pegasus_selftests.c:132-136 | joining Split(s, t) into blocks of |s| bits puts s, whole, in the first block |
| SelfTests.JoinedBerZero | pegasus_selftests.c:132-144 | decoded blocks that join into the stream of Split(s, t) give a BER of exactly 0 against s |
| SelfTests.SplitStage | pegasus_selftests.c:105-111 | the single generated block splits into a nonzero number of blocks of the input size, or of |s| bits for size 0 |
| SelfTests.FecStage | pegasus_selftests.c:114-131 | encoding then decoding keeps the block count and gives back the blocks unmarked |
| SelfTests.ModulationStage | pegasus_selftests.c:183-198 | modulating then demodulating without noise keeps the count and gives back the blocks unmarked, for separated table points |
| SelfTests.JoinStage | pegasus_selftests.c:132-144 | the join yields at least one block and `pgt_get_ber` returns 0 |
| SelfTests.FecTest | pegasus_selftests.c:86-153 | for every FEC scheme and nonempty sequence, no stage count is zero (pgp_nodata is never reached), the coding stages keep the count, and the BER is 0 |
| SelfTests.ModulatorTest | pegasus_selftests.c:155-220 | for every known modulation with separated table points, no stage count is zero, the middle stages keep the count, and the BER is 0 |

## Findings

| source | as written | input that shows it | evidently intended | confidence | as-written member | corrected member |
|---|---|---|---|---|---|---|
| pegasus_tools.c:152-153 | under GCC, `__builtin_popcount` takes an `unsigned int`, so the 64-bit argument is truncated to its low 32 bits | 2^32 (one bit set) gives 0 | count the set bits of all 64 bits, as the portable branch does | high for the discrepancy; it is harmless here because every caller passes a value below 2^15 (not executed) | Tools.PopcountTruncates | Tools.Popcount |

The model uses the corrected count, `Tools.Popcount`. The contract of `Tools.PopcountAsWritten` proves that the GCC branch agrees with it for every argument the FEC tables pass.

The Cyclic(8,5) code has a design limitation, though it is not a coding error:

- The code uses x^3 + x + 1 over 8 bits.
- Over those 8 bits, x^7 ≡ 1, so the single errors in bit 0 and in bit 7 share syndrome 1.
- In the descending loop the last write wins, so the table keeps pattern 1.
- As a result, a single flipped data bit 0 is not corrected (`Crc.Cyclic85MissesBitZero`), even though the scheme's power is 1.

The model reproduces this behaviour as written.

## Left out

- Channel noise (pegasus_channel.c, `__pgr_get_lf`, `__pgr_get_gauss`) is floating point and random sampling, so it is not modelled.
- `pgr_init_seed` is clock-based seeding. The seed array is a parameter.
- The cos/sin coordinates of ASK/FSK/PSK points, `pgt_distance` (sqrt/pow) and `pgt_dbs_to_times` are floating point. Points are symbolic, and the distance and threshold values are function arguments.
- OpenMP sections, parallel loops and atomic counters are left out. Each element is computed independently, so only the sequential meaning is modelled.
  - Under OpenMP, the random source draws from per-thread slots. Only the non-OpenMP draw from slot 0 is modelled.
- `malloc`/`free` lifetimes and `pgp_null`/`pgp_malloc` on allocation failure are left out: allocation is assumed to succeed.
- `pgb_show_blocks` printing, the command-line driver (pegasus.c), the panic backtraces (pegasus_panic.c) and the self-test printing (pegasus_selftests.c) are I/O. The self-tests' expected BER of 0 is modelled as `SelfTests.FecTest` and `SelfTests.ModulatorTest`. The generated sequence is a parameter, and the RNG self-test is left out with the rest of the random sampling.
- The 4096-PSK and 4096-QAM tables are used in pegasus_modulation.c but not defined in pegasus_modulation.h. They are not modelled.
- The `*_to_string` tables are modelled only as far as "a name for each known identifier, distinct names, fatal for an unknown one". The modulation scheme names are not checked for distinctness.
- The contents of `PGF_HAMMING74_FEC_BITS` and `PGF_HAMMING74_SYNDROME_BITS` are not part of this model: the arrays are parameters.
- Tools.Quotient, Tools.Ber, Tools.Ser: the ratio is the exact quotient of the two counts. The C code divides in double precision, so the IEEE-754 rounding is not modelled, and neither is the loss of precision for counts above 2^53. The bounds, the NaN case and the zero case hold either way.
- `pgb_destroy_block` and `pgb_destroy_blocks` only free memory, so they are not modelled.
- Modulation.FindBlock: it is stated over an abstract real-valued distance. The IEEE-754 rounding of `pgt_distance` is not modelled.
- Rechunk.BlocksToBlocks: it requires every source block to have block 0's size. The C code reads only the first `source_block_size` bits of each block (pegasus_tools.c:61 and :77-83), so a longer later block would also be accepted. Every caller passes blocks from `pgb_create_blocks`, which all have one size.
- SelfTests.ModulatorTest: like Modulation.ZeroNoiseRoundTrip, it assumes separated table points.
- Modulation.ZeroNoiseRoundTrip: it assumes that the table points are separated by at least the scheme's minimum under the distance argument. With the floating-point coordinates left abstract, that separation cannot be derived.
- Hamming.CorrectsOneError: it holds for every pair of arrays that corrects single errors, rather than for the unseen arrays of the source.
