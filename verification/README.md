# A verified model of the byte-level core of dumpelf and convert-ng

This project models the parts of the repository that compute on bytes, and proves what they compute:

- the codec pairs of `convert-ng`: base58, base85 (Ascii85), base64, binary digits, decimal, Vigenère;
- the CRC family: CRC-16 and CRC-32 from tables, a CRC-16 without a table, the append/check pair;
- the cursor `find_t`: reads, moves, typed writes, and the tag/length chunks on top of it;
- the relocation writer, which patches a section through the cursor;
- the hash-table histograms: chain lengths, counts, coverage.

Each loop of the source is a method over the same buffers, proved equal to a specification function.
What the source promises is then proved about those functions, for all inputs.

| file | content |
|---|---|
| `Gf2.dfy` | polynomials over GF(2) as sets of exponents; the remainder register; burst errors |
| `Words.dfy` | 64-bit words as such polynomials |
| `CrcTables.dfy` | both tables with all their constants, proved equal to eight shift/xor steps |
| `Crc.dfy` | `src/crc.c` |
| `Radix.dfy` | numbers and their digits in any radix; multiply-and-add digit by digit |
| `MemFind.dfy` | `src/memfind.c`: the value `State`, the functions on it, and the class `Find` that refines them |
| `CursorLaws.dfy` | what reads, peeks, steps, moves and stores mean to the bytes and to one another |
| `CursorRuns.dfy` | whole runs of cursor calls |
| `Chunks.dfy`, `ChunkLimits.dfy` | the chunk stream, and how full the cursor may get |
| `Codec.dfy` | the cursor every codec returns |
| `DigitRuns.dfy` | what the binary and the decimal decoder have in common |
| `Base58.dfy`, `Base64.dfy`, `Base85.dfy`, `BinDigits.dfy`, `DecDigits.dfy`, `Vigenere.dfy` | the codecs |
| `Relocs.dfy` | `src/elfcode-memfind.c` |
| `RelocLaws.dfy` | which number each type of relocation leaves where |
| `Histogram.dfy` | the histogram functions of `src/dumpelf.c` |
| `HistogramLaws.dfy` | chains as stretches and paths, counts as multiplicities |

Conventions: a little-endian host with 64-bit `size_t`, `uint64_t` and `uint_fast32_t`.  Bytes are
integers below 256, words integers below 2^32 or 2^64, and every place where the source can wrap around
is written as a remainder; the CRCs work on bit vectors.  Allocation always succeeds and yields zeroed
memory, as `fxalloc`, `xmalloc` and `MALLOCA` do.  A null or empty source yields a null cursor.  The
payload of an encoder is `item[..epos]`, without the terminating zero.

Findings, each proved exactly:

- `base58_decode` undoes `base58_encode` exactly on the strings with a byte that is not zero: for zeros
  only the encoder writes one `1` too many (`Base58.DecodeEncode`).
- The two CRC-16 implementations agree exactly for the seeds other than zero: with seed zero
  `csc_compute_crc` does not look at the data (`Crc.ImplementationsAgree`), so its check then accepts
  any data followed by two zeros (`Crc.SeedZeroChecksNothing`).
- A position can wrap around 2^64 and a block still be handed out (`CursorRuns.WrappedBlock`); a block
  that is handed out lies inside the buffer exactly if that did not happen
  (`CursorRuns.BlockInsideIffNoWrap`).
- `dec_put` prints what `decb` has read exactly if the digits do not start with a zero and their number
  fits 32 bits (`DecDigits.ParsePrint`): 4294967296 is printed as nothing (`DecDigits.ParsePrintFails`).
- Chunks that fill the cursor to the last byte read back exactly if the last one is empty, because
  `fsetp` refuses the last position (`ChunkLimits.RoundTripExactly`).

## Model

| member | source | states |
|---|---|---|
| CrcTables.Table16IsOctet | src/crc.c:4-31 | Every entry of the CRC-16 table is eight reflected shift/xor steps with 0x8408 on its index |
| CrcTables.Table32IsOctet | src/crc.c:33-78 | Every entry of the CRC-32 table is eight reflected shift/xor steps with 0xEDB88320 on its index |
| CrcTables.TableIsCscByte | src/crc.c:142-147 | The table-free transform of a byte is the entry of the CRC-16 table, because both are linear |
| Crc.Crc16Update | src/crc.c:102-104 | One table step keeps 16 bits and equals feeding the byte to the bitwise register (Appendix C of RFC 1662) |
| Crc.Crc16Calculate | src/crc.c:106-113 | The table loop computes the bitwise register over the whole message, for every seed |
| Crc.Crc32Update | src/crc.c:115-117 | One table step on a 64-bit register equals feeding the low byte to the bitwise register (section 8 of RFC 1952) |
| Crc.Crc32Calculate | src/crc.c:119-127 | The table loop computes the bitwise register, finally xored with the seed, for every 64-bit seed |
| Crc.CscUpdateCrc | src/crc.c:142-147 | The table-free step, with its truncations, equals the bitwise step |
| Crc.CscComputeCrc | src/crc.c:149-163 | The register for a nonzero seed, untouched for seed zero, complemented for 0xFFFF |
| Crc.ImplementationsAgree | src/crc.c:102-163 | The table-free and the table-driven CRC-16 agree on all messages if and only if the seed is not zero |
| Crc.CscComputeAppendCrc | src/crc.c:165-169 | The two check bytes are stored low byte first and nothing else changes |
| Crc.CscCheckCrc | src/crc.c:129-140 | True exactly for at least one data byte followed by the two bytes of its CRC |
| Crc.AppendedIsAccepted | src/crc.c:129-169 | What was appended is accepted, for any seed, if and only if the data is not empty; immediate from the two contracts above |
| Crc.AcceptsIsResidue | src/crc.c:129-163 | For nonzero seeds a frame is accepted if and only if the register over the whole frame ends at the residue: 0, or 0xF0B8 for seed 0xFFFF |
| Crc.SeedZeroChecksNothing | src/crc.c:129-163 | With seed zero a frame is accepted if and only if its last two bytes are zero |
| Crc.RegisterIsClocks | src/crc.c:102-127 | Eight steps a byte are the remainder register of polynomial division, clocked once a message bit |
| Crc.WindowIsBurst | src/crc.c:102-127 | Messages that differ only inside n consecutive bytes differ by a burst of 8n bits |
| Crc.Crc16DetectsBurst | src/crc.c:102-113 | Different messages of equal length that differ inside a burst of 16 bits get different CRC-16 values |
| Crc.Crc32DetectsBurst | src/crc.c:115-127 | Different messages of equal length that differ inside a burst of 32 bits get different CRC-32 values |
| Crc.Crc16Collides | src/crc.c:102-113 | Within 17 bits two messages have the same CRC-16 if and only if they are equal or differ by exactly the generator polynomial, for every seed |
| Crc.Crc32Collides | src/crc.c:115-127 | Likewise within 33 bits for the CRC-32 |
| Crc.Crc16DetectsOdd | src/crc.c:102-113 | Messages of equal length that differ in an odd number of bits get different CRC-16 values |
| Crc.SeedDoesNotMatter | src/crc.c:102-127 | Whether two messages of equal length collide is the same for every seed |
| Crc.Crc16MissesLongerBurst | src/crc.c:102-113 | There are such collisions for every seed, so the bound of 16 bits is sharp |
| Crc.Crc32MissesLongerBurst | src/crc.c:115-127 | There are such collisions for every seed, so the bound of 32 bits is sharp |
| Crc.CheckRejectsBurst | src/crc.c:129-140 | With a nonzero seed no accepted frame stays accepted when a burst of at most 16 bits alters it |
| Crc.CheckRejectsOdd | src/crc.c:129-140 | Nor when an odd number of its bits is altered |
| Crc.CscWritten | src/crc.c:149-163 | The seeds by number: 0xFFFF complements, zero gives zero, any other seed gives the register of polynomial 0x8408 |
| Crc.ResidueWritten | src/crc.c:129-163 | For the seed 0xFFFF a frame is accepted if and only if its register ends at 0xF0B8, for other nonzero seeds at zero |
| Crc.CheckValues | src/crc.c:106-163 | The published check values over "123456789": 0x906E for the complemented CRC-16, 0xCBF43926 for the CRC-32 |
| Radix.MulAddDigits | src/encode.c:518-531 | One carry pass over the digits of v, with the carry appended, leaves exactly the digits of v * m + c, without a zero on top |
| Radix.DigitsOfBig | src/encode.c:518-541 | Digits without a leading zero are determined by the number they spell |
| Base58.CarryBound | src/decode.c:775-779 | The carry that enters a step stays below 256 when encoding and below 58 when decoding |
| Base58.CarryPass | src/encode.c:521-525 | The inner loop, for both directions: afterwards the buffer and the digits of the carry are the multiplied number |
| Base58.CarryTail | src/encode.c:527-530 | The loop after it appends the digits of the carry |
| Base58.RadixDigits | src/encode.c:517-531 | After every byte the scratch buffer holds the base-58 digits of the big-endian number read so far |
| Base58.RadixBytes | src/decode.c:773-785 | After every symbol the buffer holds the base-256 digits of the number read so far |
| Base58.ReverseInPlace | src/decode.c:791-795 | The swaps from the end inwards reverse the buffer, for even and odd sizes |
| Base58.Encode | src/encode.c:508-555 | One '1' for each leading zero byte, then the base-58 digits of the number, most significant first |
| Base58.Decode | src/decode.c:764-806 | One zero byte for each leading '1', then the bytes of the number; symbols outside the alphabet count as -1 |
| Base58.DecodeEncode | src/encode.c:513-541 | Decoding the encoded text gives the input back if and only if the input has a byte that is not zero |
| Base58.EncodeDecode | src/decode.c:773-795 | Encoding the decoded bytes gives the text back if and only if the text, all symbols valid, is not all '1' |
| Base58.Alphabet | src/decode.c:19-35 | The index table and the alphabet, spelt as one string, are inverse: a character has place p exactly if it stands there, -1 exactly if it is absent |
| Base58.TextCharacters | src/encode.c:508-555 | The text of a string that is not all zeros: characters of that alphabet whose places spell in radix 58 the number the bytes spell in radix 256, after as many "1" as there are zero bytes in front |
| Base58.BytesSpelt | src/decode.c:764-806 | The bytes of a valid text that is not all "1" spell its number, after as many zero bytes as there are "1" in front |
| Base58.OneMoreSymbol | src/decode.c:773-785 | For any text, symbols outside the alphabet included: one character more multiplies the decoded number by 58 and adds its place or -1; a number that would be negative becomes 255 |
| Base58.ZeroText | src/encode.c:513-541 | A string of n zero bytes becomes n + 1 characters "1" |
| Base58.ZeroBytes | src/decode.c:773-795 | A text of n characters "1" becomes n + 1 zero bytes |
| Base85.GuardsExact | src/decode.c:883-895 | The two tests before the last digit is added stop a group if and only if its value exceeds 2^32 - 1 |
| Base85.ReadGroup | src/decode.c:865-919 | A group is read if and only if its characters are digits and its value fits 32 bits; missing digits count as 84 |
| Base85.EncodeGroup | src/encode.c:611-640 | One turn of the encoder appends the text of one group |
| Base85.DecodeGroup | src/decode.c:857-931 | One turn of the decoder appends the bytes of one group, or stops if it cannot be read |
| Base85.Encode | src/encode.c:602-654 | The text of section 7.4.3 of ISO 32000-1, which `Base85.ZeroText`, `Base85.FullText` and `Base85.LastText` spell out character by character |
| Base85.Decode | src/decode.c:846-943 | All bytes before the end, or before the first group that cannot be read |
| Base85.GroupRoundTrip | src/encode.c:616-640 | A group of one to four bytes comes back, no guard fires: padding with 84 changes only bytes that are dropped |
| Base85.RoundTrip | src/encode.c:611-643 | Decoding the encoded text gives the input back, and the decoder reads the whole text, for every input |
| Base85.PartialGroup | src/decode.c:898-931 | A last group is what the encoder writes for its bytes if and only if its value exceeds a multiple of the span of the dropped bytes by less than the span of the dropped digits |
| Base85.EncodeDecode | src/encode.c:611-643 | Encoding the decoded bytes gives a text back if and only if it is canonical: all groups readable, four zeros written as 'z', the last group as small as it can be |
| Base85.ZeroText | src/encode.c:628-629 | Four zero bytes anywhere on a group boundary become character 122, "z", and the rest is encoded as by itself |
| Base85.ZeroBytes | src/decode.c:861-864 | Character 122 becomes four zero bytes, and the rest is decoded as by itself |
| Base85.FullText | src/encode.c:611-640 | Four bytes that are not all zero become five characters from 33 on, each digit given as a quotient and remainder of the big-endian number |
| Base85.LastText | src/encode.c:616-640 | One, two or three bytes at the end become the first two, three or four characters of their zero-filled group |
| Base85.TextCharacters | src/encode.c:611-640 | Every character is 122 or between 33 and 117, and 122 occurs if and only if an aligned group is four zeros |
| Base85.GroupDecoded | src/decode.c:865-931 | A group of characters between 33 and 117, padded with 117, whose big-endian base-85 number is below 2^32 becomes the leading bytes of that number; any other group ends the decoding |
| Base64.TextSize | src/encode.c:559-594 | The text has (n + 2) / 3 * 4 characters and fits the buffer of n * 4 / 3 + 4 with its terminator |
| Base64.AppendWhole | src/encode.c:569-576 | The four symbols of three bytes are the four 6-bit values of the 24-bit group |
| Base64.AppendRest | src/encode.c:579-589 | One or two bytes left: zero bits in the last symbol, padding up to four characters |
| Base64.Encode | src/encode.c:557-600 | The text of section 4 of RFC 4648, which `Base64.TextCharacters` spells out, in the buffer the source allocates |
| Base64.Search | src/decode.c:819-820 | The linear search finds the place in the alphabet, or 64 |
| Base64.Decode | src/decode.c:808-840 | The bytes of all whole groups, modulo 256, less one for each place 64 in their second halves |
| Base64.RoundTrip | src/decode.c:816-834 | Decoding gives the input back, also when up to three characters, such as the terminator, follow the text |
| Base64.EncodeDecode | src/encode.c:566-589 | Encoding the decoded bytes gives a text back if and only if it is canonical: whole groups of the alphabet, padded only at the end, unused bits zero |
| Base64.Alphabet | src/decode.c:37-42 | The place the search finds is where a character stands in the alphabet, spelt as one string, and 64 if and only if it is absent |
| Base64.TextCharacters | src/encode.c:565-589 | Character by character: the alphabet at the k-th group of six bits of the input, then character 61, "=", up to a multiple of four |
| Base64.FourDecoded | src/decode.c:817-832 | Four characters decoded in terms of their places, modulo 256, a place of 64 dropping its byte |
| BinDigits.BitsValue | src/encode.c:99-106 | The eight digits of a byte spell its value |
| BinDigits.Bin8Encode | src/encode.c:82-116 | Eight digits a byte, separators between all bytes, in a buffer of 10 * n + 1 |
| BinDigits.BinGroupsEncode | src/encode.c:118-202 | Eight digits a byte, separators between groups of two or four bytes, in a buffer of 10 * n + 1 |
| BinDigits.DecodeDigit | src/decode.c:527-536 | One character: a digit starts a byte after every eight digits of a run, else it is shifted into the last byte |
| BinDigits.BinDecode | src/decode.c:517-547 | Every run of digits is cut into groups of eight, and each group, the last one included, makes a byte |
| DigitRuns.FirstGroup | src/decode.c:526-567 | A group of digits in front of other characters makes one byte, modulo 256 |
| DigitRuns.SkipCharacter | src/decode.c:526-567 | A character that is not a digit makes no byte; the decoding goes on behind it |
| DigitRuns.TextHasRoom | src/decode.c:521-567 | Bytes and terminator fit a buffer of the size of the text, unless the text is one digit alone |
| BinDigits.RoundTrip | src/decode.c:526-541 | Decoding gives the input back for any grouping and any length |
| BinDigits.TextCharacters | src/encode.c:90-107 | Character by character, for any grouping: the bits of each byte, highest first, as 48 or 49, and 44, 32 before each byte that starts a group |
| DigitRuns.DigitCharacters | src/objutils.c:159-180 | Binary digits are the characters 48 and 49, decimal digits 48 to 57, each worth its place |
| DecDigits.DecPut | src/encode.c:30-80 | The decimal numeral of a 32-bit value is appended: no leading zero, nothing for zero |
| DecDigits.DecB | src/objutils.c:295-306 | The number spelled by the digits a text starts with, modulo 2^64 |
| DecDigits.PrintParse | src/objutils.c:295-306 | Reading back what was printed gives the value, whatever follows; the numeral is empty for zero only and has no leading zero |
| DecDigits.ParsePrint | src/encode.c:30-80 | Printing, as a 32-bit value, what was read modulo 2^64 gives the digits back if and only if they do not start with a zero and their number is below 2^32 |
| DecDigits.ParsePrintFails | src/encode.c:30-80 | The first number too large, 4294967296, is printed as nothing |
| DecDigits.Dec8Encode | src/encode.c:204-231 | The numerals of all bytes with separators between them, in a buffer of 5 * n + 1 |
| DecDigits.DecodeDigit | src/decode.c:559-567 | One character: a digit starts a byte after anything else, or extends it modulo 256 |
| DecDigits.Dec8Decode | src/decode.c:549-578 | Every run of digits makes one byte; the size leaves the terminator out |
| DecDigits.RoundTrip | src/decode.c:558-573 | Decoding drops the zero bytes, so it gives the input back if and only if there is none |
| DecDigits.NumeralDigits | src/encode.c:30-80 | The numeral of w * 10 + d is that of w followed by character 48 + d; that of zero is empty |
| DecDigits.TextSnoc | src/encode.c:213-220 | One more byte appends 44, 32 and its numeral, the first byte only its numeral |
| Vigenere.Inverse | src/decode.c:964-972 | Either rotation of a character undoes the other, and both keep letters letters and their case |
| Vigenere.KeyStep | src/encode.c:665-678 | The key index is the number of letters before the place, modulo the size of the key |
| Vigenere.Encode | src/encode.c:656-689 | Each letter rotated by the letter of the key at its place, anything else kept |
| Vigenere.Decode | src/decode.c:955-988 | The same backwards, with the C remainder of negative numbers |
| Vigenere.DecodeEncode | src/decode.c:964-977 | Decoding undoes encoding for every text and every nonempty key |
| Vigenere.EncodeDecode | src/encode.c:665-678 | Encoding undoes decoding for every text and every nonempty key |
| Vigenere.LetterByLetter | src/encode.c:665-678 | A letter after n others is rotated within its case by the letter at place n mod |key| of the key, forwards by the encoder and backwards by the decoder; nothing else changes |
| MemFind.Find.constructor | src/memfind.c:669-702 | A zeroed buffer of its own, positioned at the start |
| MemFind.Find.FIsEof | src/memfind.c:8-15 | End of file: no buffer, or the position beyond the end |
| MemFind.Find.FGetP | src/memfind.c:141-156 | The next bytes, and the buffer let go of when the end is reached or passed |
| MemFind.Find.FPeekP | src/memfind.c:196-207 | The same without moving |
| MemFind.Find.FGetU | src/memfind.c:243-261 | The unsigned value of the next 1, 2, 4 or 8 bytes in the order of the cursor, 0 past the end or without a buffer |
| MemFind.Find.FPeekU | src/memfind.c:323-341 | The same without moving |
| MemFind.Find.FStep | src/memfind.c:602-616 | Steps over bytes; out of scope the buffer is let go of |
| MemFind.Find.FNext | src/memfind.c:587-600 | Steps over one block |
| MemFind.Find.FMove | src/memfind.c:642-653 | Moves to a position, which is set even out of scope |
| MemFind.Find.FReset | src/memfind.c:618-630 | Back to the start with the whole size as scope |
| MemFind.Find.FShrink | src/memfind.c:632-640 | What has been written becomes the scope |
| MemFind.Find.FSetU8 | src/memfind.c:428-440 | One guarded byte store |
| MemFind.Find.FSetU16 | src/memfind.c:442-458 | Two guarded byte stores, low byte first; success is that of the last |
| MemFind.Find.FSetU32 | src/memfind.c:460-484 | Four guarded byte stores, low byte first; success is that of the last |
| MemFind.Find.FSetU64 | src/memfind.c:486-526 | Eight guarded byte stores, low byte first; success is that of the last |
| MemFind.Find.FSetP | src/memfind.c:158-170 | A block stored whole if it ends before the end, else nothing |
| MemFind.Find.FSetU8ByOffset | src/memfind.c:539-549 | The store at a position |
| MemFind.Find.FSetU16ByOffset | src/memfind.c:551-561 | The store at a position |
| MemFind.Find.FSetU32ByOffset | src/memfind.c:563-573 | The store at a position |
| MemFind.Find.FSetU64ByOffset | src/memfind.c:575-585 | The store at a position |
| MemFind.Find.FSetChunk | src/memfind.c:528-537 | The tag, and only if that was stored whole the length |
| MemFind.Find.FGetChunk | src/memfind.c:277-287 | The tag, and the length unless the tag is zero |
| CursorLaws.ReadValue | src/memfind.c:243-261 | A typed read or peek that is handed out yields its bytes as a big-endian number on a big-endian cursor, else as a little-endian one |
| CursorLaws.NoReadNoValue | src/memfind.c:243-261 | A typed read or peek that is not handed out yields zero |
| CursorLaws.PeekIsRead | src/memfind.c:196-207 | A peek hands out what a read would and lets go of the buffer when a read would, but keeps the position |
| CursorLaws.StepIsRead | src/memfind.c:602-616 | A step leaves the cursor exactly as a read of as many bytes does |
| CursorLaws.StepsAdd | src/memfind.c:602-616 | Two steps whose first stays in scope are one step of the sum |
| CursorLaws.MoveThenRead | src/memfind.c:642-653 | After a move to a position in scope the next read that fits starts there, and where the cursor was before plays no part |
| CursorLaws.MoveAway | src/memfind.c:642-653 | A move beyond the end sets the position, lets go of the buffer and hands out nothing |
| CursorLaws.ResetThenRead | src/memfind.c:618-630 | After a reset a read starts at zero and is handed out if and only if it is no longer than the buffer |
| CursorLaws.ShrinkThenRead | src/memfind.c:632-640 | After a shrink a read starts at zero and is handed out if and only if it is no longer than what had been written |
| CursorLaws.StoreValue | src/memfind.c:428-526 | A typed store that fits leaves its value, cut to its width, as a little-endian number, in either byte order; other bytes keep |
| CursorLaws.StoreSucceeds | src/memfind.c:428-526 | A typed store reports success if and only if its last byte is in scope |
| CursorLaws.ChunkLayout | src/memfind.c:528-537 | A chunk in the buffer is four bytes of tag, four bytes of length, both little-endian, and the payload |
| CursorLaws.ChunkStored | src/memfind.c:528-537 | A chunk header is stored whole if and only if its eight bytes fit, and then holds the tag and the length cut to 32 bits |
| CursorLaws.ChunkRead | src/memfind.c:277-287 | Eight bytes in scope are a tag and a length in the order of the cursor, the length zero after a tag of zero |
| CursorRuns.BlockInsideIffNoWrap | src/memfind.c:141-156 | A block that is handed out lies inside the scope if and only if the position did not wrap around |
| CursorRuns.WrappedBlock | src/memfind.c:141-156 | A concrete cursor where the position wraps around and a block is handed out that ends outside |
| CursorRuns.BlocksInside | src/memfind.c:141-207 | Over any run of calls that does not wrap around, every block lies inside the scope and the buffer |
| CursorRuns.EndIsPermanent | src/memfind.c:8-15 | Once the buffer is let go of, end of file is permanent and every read yields 0 or null |
| CursorRuns.ReadsAreAdjacent | src/memfind.c:141-156 | The k-th of consecutive reads starts where the first k ended, and is handed out if and only if it still fits |
| Chunks.PutAllStores | src/memfind.c:460-484 | Guarded byte stores that fit the scope place all their bytes |
| Chunks.WriteAllStores | src/memfind.c:528-537 | Writing chunks that leave one byte spare places exactly their serial form |
| Chunks.ReadReads | src/memfind.c:277-287 | Reading at a serial form returns the chunk and moves past it; past the last one the buffer is let go of |
| Chunks.RoundTrip | src/memfind.c:528-640 | Writing chunks that leave a byte spare, shrinking and reading n of them returns the first n in order, and the end is reached if and only if that was all |
| ChunkLimits.ReadsNeed | src/memfind.c:141-287 | Chunks that read back take no more bytes than there are, but for the length of an empty last one |
| ChunkLimits.RoundTripExactly | src/memfind.c:158-287 | The trip succeeds if and only if the chunks leave a byte spare, or the last one is empty and at most its length is cut off |
| Relocs.ApplyEntry | src/elfcode-memfind.c:29-63 | One relocation: the groups of types tried in order, one store at most, none for a value zero |
| Relocs.ApplySection | src/elfcode-memfind.c:16-65 | The first size / entsize relocations of a section, in order |
| Relocs.EcApplyRelocs | src/elfcode-memfind.c:5-81 | The stores of all RELA sections of the index, then the cursor is reset |
| Relocs.RunBytes | src/elfcode-memfind.c:24-65 | Every byte in scope ends as the last store that covers it left it; size and end stay |
| Relocs.Frame | src/elfcode-memfind.c:24-65 | A byte that no store covers, or past the end, is unchanged |
| Relocs.LandsWhole | src/elfcode-memfind.c:24-65 | Among disjoint stores each target in scope holds the bytes of its value, least significant first |
| Relocs.OrderIndependent | src/elfcode-memfind.c:24-65 | Disjoint stores leave the same cursor in any order |
| Relocs.EntriesInAnyOrder | src/elfcode-memfind.c:26-65 | The relocations of a section, if disjoint, may be listed in any order |
| Relocs.CommuteExactly | src/elfcode-memfind.c:24-65 | Two stores may be swapped if and only if they agree on every byte in scope both cover |
| Relocs.AppliedFile | src/elfcode-memfind.c:5-81 | For a whole file: size and uncovered bytes unchanged, and if the relocations are disjoint every target in scope reads back as its value, cut to its width |
| RelocLaws.OneRelocation | src/elfcode-memfind.c:29-63 | One relocation, group by group: sym32 and sym64 leave the symbol value in 4 or 8 bytes, shex8 to shex64 the addend cut to 1, 2, 4 or 8 bytes; an unknown type, a missing symbol or a value of zero changes nothing, and no other byte changes |
| RelocLaws.FilePatched | src/elfcode-memfind.c:5-81 | For a whole file the same of every relocation among the first size / entsize of a RELA section of the index, if targets are disjoint; a byte out of their reach is unchanged in any case |
| Histogram.CountLengths | src/dumpelf.c:1567-1571 | Every length is a valid index of the counting array, which ends as the number of chains of each length |
| Histogram.DumpGnuHash0 | src/dumpelf.c:1564-1604 | One row for each length: how many chains have it, and the symbols in chains up to it |
| Histogram.NextLength | src/dumpelf.c:1587-1589 | The running sum of length times count is the number of symbols in chains up to that length |
| Histogram.Conservation | src/dumpelf.c:1567-1598 | The counts sum to the number of buckets, the last running sum is the number of symbols, and the longest length occurs |
| Histogram.WalkChain | src/dumpelf.c:1662-1667 | The walk of one chain adds its length to the size, the total and the maximum |
| Histogram.DumpHash32 | src/dumpelf.c:1649-1674 | The table of the chain lengths of a SysV table, nothing for a single bucket |
| Histogram.ChainShort | src/dumpelf.c:1662-1667 | A chain that ends visits no symbol twice and is shorter than the table |
| Histogram.EndsIffAcyclic | src/dumpelf.c:1662-1667 | The walk ends if and only if it visits no symbol twice |
| Histogram.CountersFit | src/dumpelf.c:1657-1668 | No chain length overflows 32 bits and no total 64 |
| Histogram.WalkGnuChain | src/dumpelf.c:1623-1627 | The do-while walk of one chain, up to and with the word whose low bit is set |
| Histogram.GnuStretch | src/dumpelf.c:1623-1627 | A GNU chain is a stretch of the table that ends with its first odd word |
| Histogram.DumpGnuHash1 | src/dumpelf.c:1606-1647 | The table of the chain lengths of a GNU table, nothing for a single bucket or a symbol offset of zero |
| Histogram.GnuCountersFit | src/dumpelf.c:1619-1629 | No chain length overflows 32 bits and no total 64 |
| HistogramLaws.FileWord | src/elfcode-endian.c:11-13 | Four bytes of the file give their big-endian number when converted for a big-endian file, else their little-endian one |
| HistogramLaws.GnuChain | src/dumpelf.c:1623-1627 | The chain of a bucket has n words if and only if, counted from the symbol less the offset (modulo 2^32), the n-th word is the first odd one |
| HistogramLaws.GnuTable | src/dumpelf.c:1619-1629 | The measured lengths are zero for a bucket of zero and otherwise exactly those stretches |
| HistogramLaws.ChainIsWalk | src/dumpelf.c:1661-1667 | A SysV chain has length n if and only if there is a path of n links through the table that leaves it at the end |
| HistogramLaws.SysVTable | src/dumpelf.c:1660-1668 | The measured lengths are exactly those of the paths from the buckets |
| HistogramLaws.CountIsMultiplicity | src/dumpelf.c:1567-1571 | The count of a length is its multiplicity among the lengths |
| HistogramLaws.TableRows | src/dumpelf.c:1564-1604 | One row for each length up to the longest, with its multiplicity and the running number of symbols; empty chains apart |

## Left out

- Base58.Encode: that the destination and the scratch buffer are large enough is a precondition, not derived from the allocations of the source.
- Base58.Decode: the capacity likewise; a symbol of 128 or more, which would index outside the table of 128 entries, is excluded.
- Base58.RadixDigits: the carry is an unbounded integer, which `Base58.CarryBound` shows to stay far inside `int32_t`.
- Base85.Encode: the capacity is a precondition; five cells are written for every group, so it exceeds the length of the text.
- Base85.Decode: the capacity is a precondition; four cells are written for every group, so it exceeds the number of bytes.
- Base64.Encode: its loop counter is a C `int`; inputs of 2^31 bytes and more are treated as if it were wide enough.
- Base64.Decode: the capacity is a precondition.
- Vigenere.Encode: the capacity is a precondition.
- Vigenere.Decode: the capacity is a precondition.
- BinDigits.BinDecode: a text of one digit alone, whose terminator does not fit the buffer of the source, is excluded.
- DecDigits.Dec8Decode: likewise.
- MemFind.Find.FGetU: a read that hands out a block whose end has wrapped around 2^64 is excluded, because the source then reads outside the buffer; `CursorRuns` covers the positions themselves.
- MemFind.Find.FPeekU: likewise.
- MemFind.Find.FGetChunk: likewise for its two reads.
- MemFind.Find.FSetP: a store whose end wraps around 2^64 into the scope is excluded, because the source then writes outside the buffer.
- ChunkLimits.RoundTripExactly: buffers of half the address space and more, which no C object has, are excluded, so that reads cannot wrap around.
- Relocs.EcApplyRelocs: which type numbers form which group is a parameter; section headers, relocations and symbols are values that have been read; a section of entry size zero, a division by zero in the source, is excluded.
- Histogram.DumpHash32: header fields, buckets and chains are words that have been read; chains that never end are excluded, as the source would not return.
- Histogram.DumpGnuHash1: words that have been read; chains have to end inside the table, which the source does not test; the bit count of the bitmask, which is computed and never used, is left out.
- Histogram.DumpGnuHash0: the printing and its percentages are left out; the printed numbers are the result.
- `crc8_update` and `crc8_calculate`: nothing beyond the pattern of the other two.
- The rest of the cursor: signed reads, `fgetuNN`, lines and strings, `fappendp`, `fupdate`, `fswap`, cursors on borrowed memory.
- Failed allocations.
- Base32 and the hexadecimal codecs, whose encoders and decoders do not belong together in the source.
- `add*`, `sub*`, `rot*`, `not*`, `xor*`, `dec16_*`, `dec32_*`, LEB128 and the endian swaps: simple, or undefined in C for some amounts.
- Printing, option parsing, file input and output, and the calls into OpenSSL, ssdeep, BFD, Capstone, libdwarf and regex.
- ELF symbol names, notes and every other dump, which mostly format what they read.
