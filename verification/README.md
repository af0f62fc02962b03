# Stenography: a Dafny model of the hiding and recovery rules

The repository is a set of steganography scripts. Each one hides a text in
a carrier and reads it back. The model covers:

- the 8-bit text codec that every script copies (`text_to_bits`,
  `bits_to_text`);
- three line-based text carriers:
  - line endings (LF for 0, CR LF for 1), in `lab01/lab01.py`;
  - trailing spaces (one for 0, two for 1), in `lab01/lab012.py`;
  - a trailing zero width space (U+200B) for 1, in `lab011/lab01.py`;
- least-significant-bit embedding in an image, with a zero-byte
  terminator (`lab02/lab02.py`);
- the Koch scheme (`lab03/lab03final.py`). It uses one bit per full 8x8
  block over all three colour channels, carried by the order of two
  transform coefficients;
- a second transform scheme (`lab03/lab03secret.py`). It uses one bit per
  aligned block of the luma plane, in a key-shuffled order, carried by
  `|c1| - |c2|` against a threshold M0, with the coefficient pair rotating
  through six positions;
- the pixel-swap scheme (`lab03/lab03.py`). It uses one bit per pair of
  randomly drawn pixels, carried by which of the two is larger.

Every script is modelled by its own module. Shared parts are stated once:

| module | contents |
|---|---|
| `Bits` | the codec |
| `PyText` | Python's `str.rstrip()` |
| `LineCarrier` | the loop the three text carriers share |
| `BlockGrid` | block corner enumeration |
| `Coefficients` | 8x8 coefficient blocks, and writing and reading them in a visit order |
| `Outcome` | `Option`, `Result` and the two error kinds |
| `Arith` | division facts |

The error paths are modelled as `Result` values:

- a message too long for the container (`ValueError` in the source) is
  `Err(CapacityExceeded)`;
- a coefficient missing from a cut-short edge block (`IndexError`) is
  `Err(IndexOutOfRange)`.

Conventions:

- Transform coefficients are exact reals.
- The key-seeded generators become parameters: the shuffled corner order,
  and the stream of pixel pairs.
- Images are flat row-major sequences.

Two behaviours of the code matter for the contracts:

- The capacity checks compare `len(text_to_bits(message))` with the
  capacity. `format(code, '08b')` writes more than eight digits for a code
  of 256 or above, so a message with such a character needs more room
  than `8 * len(message)`. Each embedder with a capacity check states both
  forms: the exact condition, and `8 * len(message)` for texts whose codes
  fit in a byte. These are the three line carriers, the least-significant-bit
  embedder and the Koch embedder.
- The second transform scheme lists the corners of cut-short edge blocks
  too. It raises IndexError when such a block lacks one of the two
  coefficients for its bit. The model returns `Err(IndexOutOfRange)`
  exactly when one of the blocks the loop visits lacks them.

## Model

| member | source | states |
|---|---|---|
| Bits.CodeBits | lab01/lab01.py:5 | A code below 256 gives exactly eight digits; a larger code gives exactly its Python digit count `BitLength`, which is more than eight; the digits read back as the code. |
| Bits.TextToBits | lab01/lab01.py:4-5 | The bit string has at least 8 bits per character, and exactly 8 per character if and only if every code fits in a byte. |
| Bits.BitsToText | lab01/lab01.py:8-10 | One character per group of eight bits, counting a trailing partial group; every character's code is below 256. |
| Bits.CompleteGroupsToText | lab03/lab03final.py:91-96 | One character per complete group of eight bits, each with a code below 256. |
| Bits.BitLengthBounds | lab01/lab01.py:5 | Python's digit count for a code is enough to write it, and a code of 256 or above takes at least nine digits. |
| Bits.ValueOfBinary | lab01/lab01.py:4-10 | Reading back the low `width` binary digits of n gives n when n fits in them. |
| Bits.BinaryOfValue | lab01/lab01.py:4-10 | Writing out the value of a digit string at its own width gives the digit string back. |
| Bits.ValueOfZeros | lab02/lab02.py:8 | A run of zero bits has value 0, so the terminator byte decodes as NUL. |
| Bits.TextToBitsAppend | lab01/lab01.py:5 | Encoding a concatenation concatenates the encodings. |
| Bits.TextRoundTrip | lab01/lab01.py:4-10 | Decoding the encoding of a text whose codes are below 256 gives the text back. |
| Bits.BitsRoundTrip | lab03/lab03secret.py:12-19 | Encoding the decoding of a bit string whose length is a multiple of 8 gives the bits back, so the codec is a bijection. |
| Bits.CompleteGroupsAgree | lab03/lab03final.py:91-96 | Without a trailing partial group the Koch decoder agrees with `bits_to_text`. |
| Bits.CompleteGroupsIgnorePartial | lab03/lab03final.py:91-96 | For every bit string, the Koch decoder gives the same text as on the bits cut to whole groups of eight. |
| Bits.CompleteGroupsDropPartial | lab03/lab03final.py:91-96 | For every bit string, the Koch decoder equals `bits_to_text` on the bits cut to whole groups: a trailing partial group is dropped. |
| PyText.RStrip | lab01/lab012.py:30 | The result is the longest prefix whose removed tail is all Python whitespace; it does not end in whitespace. |
| PyText.RStripOfPadded | lab01/lab012.py:30-33 | Stripping a text that ends in non-whitespace, plus a whitespace tail, gives the text back. |
| LineCarrier.EmbedBits | lab01/lab01.py:23-35 | The line count is kept, line k of the first bit-count lines is rewritten for bit k, and every later line is unchanged. |
| LineCarrier.DecodedBits | lab01/lab01.py:49-56 | At most one bit per line. |
| LineCarrier.CollectBits | lab01/lab01.py:49-58 | The loop that stops once it holds enough bits returns the first `need` bits of all recognised lines. |
| LineCarrier.CollectAfterEmbed | lab01/lab01.py:23-58 | When each rewritten line reads as its bit, the first bit-count bits the lines carry are exactly the embedded bits. |
| LineCarrier.ExtractMessage | lab01/lab01.py:43-59 | The three extractors, given the carrier's line test: at most `messageLength` characters, at most one per eight lines, each with a code below 256. |
| LineCarrier.ExtractAfterEmbed | lab01/lab01.py:13-59 | For any line test and rewrite where each rewritten line reads back as its bit, extracting with the message's length gives back every byte-coded message that fits. |
| LineCarrier.CapacityAndEfficiency | lab01/lab01.py:62-69 | The capacity is the line count; the efficiency times the capacity is 8 times the message length, or the efficiency is 0 for no lines. |
| LineCarrier.AcceptedMessageFits | lab01/lab012.py:63-70 | A message the embedder accepted, wide codes included, has efficiency between 0 and 1. |
| CrLfCarrier.StripCrLf | lab01/lab01.py:30 | The result is the longest prefix whose removed tail is all CR and LF bytes. |
| CrLfCarrier.EncodeLine | lab01/lab01.py:26-33 | The rewritten line reads back as its bit, whatever terminators the line had, and keeps its text without terminators. |
| CrLfCarrier.DecodeLine | lab01/lab01.py:50-53 | A line carries a bit exactly when its last byte is LF, and the bit is 1 exactly when CR precedes that LF. |
| CrLfCarrier.DecodeEnding | lab01/lab01.py:50-53 | A line without trailing terminators, followed by LF or CR LF, reads as 0 or 1 respectively. |
| CrLfCarrier.EmbeddedLinesDecode | lab01/lab01.py:23-35 | Every line the loop rewrites is its stripped text plus its bit's ending, reads back as that bit and keeps its stripped text. |
| CrLfCarrier.EmbedMessage | lab01/lab01.py:13-40 | Error exactly when the bits outnumber the lines; otherwise the count is the bit count, line k is the stripped line plus LF or CR LF and reads back as bit k, and later lines are unchanged. |
| CrLfCarrier.RoundTrip | lab01/lab01.py:13-59 | Extracting from the embedded lines, with the shared extractor and this test, with the message's length gives the message back, for every byte-coded message the container accepts. |
| SpaceCarrier.DecodeEnding | lab01/lab012.py:51-54 | A text not ending in whitespace, followed by one or two spaces and LF, reads as 0 or 1 respectively. |
| SpaceCarrier.EncodeLine | lab01/lab012.py:26-33 | The rewritten line reads back as its bit and keeps its stripped text; stripping keeps a bit-0 line from ending in two spaces. |
| SpaceCarrier.DecodeLineSpec | lab01/lab012.py:51-54 | A line carries a bit exactly when it ends in a space and LF, and the bit is 1 exactly when a second space precedes them. |
| SpaceCarrier.EmbeddedLinesDecode | lab01/lab012.py:23-35 | Every line the loop rewrites reads back as its bit and keeps its stripped text. |
| SpaceCarrier.EmbedMessage | lab01/lab012.py:13-40 | Error exactly when the bits outnumber the lines; otherwise line k is the stripped line plus one or two spaces and LF, reads back as bit k, and later lines are unchanged. |
| SpaceCarrier.RoundTrip | lab01/lab012.py:13-60 | Extracting from the embedded lines, with the shared extractor and this test, with the message's length gives the message back, for every byte-coded message the container accepts. |
| ZeroWidthCarrier.DecodeOne | lab011/lab01.py:44-45 | Any text followed by U+200B and LF reads as 1. |
| ZeroWidthCarrier.DecodeZero | lab011/lab01.py:44-47 | A text followed by LF reads as 0 if and only if the text does not end in U+200B. |
| ZeroWidthCarrier.EncodeLine | lab011/lab01.py:25-28 | A 1 always reads back; a 0 reads back if and only if the stripped text does not already end in U+200B; the stripped text gains U+200B exactly for a 1. |
| ZeroWidthCarrier.DecodeLine | lab011/lab01.py:44-47 | Every line carries a bit. |
| ZeroWidthCarrier.DecodeLineSpec | lab011/lab01.py:44-47 | A line reads as 1 exactly when its last two characters are U+200B and LF. |
| ZeroWidthCarrier.EmbedMessage | lab011/lab01.py:10-35 | Error exactly when the bits outnumber the lines; otherwise line k is the stripped line plus the bit's ending, later lines are unchanged, and every 1 reads back. |
| ZeroWidthCarrier.OneBitPerLine | lab011/lab01.py:43-47 | Every line yields exactly one bit. |
| ZeroWidthCarrier.RoundTrip | lab011/lab01.py:10-53 | Extracting with the shared extractor and this test gives the message back when no line that carries a 0 already ends, after stripping, in U+200B. |
| ZeroWidthCarrier.ZeroMisreadAfterZeroWidthText | lab011/lab01.py:26-28 | A line whose text ends in U+200B, rewritten for a 0, reads back as 1. |
| LsbCarrier.SetLsb | lab02/lab02.py:22 | The upper seven bits are kept, the low bit is the message bit, and the sample moves by at most 1. |
| LsbCarrier.SampleIndexFacts | lab02/lab02.py:17-21 | The p-th visited sample lies inside the array, in channel p mod 3, and its flat index maps back to p. |
| LsbCarrier.VisitOrderFacts | lab02/lab02.py:17-19 | The visited samples are distinct, inside the array, and exactly the ones `Visited` picks out. |
| LsbCarrier.Payload | lab02/lab02.py:8 | The payload is the text's bits followed by eight more (the terminator). |
| LsbCarrier.WriteFrom | lab02/lab02.py:16-25 | Each visited sample gets its payload bit in its low bit, and every other sample is unchanged. |
| LsbCarrier.EmbedTextLsb | lab02/lab02.py:5-28 | Error exactly when the payload exceeds height * width * 3, which for a byte-coded text means 8 * length + 8 > height * width * 3; otherwise the shape is kept, visited sample p carries payload bit p with its upper bits kept, and every other sample is unchanged. |
| LsbCarrier.VisitedBits | lab02/lab02.py:36-39 | One bit per visited sample. |
| LsbCarrier.DecodeUntilZeroByte | lab02/lab02.py:41-46 | At most one character per group of eight bits, each with a code below 256. |
| LsbCarrier.DecodeUntilZeroByteCons | lab02/lab02.py:42-46 | A leading group of eight that is not all zeros decodes to one character ahead of the rest. |
| LsbCarrier.CodeNotTerminator | lab02/lab02.py:44 | The code of any character other than NUL is not the terminator group. |
| LsbCarrier.DecodeStopsAtTerminator | lab02/lab02.py:41-46 | Decoding a text's bits, the terminator and anything after gives the text, for texts without NUL whose codes are below 256. |
| LsbCarrier.PayloadReadBack | lab02/lab02.py:16-39 | The first visited samples of the embedder's output carry the payload in their low bits. |
| LsbCarrier.ExtractTextLsb | lab02/lab02.py:30-48 | Every extracted character has a code below 256. |
| LsbCarrier.RoundTrip | lab02/lab02.py:5-48 | Extracting from the embedder's output gives the text back, for texts without NUL whose codes are below 256. |
| BlockGrid.FullBlockOrigins | lab03/lab03final.py:12-22 | The corner list has (h div 8) * (w div 8) entries. |
| BlockGrid.FullBlockOriginsSpec | lab03/lab03final.py:12-22 | (h div 8) * (w div 8) corners, each aligned to 8 with its window inside the plane, in strictly increasing row-major order (so disjoint), and every such corner listed. |
| BlockGrid.SplitIntoBlocks | lab03/lab03final.py:12-22 | The nested loops produce exactly that corner list. |
| BlockGrid.AlignedOrigins | lab03/lab03secret.py:31 | The corner list has ceil(h / 8) * ceil(w / 8) entries, counting cut-short edge blocks. |
| BlockGrid.AlignedOriginsSpec | lab03/lab03secret.py:31 | Every corner aligned to 8 inside the plane is listed once, in strictly increasing row-major order. |
| BlockGrid.GridDistinct | lab03/lab03secret.py:31 | No corner is listed twice. |
| Coefficients.WriteInOrder | lab03/lab03final.py:61-68 | Block `order[i]` is replaced by the rule applied to it, bit i and i; every other block keeps its coefficients; the keys are kept. |
| Coefficients.WriteAll | lab03/lab03final.py:61-68 | The whole loop writes block i for bit i and leaves every block outside the visited prefix alone. |
| Coefficients.ReadInOrder | lab03/lab03final.py:84-89 | One bit per visited block. |
| Coefficients.ReadAfterWrite | lab03/lab03final.py:61-89 | Reading back in the writing order returns the written bits when each rewritten block decodes to its own bit. |
| Koch.EmbedBit | lab03/lab03final.py:24-38 | Only the pair changes and its sum is kept; a block already showing the bit is returned unchanged; otherwise the gap becomes at least 2 * threshold for a 0 and at most -2 * threshold for a 1. |
| Koch.ExtractBit | lab03/lab03final.py:40-42 | A block whose two coefficients differ already shows the bit it reads as: embedding that bit again leaves it alone, for every threshold. |
| Koch.ExtractAfterEmbed | lab03/lab03final.py:24-42 | A 1 always reads back for a non-negative threshold; a 0 reads back if and only if the threshold is positive or the two coefficients differ. |
| Koch.RuleReadsBack | lab03/lab03final.py:24-42 | With a positive threshold, the extraction rule reads back any bit the embedding rule wrote. |
| Koch.ChannelRefs | lab03/lab03final.py:56 | One reference per block of the channel. |
| Koch.BlockRefs | lab03/lab03final.py:51-56 | The list has three entries per full block of a channel. |
| Koch.BlockRefAt | lab03/lab03final.py:53-56 | Block idx of the list is block idx mod N of channel idx div N, N being the blocks per channel. |
| Koch.BlockRefsDistinct | lab03/lab03final.py:53-56 | No block appears twice in the list. |
| Koch.BlockRefsSpec | lab03/lab03final.py:51-56 | The list has 3 * (h div 8) * (w div 8) blocks, channel-major then row-major, without repeats. |
| Koch.EmbedMessage | lab03/lab03final.py:44-70 | Error exactly when the three channels have fewer blocks than bits, which for a byte-coded message means 3 * (h div 8) * (w div 8) < 8 * length; otherwise block idx receives bit idx and every other block is unchanged. |
| Koch.EmbedWrites | lab03/lab03final.py:58-68 | An accepted message is written by the loop over the block list. |
| Koch.ExtractMessage | lab03/lab03final.py:75-98 | Returns min(8 * messageLength, blocks) div 8 characters. |
| Koch.ReadBack | lab03/lab03final.py:61-89 | With a positive threshold, every written block reads back as its bit. |
| Koch.RoundTrip | lab03/lab03final.py:44-98 | With a positive threshold, extracting with the message's length gives the message back. |
| SecretDct.PairFor | lab03/lab03secret.py:42-43 | The two positions lie in the block, differ, and use rows and columns 3 to 5 only. |
| SecretDct.PairRotation | lab03/lab03secret.py:43 | The second coefficient of bit k is the first of bit k + 1, and the pairs repeat every six bits. |
| SecretDct.DecodeBit | lab03/lab03secret.py:83-89 | Every block already shows the bit it reads as: embedding that bit again leaves it alone, for every alpha. |
| SecretDct.EmbedBit | lab03/lab03secret.py:44-53 | What the rewrite takes from one coefficient of the pair it gives to the other. |
| SecretDct.EmbedBitSpec | lab03/lab03secret.py:44-53 | Only the pair changes and its sum is kept; a block that already reads as the bit is unchanged; otherwise alpha moves into c1 for a 0 and out of it for a 1. |
| SecretDct.CarriesExactly | lab03/lab03secret.py:44-89 | A block carries its bit if and only if it already reads as it, or moving alpha pushes \|c1\| - \|c2\| across M0 the right way. |
| SecretDct.MarginStep | lab03/lab03secret.py:46-53 | One rewrite moves \|c1\| - \|c2\| by at most 2 * alpha. |
| SecretDct.AbsShift | lab03/lab03secret.py:47 | Moving a number by d moves its magnitude by at most \|d\|. |
| SecretDct.ZeroNeedsMargin | lab03/lab03secret.py:46-49 | A block whose margin is at or below M0 - 2 * alpha cannot carry a 0. |
| SecretDct.DefaultsLoseZeroOnFlatBlock | lab03/lab03secret.py:95-102 | With alpha 0.5 (the driver's) and M0 5 (the default), an all-zero block cannot carry a 0. |
| SecretDct.ThinBlockNeverFits | lab03/lab03secret.py:39-44 | A block cut to three rows or columns or fewer has no usable pair. |
| SecretDct.WideEdgesFit | lab03/lab03secret.py:31-44 | No block raises when each side is a multiple of 8 or leaves an edge strip of at least 6. |
| SecretDct.EdgeStrip | lab03/lab03secret.py:31 | An aligned coordinate leaves at least 8 samples to the edge, or exactly the side mod 8. |
| SecretDct.ShuffleDistinct | lab03/lab03secret.py:32 | A rearrangement of a list without repeats has no repeats. |
| SecretDct.OrderFacts | lab03/lab03secret.py:31-35 | The shuffled order names each corner once, and every block it names is in the view. |
| SecretDct.WriteBlocks | lab03/lab03secret.py:34-56 | Block k of the order is rewritten for bit k, and every block outside the visited prefix is unchanged. |
| SecretDct.EmbedMessage | lab03/lab03secret.py:21-62 | Error exactly when a block among the first min(bits, blocks) lacks its pair; otherwise the bit count is returned, those blocks are rewritten for their bits, and the rest are unchanged. |
| SecretDct.ExtractMessage | lab03/lab03secret.py:64-93 | The same error condition; otherwise (min(bitsCount, blocks) + 7) div 8 characters. |
| SecretDct.EmbedWrites | lab03/lab03secret.py:34-56 | With enough blocks, an accepted message is written by the loop over the order. |
| SecretDct.CarriedReadBack | lab03/lab03secret.py:83-89 | Every visited block that carries its bit reads back as it. |
| SecretDct.ReadBack | lab03/lab03secret.py:34-91 | With enough blocks each carrying its bit, reading in the same order returns the message's bits. |
| SecretDct.RoundTrip | lab03/lab03secret.py:21-93 | Under the same conditions, extracting with the returned count gives `Ok(message)`. |
| PixelSwap.Swap | lab03/lab03.py:26 | The two values are exchanged and nothing else changes. |
| PixelSwap.SwapPermutes | lab03/lab03.py:26 | The multiset of values is kept. |
| PixelSwap.SwapStep | lab03/lab03.py:24-29 | Afterwards first <= second for a 1 and first >= second for a 0; the pair keeps or exchanges its values; nothing else changes. |
| PixelSwap.SameSampleNoOp | lab03/lab03.py:25-29 | A pair whose two pixels coincide is left alone. |
| PixelSwap.DecodePair | lab03/lab03.py:54-57 | Every pair already shows the bit it reads as: a step writing that bit leaves the plane alone. |
| PixelSwap.Steps | lab03/lab03.py:18-29 | One conditional swap per bit, each applied to the plane the one before left; the plane keeps its size. |
| PixelSwap.StepDecodes | lab03/lab03.py:24-57 | Right after its step a 1 reads as 1, and a 0 reads as 0 if and only if the two values differ. |
| PixelSwap.StepsPermute | lab03/lab03.py:18-29 | The whole loop only rearranges the plane's values. |
| PixelSwap.EmbedBits | lab03/lab03.py:18-29 | The loop's result is the step-by-step rewrite, and a rearrangement of the plane. |
| PixelSwap.EmbedMessage | lab03/lab03.py:6-36 | Returns the bit count and a rearrangement of the plane produced by one step per bit. |
| PixelSwap.ReadPairs | lab03/lab03.py:48-57 | One bit per drawn pair. |
| PixelSwap.ExtractMessage | lab03/lab03.py:39-61 | (messageLength + 7) div 8 characters, each with a code below 256. |
| PixelSwap.StepsFrame | lab03/lab03.py:18-29 | A pixel no step touches keeps its value. |
| PixelSwap.StepKeepsOthers | lab03/lab03.py:24-29 | A step leaves the reading of a pair it shares no pixel with. |
| PixelSwap.LastPairKept | lab03/lab03.py:18-29 | Over separate pairs, the last pair still holds its original values when its turn comes. |
| PixelSwap.StepsDecodeLast | lab03/lab03.py:18-57 | Over separate pairs, the last step's pair reads as its bit. |
| PixelSwap.StepsDecode | lab03/lab03.py:18-57 | Over separate pairs, every pair reads as its bit. |
| PixelSwap.RoundTrip | lab03/lab03.py:6-61 | With separate pairs and differing values under every 0, extracting the bit count gives the message back. |
| PixelSwap.OverlapCorrupts | lab03/lab03.py:18-29 | Two pairs sharing pixels can undo each other: on [1, 2], two 0s through (0, 1) then (1, 0) leave the first pair reading 1. |

## Left out

- File and image I/O: opening, converting and saving images, `readlines`/`writelines`, and `generate_container_file`. The models take and return the lines or samples directly.
- Text-mode newline translation when reading the text containers: lines are taken as given.
- The discrete cosine transform and its inverse, and the RGB/YCbCr conversion. Both transform schemes are modelled on a map from block to its 64 coefficients, which is exact because the blocks never overlap. The cut-short edge blocks of `lab03/lab03secret.py:31` are kept with their true extent (`Extent`, `PairFits`); a coefficient pair outside a cut-short block gives the `IndexOutOfRange` error where the source would index past the block.
- The write-back of transformed blocks to 8-bit samples (clipping, truncation) and the re-transform at extraction. The round trips state what the coefficient rules guarantee on the transform-domain view.
- The 4-byte length trailer the Koch embedder appends to the output file.
- `calculate_psnr` in `lab02/lab02.py` and `lab03/lab03.py`: floating-point logarithms.
- `check_resilience` in `lab03/lab03.py`: a JPEG round trip through files.
- Python's `random`: the shuffle of the corner list is a caller-supplied order (any rearrangement of the corners), and the drawn pixel pairs are a caller-supplied stream, shared by embedder and extractor.
- The `main` drivers and prints.
- LsbCarrier.EmbedTextLsb: requires at least three channels. The source's traversal raises on fewer, and grey-scale images are not modelled.
- PixelSwap: pixels are flat indices into channel 0 (pixel (x, y) at x * width + y); the two coordinates drawn per pixel are not modelled separately.
- SecretDct.RoundTrip: holds only under the hypothesis that every visited block carries its bit (`AllCarry`). The scheme promises nothing more, and `DefaultsLoseZeroOnFlatBlock` shows the hypothesis can fail with the program's own parameters.
- PixelSwap.RoundTrip: assumes the drawn pairs are separate and that every pair written for a 0 had two different values; `OverlapCorrupts` and `StepDecodes` show each assumption is needed.
- ZeroWidthCarrier.RoundTrip: assumes no line that carries a 0 already ends in U+200B after stripping; `ZeroMisreadAfterZeroWidthText` shows why.
- Koch.RoundTrip: assumes a positive threshold. With threshold 0, a 0 written into a block whose two coefficients are equal reads back as 1 (`Koch.ExtractAfterEmbed`).
- LineCarrier.CapacityAndEfficiency: Python's float division is modelled as exact real division, and the integer 0 returned for an empty container as the real 0.0; rounding of the float quotient is not modelled.
