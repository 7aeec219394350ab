# Hydra: a verified model of its image decoders and its HTTP machinery

Hydra's own code is widgets, sockets and a dynamically loaded core. The logic that is hard to get right sits in two
headers it vendors, `vendored/stb_image.h` (with its writer) and `vendored/httplib.h`. This project models that logic in
Dafny and proves what it is for. `dafny verify dfyconfig.toml` checks everything.

Code that updates fields, buffers and arrays in place is modelled by classes and methods that do the same, each proved
against a specification function; what the formats promise is then proved about those functions.

**Images** (`vendored/stb_image.h`)

- *Inflate* (RFC 1951, RFC 1950). `Bits`, `BitStream` and `Canonical` hold the theory of bit strings and of canonical
  prefix codes. `HuffmanTable`, `ZBits` and `Inflate` are the table builder, the bit reservoir and the decoder as they
  are written; `Deflate` says what a stream means, `DeflateFeed` when the reservoir runs out of input; `DeflateWriter`
  writes streams and `DeflateLanguage` parses them back into what was written; `ZlibDecode` has the entry points and the
  final theorems. `DeflateFormat` has the tables and constants in other words, and streams byte by byte.
- *GIF*. `GifCode` is the LZW decoder as a function and an encoder that may pick any table string, not only the longest;
  `GifRows` is the order in which rows arrive, `GifBlocks` the sub-blocks, `Gif` the decoder with its code array and its
  cursor, `GifRoundTrip` the round trip, `GifFormat` what a drawn frame shows in bytes.
- *PNG*. `PngFilter`, `PngRows` and `PngImage` undo the row filters in the output buffer, `PngExpand` unpacks small
  samples and inserts an alpha channel in place, `PngInterlace` is Adam7, `PngPixels` follows a picture through packing,
  filtering, passes and back, pixel by pixel. `PngFormat` has filters, samples and passes in the words of the standard.
- *JPEG*. `JpegTable` builds the Huffman tables, `JpegBits` decodes with them and with the table that decodes a symbol
  and its value at once, `JpegReader` unstuffs the bytes of a segment into the reservoir and reads coefficients off it.
  `JpegPiece` and `JpegBlock` decode blocks, `JpegSink` and `JpegWriter` are the entropy coder of the writer
  (`vendored/stb_image_write.h`), and `JpegRoundTrip` follows whole scans through the writer and back;
  `JpegTables` holds the writer's Huffman tables as it has them, and `JpegStandard` shows that with them nothing is
  assumed. `JpegFormat` has the zigzag order as a walk over the block, and a scan byte by byte.

**HTTP** (`vendored/httplib.h`)

- `HttpText`, `UrlCoding`, `QueryString`, `QueryKeys`, `Base64`, `HeaderLine`: splitting, percent coding, query strings,
  base64, header lines.
- `MultipartForm`, `Multipart`, `MultipartWriter`, `MultipartRoundTrip`: the incremental multipart parser on its sliding
  buffer, the writer, and the round trip under every fragmentation. `MultipartLimits` and `MultipartOpening` say exactly
  where the round trip ends: at long header lines, and at a broken opening line.
- `Chunked`, `ChunkedIO`, `ChunkedSink`: chunked transfer coding, reading from a stream of short reads, writing from a
  content provider.
- `HttpFormat`: digits, escapes, blanks, pairs, sizes and names, character by character.
- `ClientProtocol`, `ThreadPool`: the two concurrent protocols, as steps of threads; the theorems are about every
  interleaving of any number of threads.

A round trip cannot see a constant that reader and writer share. The `...Format` modules therefore state those constants,
tables and conventions once more in the words of the standards, on the results of decoding where that is possible.

What the code does not do as documented, or only up to a limit, is stated and proved as such:

- A DEFLATE stream with nothing behind it may be refused although it is complete: the decoder asks for 16 bits before
  every code (`ZlibDecode.RefusedAtEnd`; `ZlibDecode.SerializedAtEnd` and `Inflate.ZBuf.ParseZlib` say exactly when).
- A GIF whose encoder defers the clear code is refused after 8192 codes (`GifRoundTrip.DeferredClear`).
- A `stop` that lands in a request is forgotten when that request is redirected (`ClientProtocol.StopForgotten`), and only
  then (`ClientProtocol.StopDecides`).
- A job enqueued after shutdown may stay in the queue for ever (`ThreadPool.LateJobEnters`, `ThreadPool.LateJobStays`),
  exactly if all workers had left before (`ThreadPool.AllJobsRun`).
- A multipart body without items is refused (`MultipartRoundTrip.ValidExactly`). A first fragment that breaks off inside the
  opening line is thrown away, and then the items are never delivered (`MultipartOpening.OpeningDecides`). A header line of
  exactly the permitted length passes in one piece (`MultipartLimits.OnePiece`), but not if the body is cut between its CR
  and its LF: only shorter lines pass under every cut (`MultipartLimits.EveryCut`).
- A JPEG table with 256 codes loses its last one if that code is short (`JpegBits.LastCodeLost`), and only then
  (`JpegBits.PathsAreCanonical`). At the marker that ends a segment a value that is cut off is taken for zero, but refused
  where the table that decodes a symbol and its value at once has an entry for it (`JpegReader.Reader.NextCoefficient`,
  `JpegReader.Reader.OverrunIsCut`).
- The test whether the product of two shorts overflows is wrong for some pairs of negative factors;
  `JpegBlock.MulTestExactly` says for which, and `JpegBlock.MulTestReached` that the decoder meets one. A written scan is
  refused exactly if that test refuses one of its blocks (`JpegStandard.StandardScan`).
- A repeated pair in a query string comes back once, and keys are printed as they are: the parameters survive exactly if no
  pair is repeated and every key is one that parsing leaves alone (`QueryKeys.QueryExact`).
- The values of trailer fields are percent-decoded when they are read, but not encoded when they are written
  (`Chunked.TrailersComeBack`).
- Three guards are dead: the reservoir guard of the inflater, the size check of its slow path, and the GIF decoder's
  comparison of the code with the already incremented counter. The first two follow from `Inflate.ZBuf.FillBits` and
  `Inflate.ZBuf.SlowSymbol`; the third from `Gif.Gif.AddEntry`.

## Model

| member | source | states |
|---|---|---|
| Bits.BitReverse16IsReverse | vendored/stb_image.h:4105-4112 | the four masked swaps reverse the order of the 16 bits of every number |
| Bits.BitReverseIsReverse | vendored/stb_image.h:4114-4120 | for every width up to 16, shifting the 16-bit reversal down gives the reversal of that many bits |
| Canonical.LimitIsKraftSum | vendored/stb_image.h:4136-4147 | the preshifted limit of each length is the partial Kraft sum of the codes up to that length |
| Canonical.FitsIsKraft | vendored/stb_image.h:4142-4143 | testing only the lengths that are used is the same as testing Kraft's inequality |
| Canonical.MatchUnique | vendored/stb_image.h:4122-4167 | no bit window starts with the codes of two symbols: the canonical code is prefix free |
| HuffmanTable.ZHuffman.CountSizes | vendored/stb_image.h:4128-4132 | counts the codes of every length |
| HuffmanTable.ZHuffman.AssignCodes | vendored/stb_image.h:4136-4147 | fails exactly when some used length runs out of codes; else first code, first symbol and limit of every length are the canonical ones |
| HuffmanTable.ZHuffman.FillFast | vendored/stb_image.h:4157-4161 | enters a value in exactly the slots whose low bits spell the reversed code |
| HuffmanTable.ZHuffman.FillSymbols | vendored/stb_image.h:4149-4165 | every symbol stands at its sorted position, and every slot of the lookup table holds the one short code it ends in, or zero |
| HuffmanTable.ZHuffman.Build | vendored/stb_image.h:4122-4167 | accepts lengths of at most 15 bits exactly when their Kraft sum is at most 1, and then all tables are those of the canonical code |
| ZBits.FastPath | vendored/stb_image.h:4249-4255 | a filled slot names the symbol whose code stands at the reading position, and its length |
| ZBits.FastMiss | vendored/stb_image.h:4249-4256 | an empty slot means that no code of at most nine bits stands there |
| ZBits.SlowPath | vendored/stb_image.h:4226-4237 | the first limit above the reversed window gives the length and the sorted position of the symbol |
| ZBits.NoCode | vendored/stb_image.h:4230 | when no limit is above the window, no code stands there |
| Inflate.ZBuf.FillBits | vendored/stb_image.h:4199-4209 | the reservoir stays the next bits of the input, lowest first, and fills to 25 or more by as few bytes as that takes; the guard never fires |
| Inflate.ZBuf.Receive | vendored/stb_image.h:4211-4219 | returns the next n bits as a number and moves on by n bits |
| Inflate.ZBuf.SlowSymbol | vendored/stb_image.h:4227-4237 | finds the symbol of a long code; the range and size checks never reject one |
| Inflate.ZBuf.Decode | vendored/stb_image.h:4240-4257 | returns the unique symbol whose code stands at the reading position and moves behind it; fails exactly if there is none, or fewer than 16 bits are in the reservoir and no byte of input is left |
| Inflate.ZBuf.Zexpand | vendored/stb_image.h:4259-4279 | makes room exactly when the request fits the greatest reachable size, keeps all output, and ends for every capacity of at least 1 |
| ZlibDecode.GrowthCovers | vendored/stb_image.h:4268-4271 | doubling from any capacity of at least 1 reaches two gigabytes |
| Deflate.CopyIsLz77 | vendored/stb_image.h:4327-4333 | after a match every new byte equals the one `dist` before it, overlapping or not |
| Inflate.ZBuf.CopyBytes | vendored/stb_image.h:4327-4333 | both copying loops, the run of one byte and the general one, append the LZ77 copy |
| Inflate.ZBuf.PutMatch | vendored/stb_image.h:4323-4333 | appends a match, growing the buffer in the middle of a block without losing anything; fails exactly when the capacity cannot hold it |
| Inflate.ZBuf.ReadMatch | vendored/stb_image.h:4315-4321 | length and distance with their extra bits as RFC 1951 defines them; fails exactly if there is no such distance or the reservoir is out of input before its code |
| Inflate.ZBuf.ParseHuffmanBlock | vendored/stb_image.h:4295-4336 | the output of a block is the expansion of its tokens; it is refused exactly if it has none that fits, or the reservoir is out of input before one of its codes |
| Inflate.ZBuf.ReadCodeLengths | vendored/stb_image.h:4358-4382 | undoes the run-length coding of the code lengths; fails exactly if they are malformed or the reservoir is out of input before a code |
| Inflate.ZBuf.ComputeHuffmanCodes | vendored/stb_image.h:4338-4386 | reads the header of a dynamic block and builds the tables of the lengths it transmits; fails exactly if there are none or the reservoir is out of input before a code |
| Inflate.ZBuf.DrainInto | vendored/stb_image.h:4394-4400 | the whole bytes left in the reservoir become the first header bytes, in input order |
| Inflate.ZBuf.StoredHeader | vendored/stb_image.h:4392-4404 | the four header bytes are the four input bytes behind the next byte boundary |
| Inflate.ZBuf.ParseUncompressedBlock | vendored/stb_image.h:4388-4415 | accepts exactly the stored blocks whose length is repeated complemented, lies in the input and fits, and appends exactly those bytes |
| Inflate.ZBuf.BuildFixed | vendored/stb_image.h:4431-4458 | the fixed code lengths satisfy Kraft's inequality, so their tables are always built |
| Inflate.ZBuf.ParseZlibHeader | vendored/stb_image.h:4417-4429 | accepts exactly the two header bytes RFC 1950 allows, with no preset dictionary |
| Inflate.ZBuf.ParseZlib | vendored/stb_image.h:4460-4486 | succeeds exactly if the header is right, RFC 1951 gives the input, followed by zeros, a meaning that fits, and the reservoir is never out of input before a code; the output is that meaning |
| ZlibDecode.DecodeMalloc | vendored/stb_image.h:4498-4560 | inflates into a buffer that starts at any size of at least 1 and grows; its result is determined by the input and the greatest size |
| ZlibDecode.DecodeBuffer | vendored/stb_image.h:4535-4571 | inflates into a buffer of fixed size; its result is determined by the input and that size |
| DeflateWriter.SymbolDecodes | vendored/stb_image.h:4240-4257 | the bits of a symbol's code decode to that symbol |
| DeflateWriter.DynamicDecodes | vendored/stb_image.h:4338-4386 | a written dynamic header is read back as the lengths it was written from |
| DeflateWriter.StreamDecodes | vendored/stb_image.h:4295-4486 | every list of stored, fixed and dynamic blocks decodes to its LZ77 expansion |
| DeflateWriter.RoundTrip | vendored/stb_image.h:4295-4486 | packed into bytes with two more behind them, it does so whatever those are |
| DeflateLanguage.ParseStream | vendored/stb_image.h:4295-4486 | conversely, every stream that is accepted is the serialization of some list of blocks with that expansion |
| ZlibDecode.SerializedIsInflated | vendored/stb_image.h:4460-4560 | the entry points return the LZ77 expansion of every list of blocks serialised behind the right header and followed by two more bytes, memory permitting |
| ZlibDecode.SerializedAtEnd | vendored/stb_image.h:4240-4247 | with less behind it such a stream is inflated to its expansion exactly if the reservoir is never out of input before a code |
| ZlibDecode.RefusedAtEnd | vendored/stb_image.h:4240-4247 | a fixed block of any two literals below 144 is complete in four bytes, and refused when nothing follows them |
| DeflateFeed.BlocksFed | vendored/stb_image.h:4240-4247 | with 16 more bits behind a stream the reservoir is never out of input before one of its codes |
| DeflateFeed.BlocksEndSoon | vendored/stb_image.h:4199-4219 | although zeros are read behind the input without end, no stream ends more than 4568 bits behind it |
| ZlibDecode.InflatedIsSerialized | vendored/stb_image.h:4460-4560 | whatever they return is the expansion of some list of blocks that the input carries, with at most 4568 bits of the zeros behind it |
| ZlibDecode.StreamUnambiguous | vendored/stb_image.h:4460-4486 | two lists of blocks that serialise to the same stream have the same expansion and length |
| DeflateFormat.HeaderAccepted | vendored/stb_image.h:4417-4429 | a header is accepted exactly if something follows it, its method is 8, bit 5 of its second byte is clear, and 256 times the first byte plus the second is a multiple of 31 |
| DeflateFormat.HeaderTable | vendored/stb_image.h:4417-4429 | for each of the eight window sizes exactly four second bytes are: behind 78 these are 01, 5E, 9C and DA |
| DeflateFormat.NoDictionary | vendored/stb_image.h:4425 | no header with bit 5 of its second byte set is accepted |
| DeflateFormat.ZlibStreamIsInflated | vendored/stb_image.h:4417-4486 | every list of blocks behind one of those headers, such as 78 9C, is inflated to its expansion; nothing else is assumed of the header |
| DeflateFormat.LengthsFollow | vendored/stb_image.h:4281-4287 | the lengths of the symbols follow each other without a gap from 3, and the last symbol is for 258 alone |
| DeflateFormat.DistancesFollow | vendored/stb_image.h:4289-4293 | so do the distances, from 1 to 32768 |
| DeflateFormat.EveryLength | vendored/stb_image.h:4281-4287 | every length from 3 to 258 has a symbol and extra bits |
| DeflateFormat.EveryDistance | vendored/stb_image.h:4289-4293 | every distance from 1 to 32768 has a symbol and extra bits |
| DeflateFormat.UnusedSymbols | vendored/stb_image.h:4314-4319 | the symbols 286 and 287, and the distance symbols 30 and 31, are refused |
| DeflateFormat.OrderByDistance | vendored/stb_image.h:4340 | the lengths of the code length code come as 16, 17, 18, 0 and then by their distance from 8 |
| DeflateFormat.Repetitions | vendored/stb_image.h:4358-4382 | 16 repeats the last length three to six times, 17 gives three to ten zeros, 18 eleven to 138 |
| DeflateFormat.AnnouncedCounts | vendored/stb_image.h:4346-4350 | a dynamic block announces 257 and more literal/length codes, and one and more distance codes |
| DeflateFormat.AnnouncedLengths | vendored/stb_image.h:4346-4356 | it says how many lengths of the code length code follow, four and more, with three bits each in that order; those not sent are zero |
| DeflateFormat.FixedCodesAre | vendored/stb_image.h:4431-4458 | the codes of the fixed lengths are those of the table in section 3.2.6 of RFC 1951 |
| DeflateFormat.FixedDistancesAre | vendored/stb_image.h:4431-4458 | the fixed distance codes are the numbers of their symbols in five bits |
| DeflateFormat.StoredStream | vendored/stb_image.h:4388-4415 | byte by byte: 01, the length and its complement with the low byte first, and the data themselves are a stream |
| DeflateFormat.FixedText | vendored/stb_image.h:4295-4336 | bit by bit: a text in the fixed code is decoded to that text |
| DeflateFormat.FourthKind | vendored/stb_image.h:4472-4473 | a block of the fourth kind is refused |
| DeflateFormat.KnownStream | vendored/stb_image.h:4460-4486 | the bytes 4B 04 00 are the letter a |
| Gif.Gif.OutGifCode | vendored/stb_image.h:6653-6688 | draws the string of a code, first index first; every prefix is a smaller live code, so it ends although stale entries lie in the array |
| Gif.Gif.NextRow | vendored/stb_image.h:6678-6687 | the cursor moves to the next row of the frame's order, skipping passes without rows |
| Gif.Gif.EmitPixel | vendored/stb_image.h:6663-6681 | paints one index at the cursor, unless it is transparent, and moves on |
| Gif.Gif.AddEntry | vendored/stb_image.h:6748-6756 | enters the previous string with the first index of the new one, also when the code is the one being entered |
| Gif.Gif.CodeStep | vendored/stb_image.h:6732-6770 | one code does what the LZW decoder function does: clear, end, string, or refusal |
| Gif.Gif.DataByte | vendored/stb_image.h:6719-6725 | takes the data bytes out of their sub-blocks |
| Gif.Gif.ProcessGifRaster | vendored/stb_image.h:6690-6773 | the frame is painted with exactly the indices the data encode, in the frame's row order; reading stops behind the sub-blocks; exactly the corrupt data are refused |
| GifCode.WidthsAgree | vendored/stb_image.h:6762-6765 | the decoder widens its codes exactly when the encoder does |
| GifCode.EmitDecodes | vendored/stb_image.h:6743-6767 | the code of any table string decodes to that string and keeps both tables in step |
| GifCode.ActionsDecode | vendored/stb_image.h:6717-6773 | decoding inverts encoding for every choice of strings and clear codes, exactly when no run between clears outgrows the decoder's table |
| GifCode.GreedyEncodes | vendored/stb_image.h:6717-6773 | the longest-match encoder of Appendix F encodes every image within that limit |
| GifBlocks.FramedPayload | vendored/stb_image.h:6719-6725 | cutting data into sub-blocks and taking them out again gives the data, and ends behind the terminator |
| GifRoundTrip.RasterDecodes | vendored/stb_image.h:6690-6773 | a raster packed and cut into sub-blocks in any way decodes to its pixels, or is refused, by the same condition |
| GifRoundTrip.GreedyRasterDecodes | vendored/stb_image.h:6690-6773 | every image written by the longest-match encoder round-trips |
| GifRoundTrip.DeferredClear | vendored/stb_image.h:6749-6752 | an image encoded pixel by pixel without further clears, cut into sub-blocks in any way, decodes to itself up to 8192 - 2^cs - 1 pixels and is refused above |
| GifRows.EveryRowComes | vendored/stb_image.h:6682-6686 | every row of the frame comes in the order, at its computed place |
| GifRows.EveryPlaceIsARow | vendored/stb_image.h:6682-6686 | every place of the order holds a row of the frame, the one whose computed place it is |
| GifRows.RowCount | vendored/stb_image.h:6873-6879 | the order has as many places as the frame has rows, for every height |
| GifRows.FramePixel | vendored/stb_image.h:6663-6687 | after all indices each pixel of the frame shows its own index, as it was before where that is transparent |
| GifRows.PaintedOutside | vendored/stb_image.h:6663-6687 | pixels outside the frame never change |
| GifFormat.RowComesAs | vendored/stb_image.h:6682-6686 | with interlacing row y comes at the place that counts every eighth row from 0, every eighth from 4, every fourth from 2, every other from 1 |
| GifFormat.DrawFrame | vendored/stb_image.h:6663-6773 | after a frame is drawn, in bytes: a pixel whose index has an alpha above 128 in the table, such as 255, is red, green, blue and alpha of that index; one whose index has less, such as 0, keeps its bytes; both are marked |
| GifFormat.WidthIs | vendored/stb_image.h:6762-6765 | the n-th code behind a clear code has the fewest bits that can hold it, at most twelve |
| GifFormat.TableFull | vendored/stb_image.h:6750-6752 | a string code behind another is refused exactly when the table has 8192 entries |
| GifFormat.ClearComesFirst | vendored/stb_image.h:6743-6746 | before the first clear code every other code but the end is refused |
| GifFormat.FourIndices | vendored/stb_image.h:6732-6767 | bit by bit: four indices by their own codes in three bits, the last one and the end in four |
| GifFormat.OnePixel | vendored/stb_image.h:6690-6773 | byte by byte: a frame of one pixel |
| PngFilter.PaethNearest | vendored/stb_image.h:4656-4665 | the fourth predictor is the neighbour nearest to left + up - upper left, ties in that order |
| PngFilter.UnfilterInverts | vendored/stb_image.h:4636-4772 | unfiltering inverts filtering for every filter, row and prior row |
| PngFilter.KindsAgree | vendored/stb_image.h:4647-4654 | the decoder's cases agree with the filters, and the first-row ones with the filters over a row of zeros, without looking at a row above |
| PngRows.RebuildPacked | vendored/stb_image.h:4705-4750 | rows without a gap are rebuilt in place from left to right; nothing else changes |
| PngRows.RebuildSpread | vendored/stb_image.h:4705-4771 | rows with an alpha channel get the same colour bytes, every alpha byte is 255, and nothing else changes, for 8- and 16-bit samples |
| PngExpand.NeverAhead | vendored/stb_image.h:4777-4830 | no sample is written beyond the packed byte it comes from, and on it only when that byte is used up, for every width |
| PngExpand.ExpandRow | vendored/stb_image.h:4777-4830 | expanding from the right end of the row in place gives the pure unpacking of the packed bytes |
| PngExpand.InsertAlpha | vendored/stb_image.h:4831-4845 | inserting alpha backwards in place keeps every sample and sets every alpha byte |
| PngExpand.SamplesRebuild | vendored/stb_image.h:4791-4827 | the samples of a byte make up the byte, for every small depth |
| PngImage.RowsRoundTrip | vendored/stb_image.h:4692-4772 | filtered data, with any filter for each row, are read back as the rows |
| PngImage.BuildRows | vendored/stb_image.h:4692-4772 | all rows are rebuilt in the output; it fails exactly at a filter above 4 |
| PngImage.CreateImageRaw | vendored/stb_image.h:4667-4857 | succeeds exactly if the data hold all rows and small samples do not overrun them; then the output holds the rows, unpacked and scaled, with an opaque alpha channel where there is one more, and 16-bit samples in the order of the machine |
| PngImage.ToNative | vendored/stb_image.h:4846-4857 | stores every pair of bytes, high byte first, as a 16-bit number of the machine, whichever byte it keeps first |
| PngInterlace.PassInside | vendored/stb_image.h:4871-4890 | every place of every pass lies in the image and belongs to that pass alone |
| PngInterlace.PixelCovered | vendored/stb_image.h:4871-4890 | every pixel of the image is a place of its pass: with the rounded-up sizes the passes cover each pixel exactly once |
| PngInterlace.ScatterPass | vendored/stb_image.h:4885-4893 | a pass is copied to its places and to no other |
| PngInterlace.RowsTake | vendored/stb_image.h:4879-4896 | a pass reads exactly the length the source advances by |
| PngInterlace.CreateInterlaced | vendored/stb_image.h:4860-4905 | succeeds exactly if the data hold all passes, and then each pixel is the pixel of its pass |
| PngInterlace.PassesRoundTrip | vendored/stb_image.h:4860-4905 | the data of seven passes, filtered in any way, are read back as the rows they were made from |
| PngPixels.ImagePixel | vendored/stb_image.h:4692-4845 | pixel (i, j) of a finished image is made of pixel i of row j: its bytes, or its scaled samples, and an opaque alpha |
| PngPixels.InterlacedPixel | vendored/stb_image.h:4860-4905 | every pixel of an assembled image has the bytes of the format, and is made of the pixel of its pass |
| PngPixels.UnpackedData | vendored/stb_image.h:4777-4827 | samples packed into bytes come back, scaled, for every small depth |
| PngPixels.InterlacedRoundTrip | vendored/stb_image.h:4860-4905 | a picture split into its seven passes, packed and filtered in any way, comes back pixel by pixel, whatever follows the data |
| PngPixels.PlainRoundTrip | vendored/stb_image.h:4650-4860 | the same for a picture that is not interlaced |
| PngFormat.DataRebuilt | vendored/stb_image.h:4692-4772 | every byte of every row that the decoder finds is the byte of the data, plus its left neighbour under filter 1, plus the one above under 2, plus the mean of both rounded down under 3, plus the nearest neighbour under 4; left means a whole pixel back, or one byte for small samples |
| PngFormat.GreyColumn | vendored/stb_image.h:4692-4772 | two grey pixels one above the other, the second under the mean filter: half of the first is added |
| PngFormat.PlainRowsRead | vendored/stb_image.h:4692-4772 | rows with a zero before each are read as they stand |
| PngFormat.WidthIsLeast | vendored/stb_image.h:4668 | a row has as many bytes as its bits need |
| PngFormat.SmallPixels | vendored/stb_image.h:4684-4685 | small samples are refused exactly when a pixel takes more than a byte |
| PngFormat.FullScale | vendored/stb_image.h:4647 | the largest sample of each small depth is scaled to 255 |
| PngFormat.SmallShown | vendored/stb_image.h:4783-4827 | small grey samples come out in proportion, palette indices as they are |
| PngFormat.AlphaBytes | vendored/stb_image.h:4831-4845 | a colour pixel comes out as its bytes and 255, or two of them for 16 bits |
| PngFormat.MachineNumber | vendored/stb_image.h:4846-4857 | a 16-bit sample is the number that the machine reads, whichever byte it keeps first |
| PngFormat.SamplesPacked | vendored/stb_image.h:4791-4827 | in the data the higher byte of a sample comes first, and the first of several samples in a byte at its high end |
| PngFormat.PassInSquare | vendored/stb_image.h:4875-4878 | the pass of every pixel is the one that the table of Adam7 has at its place in a square of eight by eight |
| PngFormat.PassOrder | vendored/stb_image.h:4891-4892 | within a pass rows and columns keep their order |
| PngFormat.RowMajor | vendored/stb_image.h:4893-4894 | pixels are numbered row by row |
| JpegTable.SortedIndex | vendored/stb_image.h:2013-2023 | in a list of increasing lengths a symbol's sorted position is its own place, so the delta leads to the symbol |
| JpegTable.JHuffman.AssignCodes | vendored/stb_image.h:2013-2028 | fails exactly when Kraft's inequality does; else codes, deltas and limits are the canonical ones |
| JpegTable.JHuffman.FillFast | vendored/stb_image.h:2031-2042 | every slot holds the one short code it starts with, or 255 |
| JpegTable.JHuffman.Build | vendored/stb_image.h:2001-2044 | accepts exactly the counts of at most 256 codes that satisfy Kraft's inequality, and then all tables are those of the canonical code |
| JpegBits.HuffDecode | vendored/stb_image.h:2102-2145 | behind the refill: decodes by the two paths, the lookup for short codes, the limits for the others |
| JpegBits.PathsAreCanonical | vendored/stb_image.h:2095-2145 | both paths together are canonical decoding for every window, for tables of at most 255 codes, or 256 whose last is long |
| JpegBits.LastCodeLost | vendored/stb_image.h:2030-2042 | for every other table there is a window on which they are not |
| JpegBits.ExtendReceive | vendored/stb_image.h:2156-2164 | behind the refill: takes n bits and extends them as T.81 section F.2.2.1 says; with too few it gives zero and takes none |
| JpegBits.BuildFastAc | vendored/stb_image.h:2048-2071 | every entry is the packed run, value and length of its window, or zero |
| JpegBits.FastAcAgrees | vendored/stb_image.h:2229-2243 | an entry that is not zero gives the same run, value and number of bits as decoding the symbol and then receiving its value |
| JpegBits.FastAcFilled | vendored/stb_image.h:2056-2067 | the entries that are not zero are exactly the short codes whose value fits with them into nine bits and into a byte |
| JpegBits.FastAcShort | vendored/stb_image.h:2060-2066 | an entry spans at most nine bits |
| JpegReader.Reader.GrowBuffer | vendored/stb_image.h:2073-2089 | refilling keeps the bits to come, adding zeros only when the rest of the segment is empty, and ends with more than 24 valid bits unless it finds the marker |
| JpegReader.Reader.HuffDecodeNext | vendored/stb_image.h:2095-2145 | the bits to come, with zeros behind the segment, were the code of the returned symbol followed by the bits to come now; it fails exactly if they start with no code, and then keeps them |
| JpegReader.Reader.ReceiveNext | vendored/stb_image.h:2151-2164 | the bits to come were those of the value followed by the bits to come now; it gives zero only if it finds the marker with fewer bits left |
| JpegReader.Reader.NextCoefficient | vendored/stb_image.h:2229-2258 | one round of the coefficient loop with all its refills: the bits to come were the code of a symbol, its value, and the bits to come now, whichever table was used; it fails exactly if no code stands there or an entry of the fast table spans more bits than are left before the marker, and takes only a value that the marker cuts off for zero |
| JpegReader.Reader.OverrunIsCut | vendored/stb_image.h:2234-2239 | in the latter case a code and its value do stand there if zeros follow the bits that are left |
| JpegPiece.PrefixFree | vendored/stb_image.h:2001-2044 | no bits start with the codes of two symbols |
| JpegPiece.NextRound | vendored/stb_image.h:2229-2258 | a round takes the bits of the coefficient it reads; where a code and its value stand, it reads them, whichever table decodes them, and takes nothing behind them |
| JpegBlock.ZigzagOnce | vendored/stb_image.h:2190-2204 | the zigzag table leads into the block, also for the places behind its end, and visits every entry once; its inverse is the writer's table |
| JpegBlock.DecodeAc | vendored/stb_image.h:2227-2260 | for every input: the rounds took exactly the bits their coefficients were read from, the block shows those coefficients dequantised, and it fails only where no code stands or an entry overruns the bits left; if a written block stands there, exactly its coefficients are read |
| JpegBlock.MulTestExactly | vendored/stb_image.h:1075-1082 | the test says whether the product fits into 16 bits, unless both factors are negative: then it is right only at one boundary value, and with -1 not for the least short |
| JpegBlock.MulTestReached | vendored/stb_image.h:2221-2224 | with a step of 0xfffe a first coefficient of -2 is refused, although the product is 4 |
| JpegBlock.DecodeDc | vendored/stb_image.h:2213-2225 | refuses exactly if no code for a size of at most 15 stands there, or the sum or the product overflows by the source's tests; else the prediction moves by the value whose bits were taken |
| JpegBlock.DecodeBlock | vendored/stb_image.h:2208-2261 | for every input: what was read are the bits that were taken, and every refusal has one of the stated reasons; a written block is read exactly and refused only if its first coefficient overflows |
| JpegSink.SegmentOfStuffed | vendored/stb_image_write.h:1261-1264 | unstuffing what was stuffed gives it back, up to the marker behind it |
| JpegSink.BitSink.WriteBits | vendored/stb_image_write.h:1255-1270 | the bits of a code are appended to the bits written so far, through a buffer whose upper part is never cleared |
| JpegSink.BitSink.Finish | vendored/stb_image_write.h:1598-1604 | fewer than eight ones complete the last byte, and no written bit stays in the buffer |
| JpegWriter.CalcBits | vendored/stb_image_write.h:1320-1328 | the size is the number of bits of the value, and its masked bits extend to it |
| JpegWriter.PiecesEncode | vendored/stb_image_write.h:1367-1396 | the pieces of a block stand for its coefficients, with runs over sixteen and the end where only zeros are left |
| JpegWriter.WriteAc | vendored/stb_image_write.h:1367-1397 | the nested loops over runs of zeros write exactly the pieces of the block |
| JpegWriter.ProcessDu | vendored/stb_image_write.h:1357-1397 | a block is written as the difference of its first coefficient and the pieces of the others |
| JpegWriter.EncodedIsDrawn | vendored/stb_image.h:2227-2258 | coefficients drawn at their places of the zigzag order stand there dequantised in natural order, and nothing else changes |
| JpegRoundTrip.ReadBlock | vendored/stb_image.h:2208-2261 | a written block is read back, whatever follows it, and no bit behind it is taken |
| JpegRoundTrip.WriteScan | vendored/stb_image_write.h:1524-1604 | the blocks of all components, each from its own prediction, are written one after the other, stuffed and ended by the marker |
| JpegRoundTrip.ReadScan | vendored/stb_image.h:2941-3003 | the blocks of a written scan are read as they come, for all components, and the scan is refused exactly if the test for overflow refuses one of them |
| JpegRoundTrip.ScanRoundTrip | vendored/stb_image.h:2941-3003 | what the writer prints is what the decoder reads, for every list of blocks of any components in any order |
| JpegStandard.SymbolCode | vendored/stb_image.h:2001-2028 | where the counts give a code its place, it is the canonical code of the symbol at that place |
| JpegStandard.StandardTables | vendored/stb_image_write.h:1402-1464 | the four literal tables of the writer hold, for every symbol that a block needs, the canonical code and length of the lists that it prints for the decoder |
| JpegStandard.StandardScan | vendored/stb_image_write.h:1500-1604 | with these tables, and tables that the decoder builds from those lists, every scan of blocks that the codes can hold is read back as it was written, unless the test for overflow refuses a block |
| JpegFormat.ZigzagContinues | vendored/stb_image.h:2190-2204 | the order starts at the top left and goes up to the right on even diagonals, down to the left on odd ones, and along the edge at their ends; behind its end stands the last place |
| JpegFormat.ZigzagUnique | vendored/stb_image.h:2190-2204 | no other order of 64 places does |
| JpegFormat.ValuesOfSize | vendored/stb_image.h:2151-2164 | the values of n bits count up from 1 - 2^n to -2^(n-1) and from 2^(n-1) to 2^n - 1 |
| JpegFormat.SymbolMeans | vendored/stb_image.h:2245-2257 | the high half of a symbol is a run and the low half a size; 0xf0 skips sixteen zeros, other symbols of size zero end the block |
| JpegFormat.SixteenBits | vendored/stb_image.h:2256 | products are stored modulo 65536 in the range of a short |
| JpegFormat.StuffedSafe | vendored/stb_image_write.h:1261-1264 | behind every 0xff of a written segment stands a zero |
| JpegFormat.SmallBlock | vendored/stb_image_write.h:1347-1397 | bit by bit, in the standard code: 00 for an unchanged first coefficient, 010 1 for one more, 010 0 for one less; 100 101 for a five behind it; 1010 for the end |
| JpegFormat.SmallScan | vendored/stb_image_write.h:1347-1604 | byte by byte: the scan of that block alone is 25 AF FF D9 |
| HttpText.Trim | vendored/httplib.h:2450-2459 | both scans stop at a character that is not blank, having passed only blanks |
| HttpText.TrimCopy | vendored/httplib.h:2461-2464 | the text without the blanks at its ends |
| HttpText.Split | vendored/httplib.h:2473-2491 | the trimmed stretches between separators, blank ones dropped, although the left scan may run past a separator |
| HttpText.SplitJoin | vendored/httplib.h:2473-2491 | splitting finds exactly the separators: it undoes joining |
| UrlCoding.FromHexToI | vendored/httplib.h:2202-2217 | reads the digits if all are there, and nothing otherwise |
| UrlCoding.Utf8RoundTrip | vendored/httplib.h:2229-2259 | every code point but the surrogates can be read back from its UTF-8 form; surrogates are dropped |
| UrlCoding.EncodeQueryParam | vendored/httplib.h:2342-2361 | concatenates the coding of the bytes |
| UrlCoding.DecodeUrl | vendored/httplib.h:2395-2430 | decodes from left to right, percent and %u escapes, leaving malformed escapes alone |
| UrlCoding.DecodeEncoded | vendored/httplib.h:2342-2430 | decoding undoes encoding for every byte string, in both plus modes |
| QueryString.ParamsToQueryStr | vendored/httplib.h:4160-4170 | joins the items, keys plain and values encoded |
| QueryString.ParseQueryText | vendored/httplib.h:4172-4193 | inserts the decoded pairs of the distinct pieces that have a key |
| QueryString.ParseDispositionParams | vendored/httplib.h:4206-4228 | the same for the parameters of a header field, without their quotes |
| QueryString.EmplaceKeepsOrder | vendored/httplib.h:4191 | insertion keeps the order of keys and adds only the new pair |
| QueryString.QueryRoundTrip | vendored/httplib.h:4160-4193 | parsing undoes printing for keys that parsing leaves alone and arbitrary byte values, but repeated pairs come back once |
| QueryKeys.QueryExact | vendored/httplib.h:4160-4193 | for all parameters: they survive exactly when no pair is repeated and every key is not empty, has no blanks at its ends, no `&` and no `=`, and decodes to itself |
| Base64.ShiftIn | vendored/httplib.h:2274-2276 | after a wrapped shift and add, the low twelve bits are four old bits and the byte |
| Base64.Base64Encode | vendored/httplib.h:2263-2289 | gives the encoding of section 4 of RFC 4648 for inputs of any length, although its 32-bit accumulator wraps |
| Base64.DecodeEncoded | vendored/httplib.h:2263-2289 | a reference decoder inverts that encoding |
| Base64.EncodedLength | vendored/httplib.h:2284-2286 | its length is four for every three bytes or part thereof |
| Multipart.MultipartFormDataParser.BufFind | vendored/httplib.h:4461-4482 | the first occurrence in the window, or its size if there is none |
| Multipart.MultipartFormDataParser.BufAppend | vendored/httplib.h:4484-4500 | the window becomes what was left followed by the new bytes, moved down and grown in place |
| Multipart.MultipartFormDataParser.ParseHeader | vendored/httplib.h:4318-4367 | what one header line tells about the entry, and whether it is acceptable |
| Multipart.MultipartFormDataParser.Parse | vendored/httplib.h:4284-4413 | one fragment takes the parser's state, buffer and reports where the specification says, and the loop ends |
| Multipart.ReadContent | vendored/httplib.h:6037-6069 | a body in fragments is accepted if no fragment is refused and the closing boundary was seen |
| MultipartForm.StepShrinks | vendored/httplib.h:4289-4410 | every round of the loop shrinks the bytes left, or leaves them and the new-entry state |
| MultipartForm.RefusalStops | vendored/httplib.h:4284-4413 | for every body and every cut: the receiver is asked after each report, nothing is reported behind one that it refused, and then the body is refused |
| MultipartWriter.SerializeFormdata | vendored/httplib.h:4583-4596 | prints the items one after the other and the closing boundary |
| MultipartWriter.DispositionMeans | vendored/httplib.h:4557-4562 | the printed disposition line gives the entry exactly its name and filename |
| MultipartRoundTrip.MultipartRoundTrip | vendored/httplib.h:4272-4596 | however the body is cut, with the opening line in the first fragment and header lines below the limit, the receiver is given exactly the items and the body is valid |
| MultipartRoundTrip.ValidExactly | vendored/httplib.h:4272-4596 | a written body is valid exactly if it has an item |
| MultipartRoundTrip.ShortBodyRefused | vendored/httplib.h:4272-4413 | no body shorter than an opening line, an empty line, a delimiter and two dashes is valid, whatever it holds |
| MultipartRoundTrip.BrokenOpeningIsLost | vendored/httplib.h:4291-4298 | a first fragment that breaks off inside the opening line leaves no trace |
| MultipartOpening.OpeningDecides | vendored/httplib.h:4272-4413 | with a first fragment that is not empty, the items are delivered and the body is valid if and only if that fragment holds the whole opening line; otherwise the items are not delivered, however the rest is cut |
| MultipartOpening.DelimiterBehind | vendored/httplib.h:4369-4391 | behind the content of an item the next delimiter is that of a later item, or starts at its empty line |
| MultipartOpening.OpeningInside | vendored/httplib.h:4291-4298 | behind its start the body holds an opening line only in or behind the first content, or at the end of the first type line |
| MultipartLimits.EveryCut | vendored/httplib.h:4304-4370 | the items are delivered under every cut that leaves the opening line whole if and only if every header line is shorter than the limit |
| MultipartLimits.LongLineRefused | vendored/httplib.h:4304-4306 | a body with a longer line is refused when it is cut in front of the line and between the CR and the LF behind it |
| MultipartLimits.OnePiece | vendored/httplib.h:4304-4370 | in one piece the body is delivered if and only if no disposition line is longer than the limit: only the first line of an entry is measured |
| HeaderLine.ParseHeader | vendored/httplib.h:3657-3688 | finds the key in front of the first colon and the value behind it without the blanks around it, percent-decoded unless it is a location |
| HeaderLine.FieldSurvives | vendored/httplib.h:3657-3688 | a printed field is read back unchanged if and only if it is a location or nothing in its value looks like an escape |
| Chunked.FromIToHex | vendored/httplib.h:2219-2227 | the lower-case hexadecimal digits of a number |
| Chunked.HexInverted | vendored/httplib.h:3795-3798 | base-16 parsing of a printed number gives the number |
| Chunked.ChunkedRoundTrip | vendored/httplib.h:3782-3834 | reading undoes writing: the payload comes back, the trailer fields are read back and reading stops behind the terminator, whatever follows |
| Chunked.TrailersComeBack | vendored/httplib.h:3815-3831 | trailer fields come back unchanged if and only if no value but that of a location looks percent-encoded |
| ChunkedIO.LineReader.Append | vendored/httplib.h:2543-2556 | fixed and growing buffer together hold the line so far; the assertion about the terminating zero holds |
| ChunkedIO.LineReader.GetLine | vendored/httplib.h:2519-2541 | reads exactly the bytes up to the newline, or to the end of the stream |
| ChunkedIO.ReadContentWithLength | vendored/httplib.h:3729-3750 | delivers exactly that many bytes, however short the reads; when it fails, all that there are, or a part that is refused |
| ChunkedIO.ReadContentChunked | vendored/httplib.h:3782-3834 | delivers what the chunks mean, however the reads are cut, and collects the trailer fields; it fails exactly if they mean nothing, having delivered all data that could be read, or the receiver refuses part of them |
| ChunkedSink.DataSink.Write | vendored/httplib.h:4031-4057 | a write that is not empty goes out as one chunk |
| ChunkedSink.DataSink.DoneWithTrailer | vendored/httplib.h:4059-4099 | the last chunk, the trailer fields, the empty line |
| ChunkedSink.WriteContentChunked | vendored/httplib.h:4108-4122 | calls the provider until no data are available or something fails |
| ChunkedSink.CallsGoOut | vendored/httplib.h:4024-4123 | however the provider spreads its writes over its calls, the same text goes out |
| ChunkedSink.ChunkedTransfer | vendored/httplib.h:3782-4123 | what the provider writes is what the reader of the stream delivers, and the reader stops right behind the terminator |
| HttpFormat.HexDigitsOnly | vendored/httplib.h:2188-2201 | the sixteen digits in either case, and no other characters |
| HttpFormat.NoLeadingZero | vendored/httplib.h:2219-2227 | no size is written with a zero in front |
| HttpFormat.EncodedByteIs | vendored/httplib.h:2342-2366 | letters, digits and nine marks stand for themselves; any other byte is a percent sign and two upper-case digits |
| HttpFormat.PlusDecoded | vendored/httplib.h:2422-2423 | a plus sign is a blank where that is asked for, and itself elsewhere |
| HttpFormat.OtherDecoded | vendored/httplib.h:2395-2430 | every other character is itself, also a percent sign that cannot start an escape |
| HttpFormat.EscapeDecoded | vendored/httplib.h:2412-2419 | a percent sign and two digits in either case are a byte |
| HttpFormat.UnitDecoded | vendored/httplib.h:2400-2411 | %u and four digits are the UTF-8 of a code point |
| HttpFormat.Utf8Examples | vendored/httplib.h:2229-2259 | the ends of the ranges of UTF-8, in bytes |
| HttpFormat.AlphabetIs | vendored/httplib.h:2264-2265 | the letters are those of Table 1 of RFC 4648 |
| HttpFormat.Base64Examples | vendored/httplib.h:2263-2289 | the encodings that section 10 of RFC 4648 lists |
| HttpFormat.BlanksAre | vendored/httplib.h:2448 | exactly blank and tab are blanks |
| HttpFormat.BlanksComeOff | vendored/httplib.h:2450-2464 | blanks and tabs around a text come off, and nothing else |
| HttpFormat.SingleQuoteStays | vendored/httplib.h:2466-2471 | quotes come off in pairs only |
| HttpFormat.CasesAre | vendored/httplib.h:3648-3654 | two characters are the same but for their case if they are equal or one letter in both cases |
| HttpFormat.KeyAndValue | vendored/httplib.h:4178-4188 | the key stands before the first equals sign, the value behind the last |
| HttpFormat.QueryPairRead | vendored/httplib.h:4172-4193 | a pair of a query string is decoded on both sides, with plus signs as blanks |
| HttpFormat.LookupFirst | vendored/httplib.h:4333-4344 | a lookup gives the first pair with the key |
| HttpFormat.LookupNone | vendored/httplib.h:4333-4344 | it finds nothing exactly if no pair has the key |
| HttpFormat.NumberRead | vendored/httplib.h:3795 | the value of a size: white space, a sign, 0x and digits up to the first character that is none; modulo 2^64 behind a minus sign, and at most 2^64 - 1 |
| HttpFormat.ExtensionIgnored | vendored/httplib.h:3795-3798 | the size of a chunk is read in front of any chunk extension; one that does not fit is refused |
| HttpFormat.NoSize | vendored/httplib.h:3795-3797 | a size line that does not start with a number is refused |
| HttpFormat.StringEnds | vendored/httplib.h:3808 | a C string ends in front of its first zero |
| HttpFormat.ExtendedRead | vendored/httplib.h:4346-4352 | the value behind UTF-8'' in either case is decoded; an empty one is refused |
| HttpFormat.ExtendedOnly | vendored/httplib.h:4346-4352 | nothing else is an extended value |
| HttpFormat.ExtendedNameWins | vendored/httplib.h:4324-4356 | a form-data line with a filename and an extended one: the extended one names the file, or the line is refused |
| HttpFormat.DispositionWords | vendored/httplib.h:4324-4329 | its words are recognised in any case and with any white space behind them; its parameters must be on one line |
| HttpFormat.OtherLineRefused | vendored/httplib.h:4320-4362 | a header line that is neither a content type nor a disposition with a name is refused |
| HttpFormat.HeaderLimit | vendored/httplib.h:4306 | a header line is refused when it does not end within 8192 bytes |
| HttpFormat.FieldRead | vendored/httplib.h:3657-3691 | on a header line the value is what stands behind the first colon without the blanks and tabs around it, decoded unless the key is a location in any case |
| ClientProtocol.InvStep | vendored/httplib.h:6768-6865 | every step of every thread keeps the invariant: the count is the request owner's nesting depth, and the owner is recorded exactly while it is positive |
| ClientProtocol.RunsAssert | vendored/httplib.h:6700-6725 | in every interleaving of any number of threads the assertions about closing the socket and counting requests hold |
| ClientProtocol.DescriptorStable | vendored/httplib.h:6713-6730 | while one thread has a request in flight, no step of another opens, closes or replaces the descriptor |
| ClientProtocol.CountIsOwners | vendored/httplib.h:6822-6851 | the count is positive exactly while some thread has a request in flight, and that thread is the one recorded |
| ClientProtocol.StopLeaves | vendored/httplib.h:7861-7882 | a stop with no request in flight leaves no socket; behind any stop the socket is open exactly if it was and a request is in flight |
| ClientProtocol.SocketStep | vendored/httplib.h:6788-6822 | only entering a request without a living connection opens a socket, with a new descriptor; a failed connection and a drop leave none |
| ClientProtocol.IdleStop | vendored/httplib.h:7861-7882 | after a stop with no request in flight there is no socket along any run until some thread connects, and never again one from before the stop |
| ClientProtocol.StopBehindRequest | vendored/httplib.h:7878-7881 | a run: a kept-alive request leaves its socket open, and a stop behind it closes it |
| ClientProtocol.OthersWait | vendored/httplib.h:6768-6769 | while one thread has a request in flight no other enters or leaves one, or drops the connection |
| ClientProtocol.StopForcesClose | vendored/httplib.h:7861-7882 | a stop that lands in a request forces the connection to be closed on exit, whatever other threads do, provided the thread starts no later redirect or retry |
| ClientProtocol.FlagIsStopPending | vendored/httplib.h:6778-6784 | while a thread has a request in flight, whatever the others do, the close request stands exactly if it stood before or a stop came, and the thread itself has entered no request since |
| ClientProtocol.ExitCloses | vendored/httplib.h:6838-6856 | a request leaves no socket open exactly when it was closed already, failed, is not kept alive, or a stop has come since its thread last entered a request |
| ClientProtocol.StopDecides | vendored/httplib.h:6838-6856 | when nothing else goes wrong, a kept-alive client is left without a socket if and only if a stop came since the thread last entered a request |
| ClientProtocol.StopForgotten | vendored/httplib.h:7861-7882 | a run in which a stop lands in a request that is redirected, and the client keeps an open socket |
| ClientProtocol.NoDeadlock | vendored/httplib.h:6768-6865 | whenever a call is under way some call can take a step |
| ThreadPool.InvStep | vendored/httplib.h:591-662 | every step of workers, producers and the closing thread keeps the invariant |
| ThreadPool.RunsKeepOrder | vendored/httplib.h:603-610 | in every interleaving what was enqueued is what was taken followed by what is pending, and pending jobs never wait for workers that all sleep with no notification due; no worker leaves before the shutdown |
| ThreadPool.JobsRunOnce | vendored/httplib.h:634-652 | no job runs twice, and none that was not enqueued |
| ThreadPool.AllJobsRun | vendored/httplib.h:612-626 | once all workers have left, every job has run exactly once if and only if none was enqueued when all had left before |
| ThreadPool.ShutdownProgress | vendored/httplib.h:612-648 | after the shutdown broadcast every step of a worker brings the pool closer to its end |
| ThreadPool.ShutdownLive | vendored/httplib.h:612-648 | until all workers have left, someone can take a step |
| ThreadPool.WorkerLeaves | vendored/httplib.h:638-643 | a run in which the only worker leaves an idle pool that is shut down |
| ThreadPool.LateJobEnters | vendored/httplib.h:603-610 | a job can still be enqueued then |
| ThreadPool.LateJobStays | vendored/httplib.h:603-610 | with all workers gone nothing is ever taken from the queue again |

## Left out

- ZlibDecode.DecodeMalloc: an initial size of zero is excluded, since doubling zero never ends; allocation always succeeds, and sizes are below 2^31.
- Multipart.MultipartFormDataParser.ParseHeader: the two regular expressions are predicates on the line, and a parameter that is given twice is looked up by its first value.
- ChunkedIO.ReadContentChunked: strtoul is a function that follows the C standard with a 64-bit unsigned long; trailer fields are a list in the order in which they are added.
- ChunkedIO.ReadContentChunked: on a trailer line of one byte the source computes a place in front of the line; the model says only that it finds no field there.
- JpegBits.HuffDecode and JpegBits.ExtendReceive start behind the refill; with it they are JpegReader.Reader.HuffDecodeNext and JpegReader.Reader.ReceiveNext.
- PngImage.CreateImageRaw: the overflow checks on sizes are not modelled.
- PngExpand.ExpandRow: the three unrolled loops are one loop over the samples of a byte, which reads the byte anew for each sample as they do.
- PngInterlace.CreateInterlaced: the final image is an array of pixels; copying a pixel's bytes is one assignment.
- Gif.Gif.ProcessGifRaster: the colour table is a value; header, palettes, extensions, disposal and animation are not modelled.
- ClientProtocol: connecting, TLS, the retry after a TLS peer closed, the destructor and the bodies of requests are not modelled; a redirect or an authentication retry is a nested send of the same thread.
- ThreadPool: a job is a number; the condition variable may wake a worker without reason; the destructor is not modelled.
- The Adler checksum of zlib streams and the CRC of PNG chunks are checked neither by the source nor here.
- PNG chunk parsing, palettes, transparency colours, and the filtering choices of encoders beyond "any filter".
- JpegRoundTrip.ScanRoundTrip: the transform and the quantisation of the writer are in floating point, so its blocks are inputs.
- JpegRoundTrip.ReadScan: restart intervals are not modelled; the inverse transform of a block is taking the block as it is.
- JPEG markers and headers, progressive scans, the inverse transform, upsampling and colour conversion.
- The BMP, TGA, PSD, PIC, PNM and HDR decoders, and input through callbacks.
- The parts of the HTTP library that only pass data on: sockets, TLS, compression, routing, ranges, timeouts.
- Hydra's own code (qt, discord, server, src): widgets, GL, sockets, and a core loaded at run time.
