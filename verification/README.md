# Image encoders and detection post-processing

A Dafny model of the parts of the repository that compute something hard to see at a glance:

- the encoders of `3rdparty/stb_image/stb_image_write.h`: the DEFLATE compressor with its hash buckets and lazy
  matching, the zlib wrapper, the PNG filters and chunks, CRC-32 and Adler-32, the buffered writer behind BMP and TGA,
  the two run-length coders (TGA and Radiance HDR), and the integer half of the JPEG entropy coder;
- the detection pipeline of `postprocess.cc`: scanning the quantised grids, the in-place co-sort of scores and indices,
  non-maximum suppression once per class, and the bounded report;
- the clipped rectangles of `utils/image_drawing.c`.

The repository has no decoders. For each format the model holds one written from the standard, and the main theorems say
that it undoes the encoder. Loops that change state are methods on arrays and classes; each is proved equal to a
function of its inputs or its old state, and the theorems are about those functions.

| file | subject |
|---|---|
| `Arith`, `Bits`, `Word32` | products and quotients; bit strings, packing, or as an operation on numbers; 32-bit xor |
| `ZlibWriter`, `Deflate`, `Lz77`, `Adler32`, `Zlib` | bits and codes, tokens and the inflater, the match search, the checksum, the compressor |
| `Crc32`, `CrcDivision`, `PngFilter`, `Png` | table-driven CRC, the CRC as a long division, row filters and their choice, the file |
| `WriteContext`, `Bmp`, `Tga`, `Hdr` | the 64-byte buffered writer and three formats on it |
| `JpegTables`, `JpegBits`, `JpegBlock`, `JpegScan` | Huffman tables, bit stuffing, one block, the whole scan |
| `QuickSort`, `Nms`, `BoxOverlap`, `NmsConditions`, `PostProcess` | the sort, the suppression passes, what the overlap is, when the passes behave as one expects, the pipeline |
| `Rectangle` | filled and outlined rectangles |

`dafny verify dfyconfig.toml` checks everything.

## What the code does that one might not expect

- The suppression pass reads the class at the rank, not at the detection the rank names, and only of the suppressing
  entry. Detections of different classes therefore suppress each other (`Nms.ClassesInteract`), and because a later pass
  can remove an entry that already suppressed another, a detection can vanish without overlapping anything reported
  (`Nms.OrphanedRemoval`). `NmsConditions` gives the exact conditions, for every vector of classes and every threshold:
  removed detections always overlap a survivor if and only if the threshold is below 0 or at least 1, or the classes at
  all ranks but the last never decrease; they always overlap an earlier one of their own class if and only if the
  threshold is at least 1 or all classes are equal. No two results overlap all the same, and each removal had an
  earlier-ranked live cause.
- The TGA scan compares a pixel with the one two places back, so it ends a raw packet before any pixel that stands
  between two equal ones, repeat or not (`Tga.RawEndsAtRepeat`, `Tga.NeedlessBreak`). An alternating row of n pixels takes
  n - 1 packets (`Tga.AlternatingPackets`) where one for every 128 pixels begun would do (`Tga.ListedSuffices`). Rows
  decode all the same.
- The TGA header keeps 16 bits of each side and the BMP header 32 bits of the size; larger images are written without
  complaint. `Tga.RoundTrip` and `Bmp.SizeIsDeclared` say exactly when the file is right.
- The rectangle outline fails to be a frame for some inverted or very flat boxes; `Rectangle.StripsAreFrame` gives the
  exact condition. Every outline at least as wide and tall as its thickness meets it.
- In automatic mode the PNG filter loop always filters the winning line once more: its counter ends at 5, and the winner
  is at most 4. The line recorded is the winner's (`PngFilter.FilterLine`).

## Model

| member | source | states |
|---|---|---|
| Zlib.Compress | 3rdparty/stb_image/stb_image_write.h:882-992 | For every byte string and every quality (raised to 5 when lower), the bytes returned inflate to exactly the input; they are the zlib header, one final fixed-Huffman block, zero padding to a byte and the Adler-32 sum |
| Zlib.RoundTrip | 3rdparty/stb_image/stb_image_write.h:882-992 | A reader of RFC 1950 and RFC 1951 streams (final bit, block type, symbols, extra bits, overlapping copies, padding, checksum test, nothing after it) accepts every encoded stream and returns the input |
| Zlib.DeflateRoundTrip | 3rdparty/stb_image/stb_image_write.h:902-962 | The block starts with the final bit and type 01, and inflating it returns the input and leaves exactly what follows the end-of-block symbol |
| Zlib.CompressBody | 3rdparty/stb_image/stb_image_write.h:908-961 | Both loops together write the bits of one token list for the whole input, nothing before the writer's earlier bits is disturbed |
| Zlib.CompressStep | 3rdparty/stb_image/stb_image_write.h:909-958 | One round keeps the bucket invariant for the positions entered so far, writes one valid token and moves the cursor by what that token stands for |
| Zlib.FindMatch | 3rdparty/stb_image/stb_image_write.h:911-942 | Search, bucket update and one-byte lookahead together choose the same token as the specification, in which the position is already in its bucket when the lookahead runs |
| Zlib.FindBest | 3rdparty/stb_image/stb_image_write.h:911-920 | The search loop returns the newest of the longest in-window candidates of the bucket |
| Zlib.BetterNext | 3rdparty/stb_image/stb_image_write.h:930-941 | The lookahead loop says yes exactly when some in-window candidate of the next byte is strictly longer |
| Zlib.Enter | 3rdparty/stb_image/stb_image_write.h:921-926 | A bucket at twice the quality loses its older half before the position is pushed; no other bucket changes |
| Zlib.EnterKeeps | 3rdparty/stb_image/stb_image_write.h:921-926 | Entering one position keeps every bucket equal to the bucket history says it should be |
| Zlib.EmitLength | 3rdparty/stb_image/stb_image_write.h:947-949 | The table walk for a length writes the length symbol and extra bits of the one interval that holds it |
| Zlib.EmitDist | 3rdparty/stb_image/stb_image_write.h:950-952 | The table walk for a distance writes the five code bits, most significant first, and extra bits of the one interval that holds it |
| Zlib.EncodeLength | 3rdparty/stb_image/stb_image_write.h:882-992 | The stream is at most 31/24 of the input plus nine bytes long |
| Lz77.BucketInvariant | 3rdparty/stb_image/stb_image_write.h:911-926 | Any bucket at any time holds at most twice the quality positions, strictly increasing, none beyond the cursor, all hashing to that bucket |
| Zlib.BucketsSound | 3rdparty/stb_image/stb_image_write.h:909-926 | The same of every bucket of the hash table itself, at every step of the main loop |
| Lz77.BucketKeepsLatest | 3rdparty/stb_image/stb_image_write.h:921-926 | The position just entered is the last of its bucket, so the lookahead can match against it |
| Lz77.BestIsBest | 3rdparty/stb_image/stb_image_write.h:912-920 | The chosen match reaches the maximum over in-window candidates (counts of at least 3), and among equals it is the nearest; nothing is chosen exactly when no candidate reaches 3 |
| Lz77.ChooseSound | 3rdparty/stb_image/stb_image_write.h:911-953 | A match emitted has length 3 to 258 and distance 1 to 32767, stays inside the data, repeats the bytes at its distance, is the best candidate, and no longer one starts one byte later |
| Lz77.ChosenIsLongest | 3rdparty/stb_image/stb_image_write.h:909-953 | Of all positions in the bucket at most 32767 back, none repeats more bytes at the cursor, up to 258, than the match emitted, and none that repeats as many is nearer |
| Lz77.CopyReproduces | 3rdparty/stb_image/stb_image_write.h:944-953 | Copying byte by byte from the distance back, overlapping or not, appends exactly the next bytes of the input |
| Lz77.TokensExpand | 3rdparty/stb_image/stb_image_write.h:908-961 | From any reachable state, expanding the tokens still to come after the data already covered gives the whole input |
| Lz77.TokensBitsLength | 3rdparty/stb_image/stb_image_write.h:908-961 | The remaining tokens take at most 31/3 bits a byte |
| Lz77.CountM | 3rdparty/stb_image/stb_image_write.h:846-852 | The common length of two positions, cut at 258 and at the end of the data |
| Deflate.LengthUnique | 3rdparty/stb_image/stb_image_write.h:888-889 | Every length 3 to 258 lies in exactly one interval of the length table |
| Deflate.DistUnique | 3rdparty/stb_image/stb_image_write.h:890-891 | Every distance 1 to 32767 lies in exactly one interval of the distance table |
| Deflate.LengthRow | 3rdparty/stb_image/stb_image_write.h:888-889 | The interval of each length symbol is as wide as its extra bits can count, one less before the symbol for 258 |
| Deflate.LengthBasesAgree | 3rdparty/stb_image/stb_image_write.h:888-889 | The length table is the one the standard's extra-bit counts (section 3.2.5 of RFC 1951) generate |
| Deflate.DistBasesAgree | 3rdparty/stb_image/stb_image_write.h:890-891 | The distance table is the one the standard's extra-bit counts generate |
| Deflate.SymbolRoundTrip | 3rdparty/stb_image/stb_image_write.h:866-876 | Each of the 288 fixed-Huffman codes is decoded to its symbol whatever bits follow: no code is a prefix of another |
| Deflate.MatchRoundTrip | 3rdparty/stb_image/stb_image_write.h:944-953 | Length and distance codes with their extra bits decode to the same length and distance |
| Deflate.TokenRoundTrip | 3rdparty/stb_image/stb_image_write.h:944-957 | Inflating the bits of one token applies that token and goes on with the rest |
| Deflate.InflateExpands | 3rdparty/stb_image/stb_image_write.h:909-962 | Inflating the bits of any valid token list and the end-of-block symbol gives the list's expansion |
| ZlibWriter.Writer.Add | 3rdparty/stb_image/stb_image_write.h:867-868 | Adds a code to the stream, least significant bit first, losing no pending bit, and leaves fewer than 8 bits pending |
| ZlibWriter.Writer.Flush | 3rdparty/stb_image/stb_image_write.h:826-834 | Moves whole bytes out without changing the stream of bits |
| ZlibWriter.Writer.Huff | 3rdparty/stb_image/stb_image_write.h:869-875 | Writes a symbol's fixed code most significant bit first, in the standard's four ranges |
| ZlibWriter.Writer.Pad | 3rdparty/stb_image/stb_image_write.h:963-965 | Ends on a byte boundary with fewer than 8 zero bits added |
| ZlibWriter.BitRev | 3rdparty/stb_image/stb_image_write.h:836-844 | The reversed code, sent least significant bit first, is the code sent most significant bit first |
| ZlibWriter.AddStep | 3rdparty/stb_image/stb_image_write.h:867-868 | Or-ing a code above fewer than 8 pending bits in 32 bits concatenates the two bit strings |
| ZlibWriter.FlushStep | 3rdparty/stb_image/stb_image_write.h:828-832 | Moving the low byte out keeps the bit string |
| Bits.PackUnique | 3rdparty/stb_image/stb_image_write.h:826-834 | A bit string padded with zeros to a byte boundary has only one byte form |
| Adler32.Checksum | 3rdparty/stb_image/stb_image_write.h:971-986 | The block-wise sums with the remainder taken once per 5552 bytes equal the per-byte definition; no sum leaves 32 bits; the loop ends although the first block may be empty |
| Adler32.SumBlock | 3rdparty/stb_image/stb_image_write.h:977-977 | From reduced sums, a block of up to 5552 bytes stays within 32 bits and is congruent to the definition |
| Adler32.AdlerIs | 3rdparty/stb_image/stb_image_write.h:971-986 | For every byte string the first sum is one more than the sum of all bytes, and the second the length plus the sum of all bytes each counted from its place to the end, both modulo 65521 |
| Adler32.BytesExpected | 3rdparty/stb_image/stb_image_write.h:982-985 | The four bytes, read most significant first, are the second sum times 65536 plus the first; the zlib reader checks this closed form |
| Crc32.Crc32 | 3rdparty/stb_image/stb_image_write.h:994-1041 | The table-driven loop computes the bit-by-bit polynomial division of section 3.4 of RFC 2083, for every buffer |
| Crc32.TableIsDivision | 3rdparty/stb_image/stb_image_write.h:999-1033 | All 256 table entries are eight reduction steps of their index |
| Crc32.TableStep | 3rdparty/stb_image/stb_image_write.h:1037-1038 | One table look-up step equals feeding the eight bits of the byte one at a time |
| Crc32.FeedByteIsSteps | 3rdparty/stb_image/stb_image_write.h:1037-1038 | Feeding a byte bit by bit equals xor-ing it in and reducing eight times |
| CrcDivision.CrcIsRemainder | 3rdparty/stb_image/stb_image_write.h:1035-1039 | For every buffer the CRC, low bit first, is the complemented remainder of the long division over two elements of the message bits, low bit of each byte first, followed by 32 zeros and with the first 32 bits complemented, by x^32+x^26+...+1 |
| CrcDivision.CrcChecks | 3rdparty/stb_image/stb_image_write.h:1043-1051 | The four bytes written are these check bits; the PNG reader divides and compares |
| CrcDivision.CheckValue | 3rdparty/stb_image/stb_image_write.h:1035-1039 | The bytes of "123456789" have the published value 0xCBF43926 |
| Png.WriteToMem | 3rdparty/stb_image/stb_image_write.h:1098-1182 | The array returned is signature, IHDR, one IDAT and IEND with their checksums around the compressed filtered rows, filled to its last byte, and its length is the length reported; for any stride, positive or negative, that keeps the rows in the buffer |
| Png.RoundTrip | 3rdparty/stb_image/stb_image_write.h:1098-1182 | A reader that checks signature, chunk order, lengths and checksums, header fields, the zlib stream and the filters returns width, height, channels and every row in written order, for 1 to 4 channels, any stride that keeps the rows in the buffer (negative or shorter than a row too), either flip setting, any filter setting and level |
| Png.ByteOfPicture | 3rdparty/stb_image/stb_image_write.h:1069-1070 | Which byte of the caller's buffer each byte of the picture is, with and without the vertical flip |
| Png.FixedBytes | 3rdparty/stb_image/stb_image_write.h:1155-1177 | The signature, the length and tag of the header chunk, the tag of the data chunk and the whole end chunk with its checksum, byte by byte |
| Png.ChunkRoundTrip | 3rdparty/stb_image/stb_image_write.h:1156-1177 | Any chunk reads back with its tag and body, its checksum over both accepted |
| Png.RowsRoundTrip | 3rdparty/stb_image/stb_image_write.h:1116-1144 | Unfiltering row by row, each with the row read before it, gives back all rows |
| Png.LineRoundTrip | 3rdparty/stb_image/stb_image_write.h:1117-1143 | The recorded filter byte is 0 to 4 and unfiltering the line under it gives back the row |
| Png.SizesFit | 3rdparty/stb_image/stb_image_write.h:1150-1153 | The declared length is the real one and fits a signed 32-bit integer whenever the filtered image is at most 1.6 thousand million bytes |
| Png.FilterImage | 3rdparty/stb_image/stb_image_write.h:1114-1144 | The filtered block holds every row behind its filter byte |
| Png.Output.PutChunk | 3rdparty/stb_image/stb_image_write.h:1156-1177 | Appends a whole chunk at the write pointer and advances it by 12 plus the body |
| Png.Output.PutCrc | 3rdparty/stb_image/stb_image_write.h:1047-1051 | The checksum appended is that of the tag and body just before the write pointer |
| PngFilter.UnfilterInverse | 3rdparty/stb_image/stb_image_write.h:1061-1096 | Each of the five standard filters (section 6 of RFC 2083) is undone byte for byte modulo 256 by its standard inverse |
| PngFilter.EncodeLine | 3rdparty/stb_image/stb_image_write.h:1061-1096 | The line produced is the standard filter of the row against the row written before it, or against zeros for the first row |
| PngFilter.FirstPixelIsStandard | 3rdparty/stb_image/stb_image_write.h:1077-1087 | The first-pixel loop, with the first-row substitutes, is the standard filter with nothing to the left |
| PngFilter.OtherIsStandard | 3rdparty/stb_image/stb_image_write.h:1088-1095 | The other loops, with the first-row substitutes, are the standard filter with the missing row read as zero |
| PngFilter.PaethNearest | 3rdparty/stb_image/stb_image_write.h:1053-1059 | The predictor is the nearest of left, up and upper-left to their estimate, ties in that order |
| PngFilter.PredictIs | 3rdparty/stb_image/stb_image_write.h:1079-1095 | The five predictions by their meaning: nothing, left, above, the mean of both rounded down, the neighbour nearest to left + above - upper left |
| PngFilter.SignedIs | 3rdparty/stb_image/stb_image_write.h:1129-1129 | A byte as a signed char lies in -128 to 127 and is the byte modulo 256 |
| PngFilter.EstimateIs | 3rdparty/stb_image/stb_image_write.h:1127-1130 | The estimate is the sum over all bytes of their distance from zero counted round 256 |
| PngFilter.AutomaticIsMinimal | 3rdparty/stb_image/stb_image_write.h:1121-1140 | In automatic mode the recorded filter minimises the sum of absolute signed bytes, the lowest number among equals |
| PngFilter.FilterLine | 3rdparty/stb_image/stb_image_write.h:1117-1140 | The line buffer ends up filtered under the very filter recorded, forced or automatic |
| WriteContext.Context.Write1 | 3rdparty/stb_image/stb_image_write.h:398-403 | Appends one byte to everything written, delivered or buffered, for any fill of the 64-byte buffer |
| WriteContext.Context.Write3 | 3rdparty/stb_image/stb_image_write.h:405-415 | Appends three bytes in order; the buffer never overflows |
| WriteContext.Context.Flush | 3rdparty/stb_image/stb_image_write.h:385-391 | Delivers the buffered bytes; everything written is unchanged and now delivered |
| WriteContext.Context.Func | 3rdparty/stb_image/stb_image_write.h:393-396 | A direct delivery keeps the order of bytes when the buffer is empty |
| WriteContext.Context.WritePixel | 3rdparty/stb_image/stb_image_write.h:417-448 | The bytes of one pixel in channel order, grey expanded or not, alpha before, after, dropped or composed over pink |
| WriteContext.OverIs | 3rdparty/stb_image/stb_image_write.h:436-437 | Composing over the background gives the channel at full alpha, the background at none, and otherwise a value between the two less than one from the exact mean |
| WriteContext.LeInverse | 3rdparty/stb_image/stb_image_write.h:355-369 | A number written little-endian in k bytes reads back exactly when it fits them |
| WriteContext.FieldsRoundTrip | 3rdparty/stb_image/stb_image_write.h:348-375 | Any list of 1, 2 and 4 byte fields reads back field by field |
| WriteContext.Writef | 3rdparty/stb_image/stb_image_write.h:377-383 | The fields are delivered in order, behind what was delivered before |
| Bmp.WriteBmp | 3rdparty/stb_image/stb_image_write.h:477-498 | Refuses negative sizes and writes nothing; otherwise delivers the whole file, nothing left in the buffer |
| Bmp.SizeIsDeclared | 3rdparty/stb_image/stb_image_write.h:493-497 | The bytes delivered number header plus padded rows, and the header's size field says so exactly when the file is below 2^32 bytes |
| Bmp.RoundTrip | 3rdparty/stb_image/stb_image_write.h:491-498 | A reader that insists on the declared size returns every row's colours when the file is below 2^32 bytes and refuses it otherwise |
| Bmp.PixelOfFile | 3rdparty/stb_image/stb_image_write.h:458-471 | Row k of the file is row y-1-k of the raster, or row k when flipped, each pixel in its place |
| Bmp.RowsRoundTrip | 3rdparty/stb_image/stb_image_write.h:467-474 | The padded rows read back as the colours shown, in the order written |
| Bmp.WritePixels | 3rdparty/stb_image/stb_image_write.h:450-475 | Every row is written, padded and delivered, in the order of the two direction settings |
| Tga.WriteTga | 3rdparty/stb_image/stb_image_write.h:520-597 | Refuses negative sizes; otherwise delivers header and rows, packed or plain |
| Tga.RoundTrip | 3rdparty/stb_image/stb_image_write.h:520-597 | Reading the file returns every pixel with all channels, packed or plain, exactly when both sides are below 65536: the header cuts them to 16 bits |
| Tga.PixelOfFile | 3rdparty/stb_image/stb_image_write.h:538-548 | Row k of the file is row y-1-k of the raster, or row k when flipped, each pixel in its place |
| Tga.RowRoundTrip | 3rdparty/stb_image/stb_image_write.h:547-592 | From any position of any row, decoding the packets returns the rest of the row and stops at its end, so no packet crosses a row |
| Tga.PacketSound | 3rdparty/stb_image/stb_image_write.h:551-591 | Every packet carries 1 to 128 pixels, stays in the row and stands for exactly the pixels it covers, so the scan always advances |
| Tga.AlternatingRow | 3rdparty/stb_image/stb_image_write.h:559-569 | A concrete row, a, b, a, b, of which the scan lists the first pixels one by one although no two neighbours are equal |
| Tga.RawEndsAtRepeat | 3rdparty/stb_image/stb_image_write.h:559-569 | For every row and start, the raw scan ends before the first pixel within its reach that stands between two equal pixels, and otherwise with the row or at 128 pixels; it ends short of both exactly when there is such a pixel |
| Tga.NeedlessBreak | 3rdparty/stb_image/stb_image_write.h:556-590 | A raw packet that is neither full nor at the end of the row is followed by another raw packet exactly when the pixel it ended before stands between two equal ones and differs from the next |
| Tga.AlternatingPackets | 3rdparty/stb_image/stb_image_write.h:551-592 | A row whose neighbours differ and whose pixels two apart are equal takes one packet less than it has pixels |
| Tga.ListedSuffices | 3rdparty/stb_image/stb_image_write.h:581-586 | Any row can be listed in one raw packet for every 128 pixels begun, decoding to the same pixels |
| Tga.PacketsOfRow | 3rdparty/stb_image/stb_image_write.h:551-592 | The packets of a row are well formed, stand for its pixels in order, and their bytes are those written |
| Tga.Scan | 3rdparty/stb_image/stb_image_write.h:552-579 | The scan finds the length and kind of the packet at a position |
| Tga.WritePacket | 3rdparty/stb_image/stb_image_write.h:581-591 | The bytes of the packet found are written |
| Tga.WritePackedRow | 3rdparty/stb_image/stb_image_write.h:551-592 | A row is written as its packets, one after another |
| Hdr.ScanlineRoundTrip | 3rdparty/stb_image/stb_image_write.h:658-745 | For widths 8 to 32767, decoding a scanline returns the four component planes and leaves what follows |
| Hdr.PacketsSound | 3rdparty/stb_image/stb_image_write.h:711-742 | The packets from any position stand for exactly the rest of the plane; runs count 1 to 127 and dumps 1 to 128 |
| Hdr.PlaneRoundTrip | 3rdparty/stb_image/stb_image_write.h:642-656 | Any list of well-formed packets decodes to its expansion |
| Hdr.RunAtTriple | 3rdparty/stb_image/stb_image_write.h:713-733 | A run that is output covers at least three equal bytes |
| Hdr.WriteStretch | 3rdparty/stb_image/stb_image_write.h:713-741 | One round of the outer loop moves the cursor strictly forward and writes what brings the rest of the plane forward with it |
| Hdr.WritePlane | 3rdparty/stb_image/stb_image_write.h:708-743 | A plane is delivered as its packets, and the nested loops end |
| Hdr.WriteScanline | 3rdparty/stb_image/stb_image_write.h:705-743 | A packed scanline is delivered as header and four packed planes |
| Hdr.PlainScanline | 3rdparty/stb_image/stb_image_write.h:669-683 | Below 8 and from 32768 pixels, byte 4k + c of the scanline is pixel k of component c |
| JpegScan.WriteSegment | 3rdparty/stb_image/stb_image_write.h:1559-1567 | For any sequence of blocks in the baseline range, each reordered and coded in turn against the last DC value of its own component, the bytes sent are stuffed throughout, under the stuffing they are the code bits of all blocks and fewer than eight one bits, and they decode to the same coefficients on the same grids |
| JpegScan.LastDcIs | 3rdparty/stb_image/stb_image_write.h:1559-1561 | For every unit of any list, the prediction used is the DC coefficient of the last earlier unit with the same component, or 0 if there is none, and no other number |
| JpegScan.TablesAgree | 3rdparty/stb_image/stb_image_write.h:1463-1489 | The tables the coder uses for each component are those the selectors in the scan header name |
| JpegScan.SegmentRoundTrip | 3rdparty/stb_image/stb_image_write.h:1492-1567 | Unstuffing and decoding the segment returns every block of every component, with only fill bits left |
| JpegScan.GridsRoundTrip | 3rdparty/stb_image/stb_image_write.h:1559-1567 | Unstuffing, decoding and undoing the diagonal scan returns every block as it was before reordering |
| JpegScan.BaselineKept | 3rdparty/stb_image/stb_image_write.h:1313-1326 | Reordering keeps the DC coefficient in front and the block in the baseline range |
| JpegScan.FillFlushes | 3rdparty/stb_image/stb_image_write.h:1566-1567 | After the seven fill bits no data bit is left in the buffer |
| JpegScan.UnitsRoundTrip | 3rdparty/stb_image/stb_image_write.h:1520-1561 | A reader that takes its tables from the scan header and remembers the last DC value decoded of each component decodes any interleaving of units to itself |
| JpegScan.DezigzagInverse | 3rdparty/stb_image/stb_image_write.h:1313-1323 | Undoing the standard diagonal scan gives back the coefficient grid |
| JpegScan.ZigZagIsStandard | 3rdparty/stb_image/stb_image_write.h:1220-1221 | The 64 table entries number the grid along its anti-diagonals, as figure 5 of ITU-T T.81 does |
| JpegScan.ZigZagInjective | 3rdparty/stb_image/stb_image_write.h:1220-1221 | No two grid places share a position, so the reordering loses no coefficient |
| JpegScan.Reorder | 3rdparty/stb_image/stb_image_write.h:1313-1323 | The in-place reordering puts every coefficient at its scan position |
| JpegBlock.BlockRoundTrip | 3rdparty/stb_image/stb_image_write.h:1325-1365 | Decoding a block returns all 64 coefficients, for any block in the baseline range, whatever follows |
| JpegBlock.AcRoundTrip | 3rdparty/stb_image/stb_image_write.h:1344-1364 | From any position the remaining run and value symbols, 16-zero markers and end-of-block decode to the remaining coefficients |
| JpegBlock.MarkersRoundTrip | 3rdparty/stb_image/stb_image_write.h:1351-1357 | Each 16-zero marker decodes to sixteen zero coefficients |
| JpegBlock.DcRoundTrip | 3rdparty/stb_image/stb_image_write.h:1325-1334 | A difference in the baseline range decodes to itself, the zero one included |
| JpegBlock.ExtendInverse | 3rdparty/stb_image/stb_image_write.h:1288-1296 | The standard's sign extension (section F.1.2.1 of ITU-T T.81) recovers any non-zero value from its category and bits |
| JpegBlock.CalcBits | 3rdparty/stb_image/stb_image_write.h:1288-1296 | The shift loop finds the category, and the mask the bits |
| JpegBlock.ProcessDU | 3rdparty/stb_image/stb_image_write.h:1325-1366 | The code bits of the block are appended to the stream and the DC coefficient is returned |
| JpegBlock.SendRuns | 3rdparty/stb_image/stb_image_write.h:1344-1361 | The loop over runs sends exactly the symbols between the first AC place and the last non-zero one |
| JpegTables.SymbolRoundTrip | 3rdparty/stb_image/stb_image_write.h:1395-1432 | In all four tables each code word decodes to its symbol by the standard's code-length procedure, whatever follows |
| JpegTables.WordsAreAnnounced | 3rdparty/stb_image/stb_image_write.h:1370-1432 | Every code word the coder can send is the one the code counts and values written into the file header assign to it |
| JpegTables.PrefixIsNoCode | 3rdparty/stb_image/stb_image_write.h:1395-1432 | No shorter prefix of a code word is a code word |
| JpegTables.FirstFits | 3rdparty/stb_image/stb_image_write.h:1370-1393 | The announced counts never need more words than a length has |
| JpegBits.Writer.WriteBits | 3rdparty/stb_image/stb_image_write.h:1223-1238 | Appends a code of up to 16 bits, most significant first, leaving fewer than 8 bits pending and every 0xFF followed by 0x00 |
| JpegBits.Writer.SendByte | 3rdparty/stb_image/stb_image_write.h:1227-1235 | Moves one byte out, stuffed if it is 0xFF, without changing the stream of bits |
| JpegBits.UnstuffSnoc | 3rdparty/stb_image/stb_image_write.h:1228-1232 | Unstuffing takes back each byte sent |
| JpegBits.AddStep | 3rdparty/stb_image/stb_image_write.h:1225-1226 | Or-ing a code below the pending bits concatenates the two bit strings |
| JpegBits.OutStep | 3rdparty/stb_image/stb_image_write.h:1228-1234 | The byte taken out is the first eight pending bits |
| JpegBits.OrWord | 3rdparty/stb_image/stb_image_write.h:1226-1226 | Stale bits above bit 24 of the 32-bit buffer never reach the pending ones |
| QuickSort.QuickSort | postprocess.cc:151-182 | The scores between the bounds end in non-increasing order, and the (score, index) pairs are a permutation of the original pairs, unchanged outside the bounds |
| QuickSort.Partition | postprocess.cc:159-177 | The hole-filling partition permutes the pairs and leaves nothing smaller than the pivot before it and nothing larger after it |
| QuickSort.MoveHole | postprocess.cc:167-175 | Moving a pair into the hole duplicates it for a moment, yet pairs with the key in the hole stay the same multiset |
| QuickSort.FillFromRight | postprocess.cc:163-168 | The right-hand scan keeps everything passed at most the key and moves the hole |
| QuickSort.FillFromLeft | postprocess.cc:169-174 | The left-hand scan keeps everything passed at least the key, moves the hole and makes progress |
| Nms.NoSurvivorsOverlap | postprocess.cc:113-149 | After the passes over all classes present: every entry is unchanged or -1, the top-ranked one survives, and no two survivors of any classes overlap above the threshold |
| Nms.RemovalIsJustified | postprocess.cc:113-149 | The passes are a run of single suppressions, in each of which an earlier-ranked entry alive at that moment overlaps its victim, and each removed entry is the victim of one |
| Nms.RemovedOverlapsSurvivor | postprocess.cc:113-149 | When the class read at all ranks but the last never decreases, each removed entry overlaps an earlier-ranked entry that survives to the end |
| NmsConditions.RemovedOverlapsSurvivorExactly | postprocess.cc:441-446 | For every vector of classes and every threshold: each removed entry overlaps an earlier-ranked survivor, for all boxes and rankings, if and only if the threshold is below 0 or at least 1 or the classes at all ranks but the last never decrease |
| NmsConditions.ChainUnexplained | postprocess.cc:113-149 | Three boxes in a chain, anywhere in any ranking, of which the first two have decreasing classes: the last is removed and overlaps no survivor |
| NmsConditions.SuppressionWithinClassesExactly | postprocess.cc:113-149 | For every vector of classes and every threshold: each removed entry overlaps an earlier-ranked one of its own class, for all boxes and rankings, if and only if the threshold is at least 1 or all classes are equal |
| NmsConditions.OverlapRange | postprocess.cc:103-111 | The overlap of any two boxes, inverted ones too, lies between 0 and 1 |
| BoxOverlap.OverlapCountsPixels | postprocess.cc:103-111 | For all boxes with whole inclusive corners the overlap is the number of pixels in both divided by the number in either, as sizes of sets of points |
| BoxOverlap.OverlapSymmetric | postprocess.cc:103-111 | The order of the two boxes does not matter, for any real boxes |
| BoxOverlap.OverlapTranslated | postprocess.cc:103-111 | Moving both boxes by the same amount changes nothing, for any real boxes |
| Nms.OrphanedRemoval | postprocess.cc:441-446 | Three boxes for which the order of the class passes removes a detection that overlaps no survivor |
| Nms.ClassesInteract | postprocess.cc:118-126 | Two overlapping detections of different classes of which one is removed, because the class is read at the rank and only for the suppressing one |
| Nms.PassesRun | postprocess.cc:441-446 | All passes together as one run of suppressions; winners have a class among those passed |
| Nms.NmsPass | postprocess.cc:113-149 | The two loops turn the order list into the specification's list after one pass |
| PostProcess.PostProcess | postprocess.cc:381-477 | For any three grids: the results are a good report (see ReportIsSound) of the candidates scanned, ranked by score and thinned by one suppression pass per class present; no candidate means no result; slots beyond the count stay blank |
| PostProcess.ReportIsSound | postprocess.cc:448-475 | At most 128 results in non-increasing order of score and above the confidence threshold; score and class of each are those of one candidate and its sides the whole parts of x, y, x + w and y + h cut to the model image, no candidate twice; left <= right and top <= bottom inside the image; no two candidates' boxes overlap above the threshold; the best candidate comes first |
| PostProcess.SurvivorsReported | postprocess.cc:452-458 | No survivor is passed over unless the list was already full of better ones |
| PostProcess.Rank | postprocess.cc:434-446 | Sorting and suppression together: ranked scores with the candidates they belong to, then the list after one pass per class |
| PostProcess.RankedPairs | postprocess.cc:434-439 | After the sort each rank holds the score of the candidate its index names, and each candidate is named once |
| PostProcess.SuppressedIsThinned | postprocess.cc:441-446 | Whatever the passes remove, survivors do not overlap and the best stays |
| PostProcess.ClassSet | postprocess.cc:441-444 | The classes present, each once, smallest first |
| PostProcess.Report | postprocess.cc:448-475 | The results are the first 128 survivors in rank order, boxes clamped; other slots are untouched |
| PostProcess.ProcessGrid | postprocess.cc:260-323 | The three nested loops push exactly one candidate for each slot that holds a detection, in memory order, each what its slot says (see ScanMeaning), and count them |
| PostProcess.ScanMeaning | postprocess.cc:269-317 | The candidates of a grid are one for each slot that passes both tests, in slot order: centre at (column + 2d0 - 0.5, row + 2d1 - 0.5) strides, size 4d2^2 and 4d3^2 anchors, the first class of greatest probability, score the product of confidence and that probability, all from the dequantised numbers |
| PostProcess.CandidateMeaning | postprocess.cc:274-317 | A slot yields a candidate exactly when the confidence passes the integer test and the product passes the real one, and the candidate is as described |
| PostProcess.DescribesOne | postprocess.cc:288-316 | The description fixes every field of the candidate |
| PostProcess.NextCell | postprocess.cc:302-303 | The same numbers one column further move the box by (stride, 0), one row further by (0, stride), and change nothing else |
| PostProcess.ScanSound | postprocess.cc:276-317 | Every candidate of a grid has a score above the threshold, a class below 80 and a box of non-negative size |
| PostProcess.SlotNumbers | postprocess.cc:269-273 | Row, column and anchor number the slots one to one, and the offset computed is the slot's |
| PostProcess.BestClassIsBest | postprocess.cc:277-285 | The class chosen has the highest probability, the lowest number among equals |
| PostProcess.ClampMonotone | postprocess.cc:34-34 | Clamping keeps order and stays within the image |
| PostProcess.ClampWithin | postprocess.cc:34-34 | Clamping gives the whole part of a coordinate inside the image, and the nearer edge otherwise |
| PostProcess.ThresholdPasses | postprocess.cc:194-276 | The integer test of a confidence against the quantised threshold passes every value whose real confidence reaches the threshold |
| PostProcess.ThresholdStops | postprocess.cc:194-276 | Where the quantised threshold is in the range of a byte, the integer test passes no value a whole quantisation step below it |
| Rectangle.DrawRectangle | utils/image_drawing.c:56-177 | For any position, size (negative too), thickness and 1 to 4 channels: the pixels of the filled box, or of the four strips, that lie in the image carry the pen and every other byte is unchanged; the strips are the frame whenever the rectangle is regular |
| Rectangle.StripsAreFrame | utils/image_drawing.c:87-176 | The four strips cover exactly the outer rectangle minus the inner one if and only if the thickness is not positive, or height is non-negative and width is non-negative or the height within the thickness, or height is negative and width at most minus the thickness |
| Rectangle.LineCentred | utils/image_drawing.c:87-88 | For a non-negative thickness the line is centred on the edge: 0 <= t0 <= t1 <= t0 + 1 and both make up the thickness |
| Rectangle.FillRows | utils/image_drawing.c:64-82 | A clipped row-by-row strip paints its box within the image and nothing else |
| Rectangle.FillColumns | utils/image_drawing.c:137-155 | A clipped column-by-column strip paints its box within the image and nothing else |
| Rectangle.SetPixel | utils/image_drawing.c:71-80 | Storing the pen changes exactly the bytes of one pixel |
| Rectangle.PixelBytes | utils/image_drawing.c:71-80 | The bytes of a pixel are those between its offset and the next pixel's, and they belong to no other pixel |

## Left out

- Floating-point work: the JPEG transform, quantiser scaling and colour conversion, `stbiw__linear_to_rgbe`. The JPEG model starts at integer coefficients, the HDR model at the four component planes.
- Scores, boxes and the quantisation scale are real numbers: rounding and not-a-number scores are not modelled.
- JPEG coefficients outside the baseline range (AC beyond 1023, DC difference beyond 2047) have no code word in the tables and are excluded.
- JPEG file headers and markers.
- Hdr.WriteScanline: starts at the four component planes; the channel switch and the conversion from floats before them are not modelled.
- JpegScan.WriteSegment: starts at the quantised coefficients of the blocks, in the order the macroblock loops visit them; gathering, conversion and subsampling of pixels are not modelled.
- JpegBlock.ProcessDU: starts at the reordered integer coefficients; the transform and the quantisation before it are not modelled.
- The HDR file header with its printed numbers, and scanlines outside widths 8 to 32767 beyond being written pixel by pixel.
- Files, callbacks and contexts: the callback is an append to a sequence. Failing allocation is not modelled, nor are the growth of stretchy buffers and the release of memory.
- The format strings of `stbiw__writef` are given as lists of fields with their widths.
- Buckets hold positions instead of pointers into the data; the hash table is an array of sequences.
- 32-bit signed overflow of sizes computed from caller-supplied dimensions, such as `x*n+1` times `y`; `Png.SizesFit` says when PNG sizes fit.
- PngFilter.AutomaticIsMinimal: assumes 128 times the line length is below 2^31-1, beyond which the C sum of absolute bytes overflows.
- Images of width zero are not modelled for PNG: the first-pixel loop would read past the row.
- `process_i8` and `process_fp32` (lines 203 and 325 of `postprocess.cc`), which differ in memory layout and in testing the class probability alone; the model follows `process_i8_rv1106`, and a model that is not quantised yields no candidates there.
- The anchors and strides of the three grids are parameters of the grids.
- The pen of a rectangle is given as its bytes; the YUV rectangle is one call on each of two planes and is not modelled.
- Circles, lines, text, scaling and letterboxing in `utils/`: float ratios, or the rectangle pattern again.
- Vendor media pipelines, RTSP, MQTT clients and the frame queue of `src/image_handle.cc`: calls into libraries that are not part of this model.
