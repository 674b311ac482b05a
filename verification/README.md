# Akumuli, verified

Dafny models of the parts of Akumuli, a time-series database, whose correctness is least visible from reading them:
the bundled LZ4 codec, the CRC-32C checksum, the ingestion protocol parser, the index and registry of series names,
the cursor between a query and its client, and the recovery of column metadata from the write-ahead log. `dafny verify
dfyconfig.toml` checks everything.

Loops, buffers and objects of the source are loops, arrays and classes here. Each is proved against a function that
says what it comes to, and the promises of the source are proved about those functions, over all inputs, all runs and
all interleavings.

- **LZ4 blocks** (`Lz4Format`, `Lz4DecodeSpec`, `Lz4Memory`, `Lz4Search`, `Lz4Blocks`, `Lz4Compress`,
  `Lz4Decompress`, `Lz4RoundTrip`). A block is a list of sequences with a meaning and a wire form (LZ4 Block Format
  Description). The greedy compressor is proved to write the block its search gives, within the size bound; the
  decoder, with its shortcut and its overlapping eight-byte copies, is proved to accept only wire forms and to give
  their meaning. The acceleration is shifted in 32 bits, and multiples of 2^26 stop the search from moving: every
  source comes back from compression and decoding if and only if the acceleration is not one of them, and a source of
  fourteen bytes is named that does not.
- **LZ4 frames** (`FrameSpec`, `FrameFormat`, `FrameDecoder`, `FrameSplit`). The format is a machine over single bytes
  (LZ4 Frame Format Description). The fifteen-stage decoder, fed any pieces of input and any room for output, is
  proved to be that machine, and to finish every frame it is given enough calls for. The block decoder and the XXH32
  checksum are parameters; the LZ4 block decoder is shown to qualify.
- **CRC-32C** (`Words`, `ShiftRegister`, `Crc32c`, `Crc32cSoftware`, `Crc32cMatrix`, `Crc32cHardware`). The checksum is
  a shift register over bits, with the polynomial of section 12.1 of RFC 3720. The slicing-by-eight version and the
  three-way interleaved version, with its matrices over GF(2), are proved equal to it. The instructions `crc32b` and
  `crc32q` are steps of one and eight bytes.
- **Ingestion** (`Resp`, `ReadBuffer`, `RespStream`, `RespSession`, `RespSplit`, `RespParser`, `RespWrite`,
  `RespItems`, `MemStream`). A session is a function of the pieces of its stream. The parser over its growing buffer
  is that function, and the pieces do not matter if and only if no array stands where a message has to start. Over
  what clients send, that is: no dictionary comes behind a row.
- **Index** (`Varint`, `SortedLists`, `PostingList`, `StringPool`, `StringTools`, `IndexText`, `IndexQueries`, `Index`,
  `IndexCollision`). Queries over hashed posting lists are compared with a scan of the stored names, for every hash:
  for each query the exact condition under which the two agree is proved, and that it holds without collisions. Under
  djb2, the hash of the index, two names are given on which it does not, and both kinds of query lose an answer.
- **Names and registry** (`SeriesName`, `Canonical`, `CanonicalText`, `Registry`, `Sessions`, `CompoundNames`). The
  canonical form is a normal form. Over every interleaving of sessions that resolve canonical names, names and ids stay
  one to one, every session agrees with the registry, and every new name gets its column. For names of any other kind, and for the parts of compound
  names, the exact conditions are proved under which that still holds: a backslash in front of a bar breaks it.
- **Cursor** (`CursorSpec`, `CursorRuns`, `Cursor`). Producer and reader interleave at the points where they release
  the lock; every sample is delivered once and in order. Closing a started cursor waits for its thread under the lock;
  it is proved when that can return.
- **Write-ahead log** (`WalReplay`). Folding recovery records into the rescue points only moves forward, and doing it
  twice is doing it once.

Where the code and its documentation differ, the model follows the code: a bin of the string pool has 16 MB though a
comment says 8 MB; a sample with size zero is not treated as a full sample by the cursor.

## Model

| member | source | states |
|---|---|---|
| `Lz4RoundTrip.ThereAndBack` | libakumuli/lz4/lz4.c:532-753 | compressing any source up to the size limit with any acceleration and decoding into a buffer of exactly its size gives back what the block means: the source, unless the acceleration is a multiple of 2^26, when the bytes 0 to 13 do not come back |
| `Lz4Compress.CompressFast` | libakumuli/lz4/lz4.c:736-753 | refuses sources over the limit; otherwise the output is the wire form of the block the compressor stands for at that acceleration, at most n + n/255 + 2 bytes long, never past the destination |
| `Lz4Compress.CompressGeneric` | libakumuli/lz4/lz4.c:532-733 | for both table types, every table of positions and every hash, of which only the range is known, the bytes written are the wire form of the block given by the search, and that block is conforming and as long as the source; 0 for a source too large for the type |
| `Lz4Compress.RoundTrip` | libakumuli/lz4/lz4.c:1169-1344 | whatever compression leaves, the decoder turns into the source in every buffer of at least the source's size: the end-of-block rules it checks are always met |
| `Lz4Blocks.RoundTripExact` | libakumuli/lz4/lz4.c:532-753 | every source comes back from compression and decoding if and only if the acceleration is not a multiple of 2^26 |
| `Lz4Blocks.CountingLost` | libakumuli/lz4/lz4.c:595-600 | for every such acceleration the bytes 0 to 13 are lost: they come back as nine zeros and the last five |
| `Lz4Blocks.CountingBlock` | libakumuli/lz4/lz4.c:595-600 | because they are compressed to one match at distance zero |
| `Lz4Blocks.BlockStands` | libakumuli/lz4/lz4.c:532-733 | the block given by the search is conforming and as long as the source, for every hash; it means the source, with offsets from 1 to 65535, when the acceleration keeps the search moving |
| `Lz4Blocks.Decodes` | libakumuli/lz4/lz4.c:1169-1344 | at every acceleration the decoder takes the block and gives its meaning, in every buffer large enough |
| `Lz4Compress.EmitRun` | libakumuli/lz4/lz4.c:620-707 | the sequence of a match, and those that follow it at once, leave an output that still comes to the whole block, at its cost |
| `Lz4Compress.MatchTurn` | libakumuli/lz4/lz4.c:643-707 | one match and what the table says behind it |
| `Lz4Compress.SearchTurn` | libakumuli/lz4/lz4.c:592-710 | a search and all the matches that follow from it |
| `Lz4Compress.CompressLong` | libakumuli/lz4/lz4.c:586-710 | the whole loop comes to the block of the search, up to its closing literals |
| `Lz4Blocks.MatchCompletes` | libakumuli/lz4/lz4.c:643-707 | from any match on, what is still to come completes the output to the source |
| `Lz4Blocks.SearchCompletes` | libakumuli/lz4/lz4.c:592-619 | and so it does from any search on |
| `Lz4Blocks.EndReaches` | libakumuli/lz4/lz4.c:643-666 | a match is followed to the end of its run, which leaves five bytes behind it |
| `Lz4Blocks.OneMore` | libakumuli/lz4/lz4.c:643-685 | one more sequence in front keeps the block decodable, its offsets in the window, and its expansion equal to the source |
| `Lz4Compress.SequenceCost` | libakumuli/lz4/lz4.c:624-682 | the per-sequence cost behind the size bound: 255 times the bytes written is at most 256 times the bytes consumed |
| `Lz4Compress.CloseBlock` | libakumuli/lz4/lz4.c:713-732 | the last literals complete the output, within the bound |
| `Lz4Compress.EmitSequence` | libakumuli/lz4/lz4.c:624-683 | token, literals, offset and match length are the wire form of the sequence, and the match is as long as it can be |
| `Lz4Compress.EmitMatchLength` | libakumuli/lz4/lz4.c:670-682 | four 255s at a time, with bytes scratched ahead, leave the length bytes of the format |
| `Lz4Compress.EmitPending` | libakumuli/lz4/lz4.c:624-641 | the pending literals fit, with the scratch space of the wild copy, in every bound-sized destination |
| `Lz4Compress.FindMatch` | libakumuli/lz4/lz4.c:592-619 | the loop with its growing stride and wrapping 32-bit counter is the search function, table and all |
| `Lz4Compress.CatchUp` | libakumuli/lz4/lz4.c:621-622 | the loop back over pending literals ends where the match starts to repeat |
| `Lz4Compress.Count` | libakumuli/lz4/lz4.c:416-439 | the eight-, four-, two- and one-byte comparisons give the length of the common run |
| `Lz4Blocks.CaughtUpRepeats` | libakumuli/lz4/lz4.c:621-622 | going back over pending literals keeps the match at the same distance |
| `Lz4Blocks.RunLengthRepeats` | libakumuli/lz4/lz4.c:416-439 | the common run repeats at the distance of the match |
| `Lz4Compress.NextMatch` | libakumuli/lz4/lz4.c:690-707 | a match tried right behind another is taken exactly when the table, with the position remembered, gives one within the window |
| `Lz4Search.HashPosition` | libakumuli/lz4/lz4.c:475-498 | the hash of a position is an index of the table |
| `Lz4Search.SearchFound` | libakumuli/lz4/lz4.c:592-619 | a match found repeats four bytes at a distance of at most 65535, also in 16-bit tables, where nothing checks the distance |
| `Lz4Search.SearchEarlier` | libakumuli/lz4/lz4.c:593-618 | while every table entry lies before the start, a match lies strictly before its position |
| `Lz4Search.StrideExact` | libakumuli/lz4/lz4.c:595-600 | for the hash and the table sizes of the compressor, matches always lie strictly before their position if and only if the acceleration is not a multiple of 2^26, whose shifted value is zero |
| `Lz4Search.ZeroStrideExample` | libakumuli/lz4/lz4.c:595-600 | with such an acceleration the search over the bytes 0 to 13, in a table of zeros under the real hash, makes a position match itself |
| `Lz4Format.CopyMatchUnique` | libakumuli/lz4/lz4.c:1306-1332 | an output in which each byte repeats the one at the offset is the byte-by-byte copy |
| `Lz4DecodeSpec.DecodeSound` | libakumuli/lz4/lz4.c:1205-1343 | whatever the decoder accepts is the wire form of a block, the output is that block's meaning, and it fits |
| `Lz4DecodeSpec.DecodeComplete` | libakumuli/lz4/lz4.c:1205-1343 | every conforming block that fits is accepted and decodes to its meaning |
| `Lz4DecodeSpec.ShortcutAgrees` | libakumuli/lz4/lz4.c:1213-1229 | on a sequence of the format the shortcut reads the fields the slow path reads |
| `Lz4Decompress.DecompressSafe` | libakumuli/lz4/lz4.c:1169-1352 | the return value and the output array are those of the decoding function, for every input, also malformed, and every output size; nothing outside the output is written |
| `Lz4Decompress.Turn` | libakumuli/lz4/lz4.c:1206-1333 | one turn of the loop, shortcut or not, is one step of the decoding function |
| `Lz4Decompress.CopyMatchFast` | libakumuli/lz4/lz4.c:1306-1332 | table copies below offset 8, eight-byte wild copies and the careful end leave what copying byte by byte leaves; refused exactly when the five last bytes would be eaten into |
| `Lz4Decompress.CopyFirst8` | libakumuli/lz4/lz4.c:1308-1317 | the inc32/dec64 tables put the first eight bytes right and leave a distance of at least eight that the match repeats at |
| `Lz4Decompress.WildCopyWithin` | libakumuli/lz4/lz4.c:280-287 | eight bytes at a time at a distance of at least eight reproduce the overlapping copy |
| `Lz4Decompress.CopyNearEnd` | libakumuli/lz4/lz4.c:1319-1327 | the copy within twelve bytes of the end, part wild and part byte by byte |
| `Lz4Decompress.Shortcut` | libakumuli/lz4/lz4.c:1217-1229 | two fixed-size copies give the expansion of the sequence |
| `Lz4Decompress.ReadLiteralLength` | libakumuli/lz4/lz4.c:1231-1240 | the length loop, which may look past a truncated input, reports the length or the cut |
| `Lz4Decompress.ReadMatchLength` | libakumuli/lz4/lz4.c:1268-1279 | the length loop that keeps clear of the last five bytes |
| `Lz4Decompress.SlowTurn` | libakumuli/lz4/lz4.c:1242-1265 | literals, end of block and errors off the shortcut |
| `Lz4Memory.WildCopy` | libakumuli/lz4/lz4.c:280-287 | the target gets the literals; only bytes behind them are scratched |
| `FrameSplit.DecodeFrame` | libakumuli/lz4/lz4frame.c:1217-1655 | over a valid frame, any cutting of the input and any output capacities: never an error, never a wrong byte, all of the content once the frame is used up, and it is used up by enough calls that are given something to read and room to write |
| `FrameSplit.SplitIndependent` | libakumuli/lz4/lz4frame.c:1217-1655 | two decoders driven over any one input by different calls: having used the same input they are at the same place, and what they have written and hold back is the same; the one that has used less has written a beginning of it |
| `FrameSplit.Drive` | libakumuli/lz4/lz4frame.c:1217-1655 | any sequence of calls over any input does what the byte-by-byte machine does on the bytes used; an error only where that machine finds the stream broken; of any two calls in a row with something to read and room to write, one moves |
| `FrameSplit.Call` | libakumuli/lz4/lz4frame.c:1217-1655 | one call on what is left of the input, and when it may move nothing |
| `FrameSplit.FramePrefix` | libakumuli/lz4/lz4frame.c:1217-1655 | at every point what has been written is the beginning of the content; at the end the decoder stands ready for the next frame |
| `FrameDecoders.FrameDecoder.Decompress` | libakumuli/lz4/lz4frame.c:1217-1655 | one call: state, output and pending output are those of the byte-by-byte machine, and the call ends only on used-up input, full output or a finished frame; at the start of a frame it always reads |
| `FrameDecoders.FrameDecoder.Turn` | libakumuli/lz4/lz4frame.c:1241-1618 | each stage moves the session as the format says, and makes progress |
| `FrameDecoders.FrameDecoder.GetHeader` | libakumuli/lz4/lz4frame.c:1246-1257 | the header decoded straight from the input |
| `FrameDecoders.FrameDecoder.StoreHeader` | libakumuli/lz4/lz4frame.c:1259-1273 | the header gathered over calls |
| `FrameDecoders.FrameDecoder.DecodeStored` | libakumuli/lz4/lz4frame.c:999-1083 | a gathered header is decoded, asks for the bytes it is short of, or is refused |
| `FrameDecoders.FrameDecoder.StartBlock` | libakumuli/lz4/lz4frame.c:1328-1354 | end mark, raw, compressed or oversized block |
| `FrameDecoders.FrameDecoder.GetBlockHeaderTurn` | libakumuli/lz4/lz4frame.c:1301-1310 | a block header straight from the input, or kept for later |
| `FrameDecoders.FrameDecoder.StoreBlockHeaderTurn` | libakumuli/lz4/lz4frame.c:1312-1323 | a block header gathered over calls |
| `FrameDecoders.FrameDecoder.CopyTurn` | libakumuli/lz4/lz4frame.c:1356-1389 | raw bytes go to the output as far as input, room and block reach, and into both checksums |
| `FrameDecoders.FrameDecoder.ChecksumTurn` | libakumuli/lz4/lz4frame.c:1391-1415 | the checksum behind a raw block, gathered in any pieces |
| `FrameDecoders.FrameDecoder.GetCBlockTurn` | libakumuli/lz4/lz4frame.c:1417-1426 | a compressed block straight from the input |
| `FrameDecoders.FrameDecoder.StoreCBlockTurn` | libakumuli/lz4/lz4frame.c:1428-1441 | a compressed block gathered over calls |
| `FrameDecoders.FrameDecoder.DecodeBlock` | libakumuli/lz4/lz4frame.c:1443-1504 | its checksum, its decoding, and delivery |
| `FrameDecoders.FrameDecoder.Deliver` | libakumuli/lz4/lz4frame.c:1453-1504 | decoded bytes written or held back add up to the block, whichever buffer it was decoded into |
| `FrameDecoders.FrameDecoder.FlushTurn` | libakumuli/lz4/lz4frame.c:1506-1524 | held-back output is written in order as room allows |
| `FrameDecoders.FrameDecoder.GetSuffixTurn` | libakumuli/lz4/lz4frame.c:1526-1542 | the content size is checked, then the content checksum asked for or the frame ended |
| `FrameDecoders.FrameDecoder.StoreSuffixTurn` | libakumuli/lz4/lz4frame.c:1544-1568 | the content checksum, gathered in any pieces, ends the frame or refuses it |
| `FrameDecoders.FrameDecoder.GetSFrameSizeTurn` | libakumuli/lz4/lz4frame.c:1570-1580 | the size of a skippable frame straight from the input |
| `FrameDecoders.FrameDecoder.StoreSFrameSizeTurn` | libakumuli/lz4/lz4frame.c:1582-1604 | the size of a skippable frame gathered over calls |
| `FrameDecoders.FrameDecoder.SkipTurn` | libakumuli/lz4/lz4frame.c:1606-1615 | the bytes of a skippable frame are passed over |
| `FrameDecoders.FrameDecoder.Reset` | libakumuli/lz4/lz4frame.c:958-963 | the decoder is at the start of a frame |
| `FrameSpec.RunPlus` | libakumuli/lz4/lz4frame.c:1217-1655 | the machine over two pieces is the machine over the pieces put together |
| `FrameFormat.HeaderBack` | libakumuli/lz4/lz4frame.c:565-597 | a header as it is written is read with the same flags, sizes, dictionary id and checks |
| `FrameFormat.HeaderExact` | libakumuli/lz4/lz4frame.c:999-1083 | a header is taken, and announces no content size or dictionary id of zero, if and only if it is one that is written for some frame |
| `FrameFormat.TakenIsWritten` | libakumuli/lz4/lz4frame.c:999-1083 | every field of a header that is taken is the one read from it: writing them again gives the same bytes |
| `FrameFormat.BlockBack` | libakumuli/lz4/lz4frame.c:632-651 | a block as it is written, raw or compressed, with or without checksum, is read as its content |
| `FrameFormat.EndBack` | libakumuli/lz4/lz4frame.c:859-886 | end mark and content checksum end the frame |
| `FrameFormat.FrameBack` | libakumuli/lz4/lz4frame.c:499-651 | every frame that is written is read back: its content, and the decoder ready for the next frame |
| `FrameSplit.Lz4Bounded` | libakumuli/lz4/lz4.c:1348-1352 | the block decoder of this library never writes more than it is given room for, as the frame decoder needs |
| `FrameSplit.Lz4BlockRight` | libakumuli/lz4/lz4frame.c:632-651 | what the block compressor leaves is a block the frame decoder reads as the source |
| `Crc32cHardware.ChecksumHw` | libakumuli/crc32c.cpp:227-313 | the three-way interleaved checksum is the bit-at-a-time checksum, for every start value, length and alignment |
| `Crc32cSoftware.ChecksumSw` | libakumuli/crc32c.cpp:77-106 | the slicing-by-eight checksum is the bit-at-a-time checksum, for every start value, length and alignment |
| `Crc32c.ChecksumAppend` | libakumuli/crc32c.cpp:77-106 | the checksum of a part is the start value for the next: crc(crc(c,a),b) = crc(c,a+b) |
| `Crc32c.EightBytes` | libakumuli/crc32c.cpp:89-100 | eight bytes through one table look-up each come to feeding them bit by bit |
| `Crc32c.CrcSplit` | libakumuli/crc32c.cpp:227-313 | what the start value contributes comes out shifted past the bytes, so stretches can be computed apart |
| `Crc32cSoftware.InitTables` | libakumuli/crc32c.cpp:49-72 | row k holds what each byte comes to when k more follow it |
| `Crc32cSoftware.FillFirst` | libakumuli/crc32c.cpp:53-64 | the first row, eight shifts per byte |
| `Crc32cSoftware.FillColumn` | libakumuli/crc32c.cpp:65-71 | each further row appends a zero byte |
| `Crc32cSoftware.StepEight` | libakumuli/crc32c.cpp:88-100 | one turn of the loop feeds eight bytes |
| `Crc32cMatrix.MatrixTimes` | libakumuli/crc32c.cpp:113-124 | the sum of the rows selected by the vector |
| `Crc32cMatrix.TimesAppends` | libakumuli/crc32c.cpp:113-124 | multiplying by the operator for n zero bits appends n zero bits |
| `Crc32cMatrix.MatrixSquare` | libakumuli/crc32c.cpp:129-135 | squaring an operator doubles the zeros it appends |
| `Crc32cMatrix.OneBit` | libakumuli/crc32c.cpp:142-156 | the operator for a single zero bit |
| `Crc32cMatrix.ZerosOp` | libakumuli/crc32c.cpp:142-176 | for every length, the operator that appends the zero bytes of PowerOfTwo |
| `Crc32cMatrix.PowerOfTwoIs` | libakumuli/crc32c.cpp:142-176 | which is a power of two, the largest not above the length, and one for length zero |
| `Crc32cMatrix.ZerosTables` | libakumuli/crc32c.cpp:181-193 | the operator as tables, a row for each byte of the register |
| `Crc32cMatrix.Shift` | libakumuli/crc32c.cpp:196-200 | four look-ups append the zeros |
| `Crc32cHardware.Stitch` | libakumuli/crc32c.cpp:227-313 | a register moved past a stretch of zeros plus the stretch fed on its own is the register fed both |
| `Crc32cHardware.ThreeWay` | libakumuli/crc32c.cpp:253-289 | three stretches fed to three registers a word at a time, joined by two shifts, come to feeding them in sequence |
| `Crc32cHardware.FeedBlocks` | libakumuli/crc32c.cpp:249-289 | whole blocks of either size, as long as there is one |
| `Crc32cHardware.FeedUnaligned` | libakumuli/crc32c.cpp:239-247 | single bytes up to an eight-byte boundary |
| `Crc32cHardware.FeedTail` | libakumuli/crc32c.cpp:291-309 | words, then bytes, to the end of the buffer |
| `Crc32cHardware.Tables` | libakumuli/crc32c.cpp:218-222 | the tables built for both block sizes are exact, since both are powers of two |
| `RespSplit.SplitExact` | akumulid/protocolparser.cpp:546-625 | samples written, dictionary, verdict and unconsumed tail do not depend on how the stream is cut if and only if no array stands where a message has to start |
| `RespItems.ItemsExact` | akumulid/protocolparser.cpp:546-625 | over what a client sends, dictionaries and rows in any order: the cutting does not matter if and only if no dictionary comes behind a row and behind rows that were all taken |
| `RespItems.OrderExact` | akumulid/protocolparser.cpp:546-625 | where the database takes everything, if and only if no dictionary comes behind a row |
| `RespItems.DictionariesFirst` | akumulid/protocolparser.cpp:546-625 | a client that sends its dictionaries first can be cut anywhere, whatever the database refuses |
| `RespSplit.SplitIndependent` | akumulid/protocolparser.cpp:546-625 | any cutting of a stream without such an array gives what the stream gives in one piece |
| `RespSplit.LateArrayDiffers` | akumulid/protocolparser.cpp:555-570 | cut in front of such an array, the stream comes to something else |
| `RespItems.CuttingMatters` | akumulid/protocolparser.cpp:555-570 | a row for a name with a tag and a dictionary behind it, sent as a client writes them, is a stream that depends on the cutting |
| `RespSplit.ArrayDependsOnCutting` | akumulid/protocolparser.cpp:555-570 | so does every run of complete messages with an array behind it |
| `RespParser.Parser.ParseNext` | akumulid/protocolparser.cpp:620-629 | pulling a buffer, filling it, pushing it and running the worker takes the session where the piece takes it, whatever the buffer had to do to make room |
| `RespParser.Serve` | akumulid/protocolparser.cpp:546-629 | a connection served piece by piece, up to a failure, is where the function of its pieces says; and where the whole stream in one piece would be, unless an array stands where a message has to start |
| `RespParser.Parser.Worker` | akumulid/protocolparser.cpp:546-618 | a call over all bytes not used up: dictionary arrays first, then messages, each used up or given back whole |
| `RespParser.Parser.ParseDict` | akumulid/protocolparser.cpp:228-318 | arrays one after the other up to the first other element |
| `RespParser.Parser.ReadEntries` | akumulid/protocolparser.cpp:252-312 | names and numbers of an array; an incomplete array is read again later, and its entries count once |
| `RespParser.Parser.UpdateDict` | akumulid/protocolparser.cpp:205-213 | the first definition of a number stands |
| `RespParser.Parser.ParseIds` | akumulid/protocolparser.cpp:320-374 | the ids a message is for: by name, or by a number the dictionary defines; an error for unknown ones |
| `RespParser.Parser.ParseTimestamp` | akumulid/protocolparser.cpp:166-203 | a timestamp as a number or a text |
| `RespParser.Parser.ParseValues` | akumulid/protocolparser.cpp:376-544 | one value or an array of them, matched to the ids; errors for wrong sizes and types |
| `RespParser.Parser.ReadItem` | akumulid/protocolparser.cpp:386-432 | a number for a numeric series, a text for an event series |
| `RespParser.Parser.NextMessage` | akumulid/protocolparser.cpp:563-617 | a message is used up when complete and left untouched when not |
| `RespParser.Parser.Write` | akumulid/protocolparser.cpp:585-616 | the row is written sample by sample up to the first the database refuses |
| `RespSplit.MessagesResume` | akumulid/protocolparser.cpp:563-617 | the parser picks up among the messages where it left off |
| `RespSplit.WorkTail` | akumulid/protocolparser.cpp:546-618 | what is left over is the end of what came in |
| `RespSplit.DefineTwice` | akumulid/protocolparser.cpp:205-213 | entries read twice define nothing new |
| `RespSplit.ValuesAgain` | akumulid/protocolparser.cpp:376-444 | text kept from an incomplete attempt does not change the next |
| `RespSplit.GrammarIsLawful` | akumulid/protocolparser.cpp:228-544 | no part of a message or an entry is read differently once more bytes have arrived |
| `RespWrite.RowsWritten` | akumulid/protocolparser.cpp:546-618 | rows sent by a client are the samples written: nothing lost, added, reordered or left over |
| `RespWrite.RowBack` | akumulid/protocolparser.cpp:563-583 | a row that is sent, with its time as a number or a text and a single value in an array or alone, is the message that is read |
| `RespItems.DictionaryBack` | akumulid/protocolparser.cpp:228-318 | a dictionary that is sent is the entries that are read |
| `RespItems.LineBack` | akumulid/protocolparser.cpp:252-312 | a name and its number are read back |
| `RespWrite.IntBack` | akumulid/resp.cpp:45-108 | every 64-bit number written in decimal is read back |
| `RespWrite.ArraySizeBack` | akumulid/resp.cpp:192-202 | and so is an array size |
| `RespWrite.StringBack` | akumulid/resp.cpp:110-141 | a text that fits is read back |
| `RespStream.NextKind` | akumulid/resp.cpp:16-43 | the type of the next element, or none yet |
| `RespStream.ReadDigits` | akumulid/resp.cpp:59-96 | digits up to the line end, with overflow of 64 bits and stray bytes refused |
| `RespStream.GetIntBody` | akumulid/resp.cpp:45-96 | a number line that is incomplete, too long, wrong or read |
| `RespStream.GetInt` | akumulid/resp.cpp:98-108 | an integer element |
| `RespStream.GetString` | akumulid/resp.cpp:110-141 | a simple string that fits the buffer given |
| `RespStream.GetArraySize` | akumulid/resp.cpp:192-202 | the head of an array |
| `Resp.LineGrows` | akumulid/protocolparser.cpp:69-85 | a line that was read, or was too long, is not changed by more bytes; one that was not there ends among them |
| `ReadBuffers.ReadBuffer.Pull` | akumulid/protocolparser.cpp:124-143 | room for another buffer, by moving or doubling, without touching what is kept or unread |
| `ReadBuffers.ReadBuffer.Rotate` | akumulid/protocolparser.cpp:129-135 | the kept bytes move to the front in place |
| `ReadBuffers.ReadBuffer.Push` | akumulid/protocolparser.cpp:145-149 | the piece is behind what is kept and behind what is unread |
| `ReadBuffers.ReadBuffer.Consume` | akumulid/protocolparser.cpp:114-117 | what has been read is used up |
| `ReadBuffers.ReadBuffer.Discard` | akumulid/protocolparser.cpp:119-122 | reading starts over at the last use |
| `ReadBuffers.ReadBuffer.ReadLine` | akumulid/protocolparser.cpp:69-85 | a line, or the number of bytes seen without one and nothing read |
| `ReadBuffers.ReadBuffer.Get` | akumulid/protocolparser.cpp:40-46 | the next byte, or an error at the end |
| `ReadBuffers.ReadBuffer.Pick` | akumulid/protocolparser.cpp:48-54 | the next byte without reading it, or an error at the end |
| `MemStreams.ReadBoth` | akumulid/stream.cpp:67-82 | the growing buffer and the reader over a whole input give the same lines and have the same bytes left |
| `MemStreams.MemStreamReader.ReadLine` | akumulid/stream.cpp:67-82 | a line, or the number of bytes seen without one |
| `MemStreams.MemStreamReader.Consume` | akumulid/stream.cpp:92-94 | what has been read is used up |
| `MemStreams.MemStreamReader.Discard` | akumulid/stream.cpp:96-98 | reading starts over at the last use |
| `CursorRuns.ExactlyOnce` | libakumuli/cursor.cpp:71-195 | over every interleaving, what was delivered followed by what is queued is what was put, in order; the queue is bounded and holds no empty buffer |
| `CursorRuns.DoneExact` | libakumuli/cursor.cpp:105-108 | a cursor that says it is done has delivered every sample put, and there will be no other if and only if no put is under way |
| `CursorRuns.DoneIsFinal` | libakumuli/cursor.cpp:105-132 | a started cursor that says it is done, in any run with or without close, has delivered all there will ever be: close holds the lock while it waits for the thread |
| `CursorRuns.DoneWithoutClose` | libakumuli/cursor.cpp:105-108 | without close, so has a cursor that was never started |
| `CursorRuns.CloseMayMiss` | libakumuli/cursor.cpp:125-132 | with close such a cursor need not: a run in which a sample is put after it was done |
| `CursorRuns.CloseExact` | libakumuli/cursor.cpp:125-132 | a close that waits for the thread can return if and only if the thread is not inside a call that needs the lock |
| `CursorRuns.CloseDeadlocks` | libakumuli/cursor.cpp:125-132 | closing a started cursor while a put is under way is a run in which it cannot, and the sample is never put |
| `CursorRuns.ErrorDeadlocks` | libakumuli/cursor.cpp:136-150 | so is a query that reports an error once the cursor is being closed |
| `CursorRuns.StuckForever` | libakumuli/cursor.cpp:125-132 | then nothing moves any more, whatever the threads try |
| `CursorRuns.StepKeeps` | libakumuli/cursor.cpp:71-195 | every action of either thread keeps the invariant |
| `CursorSpec.PutKeeps` | libakumuli/cursor.cpp:160-190 | a sample that fits a buffer is appended, or waits exactly when the queue is full and its last buffer has no room |
| `CursorSpec.PutExact` | libakumuli/cursor.cpp:160-190 | no empty buffer is left behind if and only if the sample is no larger than a buffer |
| `CursorSpec.PutTooBig` | libakumuli/cursor.cpp:160-190 | a larger sample is never written and fills the queue with empty buffers |
| `CursorSpec.ReadKeeps` | libakumuli/cursor.cpp:71-103 | what is copied is the front of the queue, the room is accounted for, and a read waits only on an empty queue that is not done |
| `CursorSpec.ReadEndsOnlyWhenFull` | libakumuli/cursor.cpp:71-103 | a read that returns has no room for the next sample, or has emptied a finished queue |
| `CursorSpec.FitIsMost` | libakumuli/cursor.cpp:53-69 | as many whole samples as fit, and not one more |
| `ConcurrentCursors.SampleCpy` | libakumuli/cursor.cpp:53-69 | the bytes of exactly the whole samples that fit |
| `ConcurrentCursors.BufferT.Take` | libakumuli/cursor.cpp:79-95 | whole samples leave the front of a buffer |
| `ConcurrentCursors.ConcurrentCursor.PutStretch` | libakumuli/cursor.cpp:160-190 | put between two wake-ups |
| `ConcurrentCursors.ConcurrentCursor.ReadStretch` | libakumuli/cursor.cpp:71-103 | read between two wake-ups: the bytes copied out are those of the samples the queue gives up |
| `ConcurrentCursors.ConcurrentCursor.IsDone` | libakumuli/cursor.cpp:105-108 | done means finished and emptied |
| `ConcurrentCursors.ConcurrentCursor.Finish` | libakumuli/cursor.cpp:192-195 | complete ends the query and leaves the queue alone; close does the same before it waits |
| `ConcurrentCursors.ConcurrentCursor.SetError` | libakumuli/cursor.cpp:136-150 | an error ends the query and leaves the queue alone |
| `IndexQueries.AllTagsExact` | libakumuli/index/invertedindex.cpp:593-600 | for every hash, the query gives what a scan of the stored names gives if and only if no name that only shares keys with the pairs gets in the way |
| `IndexQueries.AllTagsGives` | libakumuli/index/invertedindex.cpp:593-600 | the query gives the names with the metric under all the keys, or nothing if one of them has none of the pairs |
| `IndexQueries.AllTagsIsScan` | libakumuli/index/invertedindex.cpp:593-600 | without collisions it always does, in increasing order and without repeats; metrics may collide |
| `IndexQueries.AllTagsOfNone` | libakumuli/index/invertedindex.h:543-582 | without a pair the query gives nothing |
| `IndexCollisions.CollisionLoses` | libakumuli/index/invertedindex.h:543-582 | under the hash of the index, two names whose tags end in az and bY: asked for the first tag the query loses the name that has it, and asked for all but it the query loses the other |
| `IndexCollisions.TwoNames` | libakumuli/index/invertedindex.cpp:593-600 | an index with the names m k=az and m k=bY in it answers both questions with nothing |
| `IndexCollisions.AllTagsLoses` | libakumuli/index/invertedindex.h:562-579 | for every hash and every two tags it puts under one key |
| `IndexCollisions.ExcludeLoses` | libakumuli/index/invertedindex.cpp:674-681 | the same for excluded pairs |
| `StringTools.AlwaysCollide` | libakumuli/index/stringpool.cpp:200-212 | texts that differ only in ending with az or bY always have the same hash |
| `StringTools.Hash` | libakumuli/index/stringpool.cpp:200-212 | the loop over signed characters is djb2 modulo 2^64 |
| `IndexQueries.ExcludeExact` | libakumuli/index/invertedindex.cpp:674-681 | the query gives what the scan gives if and only if each name it leaves out by a key has one of the pairs |
| `IndexQueries.ExcludeGives` | libakumuli/index/invertedindex.cpp:674-681 | the query gives the names with the metric under none of the keys |
| `IndexQueries.ExcludeIsScan` | libakumuli/index/invertedindex.cpp:674-681 | without collisions it always does |
| `IndexQueries.ManyToManyExact` | libakumuli/index/invertedindex.cpp:606-647 | the query gives what the scan gives if and only if it looks for no value, or no name that only shares keys gets in the way |
| `IndexQueries.ManyToManyIsScan` | libakumuli/index/invertedindex.cpp:606-647 | without collisions it gives the names with the metric that have one of the values for each tag |
| `IndexQueries.TagPostingIs` | libakumuli/index/invertedindex.cpp:58-72 | after any sequence of appends a list holds, in order, the ids of the names with a tag under its key |
| `IndexQueries.FilterOneIs` | libakumuli/index/invertedindex.h:584-609 | exactly the ids that pass, in order |
| `IndexQueries.AllOrNothing` | libakumuli/index/invertedindex.h:543-582 | the filter over several checks lets everything through, or nothing |
| `Indexes.Index.Append` | libakumuli/index/invertedindex.cpp:829-862 | the canonical form is looked up, and filed if new; names filed before keep their ids, and the lists stay those of the names filed |
| `Indexes.Index.Insert` | libakumuli/index/invertedindex.cpp:838-861 | a new name is in the pool, the table and the lists of its metric and tags |
| `Indexes.Index.WriteTags` | libakumuli/index/invertedindex.cpp:58-72 | the id goes under the key of each word |
| `Indexes.Index.QueryAllTags` | libakumuli/index/invertedindex.cpp:593-600 | the loops over posting lists and stored texts give what the scan gives, without collisions |
| `Indexes.Index.QueryManyToMany` | libakumuli/index/invertedindex.cpp:613-647 | the same for groups of values |
| `Indexes.Index.QueryExclude` | libakumuli/index/invertedindex.cpp:674-681 | the same for excluded pairs |
| `Indexes.Index.FilterMetric` | libakumuli/index/invertedindex.h:584-609 | checking stored texts leaves the names with the metric |
| `Indexes.Index.FilterPairs` | libakumuli/index/invertedindex.h:543-582 | the rewriting pass over several checks adds nothing |
| `Indexes.Index.TextAt` | libakumuli/index/invertedindex.cpp:488-492 | the text stored under an id has the words of the name filed under it |
| `IndexText.CheckMetric` | libakumuli/index/invertedindex.cpp:406-420 | the first word is the metric |
| `IndexText.CheckTag` | libakumuli/index/invertedindex.cpp:446-475 | one of the words behind the first is the tag |
| `IndexText.WordsOfName` | libakumuli/index/invertedindex.cpp:58-89 | the words of a stored text are the metric and the tags |
| `IndexText.StoredParts` | libakumuli/index/invertedindex.cpp:829-862 | the canonical form of a plain name is made of words and has no zero in it |
| `SortedLists.MeetIs` | libakumuli/index/invertedindex.cpp:272-278 | members of both lists, in order, also where lists repeat values |
| `SortedLists.JoinIs` | libakumuli/index/invertedindex.cpp:280-286 | members of either list, in order |
| `SortedLists.WithoutIs` | libakumuli/index/invertedindex.cpp:288-294 | members of the first list that are not in the second |
| `SortedLists.UniqueIs` | libakumuli/index/invertedindex.cpp:296-300 | the same members, each once |
| `PostingLists.ToSeq` | libakumuli/index/invertedindex.cpp:135-191 | iterating over a list gives what was added to it, any 64-bit values in any order |
| `PostingLists.CompressedPList.Add` | libakumuli/index/invertedindex.cpp:251-255 | the value is behind those added before |
| `PostingLists.CompressedPList.PutBytes` | libakumuli/index/invertedindex.h:108-122 | the bytes of a value go behind the others |
| `PostingLists.Iterator.Advance` | libakumuli/index/invertedindex.cpp:185-191 | the next value of the list |
| `PostingLists.Iterator.Read` | libakumuli/index/invertedindex.h:318-323 | the next difference is read and added |
| `PostingLists.Iterator.ReadVarint` | libakumuli/index/invertedindex.h:83-103 | the value of a varint, and the position behind it |
| `PostingLists.Intersection` | libakumuli/index/invertedindex.cpp:272-278 | a new list holds the values common to both |
| `PostingLists.Union` | libakumuli/index/invertedindex.cpp:280-286 | a new list holds the values of either |
| `PostingLists.Difference` | libakumuli/index/invertedindex.cpp:288-294 | a new list holds the values only in the first |
| `PostingLists.UniqueCopy` | libakumuli/index/invertedindex.cpp:296-300 | a new list without repeats |
| `Varint.GetPut` | libakumuli/index/invertedindex.h:83-122 | a 64-bit value written is read back, and exactly its own bytes are used |
| `Varint.PlusMinus` | libakumuli/index/invertedindex.h:264-268 | differences wrap modulo 2^64 and are undone by adding |
| `Varint.StoredFirst` | libakumuli/index/invertedindex.h:318-323 | the first value of a stored list, and the bytes of the others |
| `StringPools.StringPool.Add` | libakumuli/index/stringpool.cpp:138-166 | ids are not zero and only grow, across bins; every string added before stays |
| `StringPools.StringPool.Str` | libakumuli/index/stringpool.cpp:168-181 | an id gives back its string up to the first zero, in every later state; nothing outside the pool |
| `StringPools.FoundAgain` | libakumuli/index/stringpool.cpp:174-176 | a string is found again if and only if it has no zero in it |
| `StringPools.KeptMore` | libakumuli/index/stringpool.cpp:150-166 | a string put behind the others moves none of them |
| `Canonical.FixedPoint` | libakumuli/index/seriesparser.cpp:389-488 | a canonical form is its own canonical form, even with trailing backslashes |
| `Canonical.NoLonger` | libakumuli/index/seriesparser.cpp:389-488 | a canonical form is no longer than the name |
| `Canonical.SameTagsSameForm` | libakumuli/index/seriesparser.cpp:389-488 | the same metric and the same tags in any order have the same canonical form |
| `Canonical.SortedUnique` | libakumuli/index/seriesparser.cpp:446-475 | tags with distinct names have one order, however they are sorted |
| `Canonical.SortSorts` | libakumuli/index/seriesparser.cpp:446-475 | the tags, in the order of their names |
| `CanonicalText.OrderAndBlanks` | libakumuli/index/seriesparser.cpp:389-488 | names that differ only in tag order and blanks have the same canonical form |
| `CanonicalText.TextParses` | libakumuli/index/seriesparser.cpp:389-444 | however it is spaced, a name has the parts it was typed with |
| `CanonicalText.ToCanonicalForm` | libakumuli/index/seriesparser.cpp:389-488 | the scan writes the canonical form, or reports the error, for every input and buffer |
| `CanonicalText.ScanTags` | libakumuli/index/seriesparser.cpp:421-444 | at most 32 tags, each checked; what is behind them is not looked at |
| `CanonicalText.CopyUntil` | libakumuli/index/seriesparser.cpp:327-351 | a token ends at the first space that no backslash escapes |
| `CanonicalText.SkipTag` | libakumuli/index/seriesparser.cpp:353-387 | a tag, refused exactly when it has no name or no equals sign |
| `CanonicalText.SortPred` | libakumuli/index/seriesparser.cpp:446-472 | for two different tags, the comparison is the order of their names, shorter first; the code says yes to a tag compared with itself, which the sort does not depend on here |
| `Registry.AnswersAgree` | libakumuli/storage2.cpp:206-255 | over every interleaving of any number of sessions, equal names get equal ids, distinct names distinct ids, and ids are negative exactly for names starting with a bang |
| `Registry.CachesAgree` | libakumuli/storage2.cpp:222-253 | over every interleaving, what a session knows is what the registry says, and the two tables of the registry are inverse |
| `Registry.ColumnsCreated` | libakumuli/storage2.cpp:1303-1309 | over every interleaving, with the column of a new name created outside the lock, no creation fails: the id of a new name is one that no column has and no other session is about to create |
| `Registry.StepKeeps` | libakumuli/storage2.cpp:1290-1313 | every action of every session keeps all of this |
| `Registry.AddKeeps` | libakumuli/index/seriesparser.cpp:48-68 | a new canonical name gets an id no other name has; the tables stay inverse |
| `Registry.ResolveKeeps` | libakumuli/storage2.cpp:1290-1313 | a name is found, or added and then found; names known before keep their ids |
| `Registry.ResolveExact` | libakumuli/storage2.cpp:1290-1313 | resolving any name, canonical or not, keeps the registry consistent if and only if the name is known, or is accepted under a new name that is an event exactly when it is, or is refused and not an event |
| `Registry.AddExact` | libakumuli/index/seriesparser.cpp:48-68 | the same for what add does with each outcome of the canonical form |
| `Registry.AfterRefusedEvent` | libakumuli/index/seriesparser.cpp:48-68 | behind a refused event the counter runs up from below zero: the next two names that are not events get negative ids, the second of them the id of the last event |
| `Registry.OneToOne` | libakumuli/index/seriesparser.cpp:87-106 | ids are equal if and only if names are |
| `Sessions.SeriesMatcher.AddName` | libakumuli/index/seriesparser.cpp:48-68 | tables and counter after adding a name |
| `Sessions.SeriesMatcher.Find` | libakumuli/storage2.cpp:1290-1302 | the id of a name, added if need be, and whether it was |
| `Sessions.ColumnStore.CreateNewColumn` | libakumuli/storage_engine/column_store.cpp:115-128 | fails, without effect, exactly when the id has a column |
| `Sessions.StorageSession.AskStorage` | libakumuli/storage2.cpp:1290-1313 | a name new to the registry gets a column and is noted by the session; when its id has a column already there is no answer and nothing is noted, though the registry keeps the name |
| `CompoundNames.CompoundExact` | libakumuli/storage2.cpp:257-388 | every id of a compound name is what the registry says for that part's own name if and only if no part is empty, starts with a tab, or ends in a backslash while every tag but the last does too |
| `CompoundNames.SoundIsCanonical` | libakumuli/storage2.cpp:316-348 | a sound part with the tags is a canonical name |
| `CompoundNames.NotShaped` | libakumuli/storage2.cpp:316-348 | a part that is not sound makes a text that is no canonical form |
| `CompoundNames.BackslashNames` | libakumuli/storage2.cpp:316-348 | a compound name with a backslash in front of its bar is canonical, and its first part is refused |
| `CompoundNames.LostPart` | libakumuli/storage2.cpp:332-388 | in every state of a session and its storage such a name is taken; its first part gets the id zero if zero has no column, and is left without an id from then on |
| `CompoundNames.SharedId` | libakumuli/storage2.cpp:206-388 | in a new database, whatever number it starts at: after an event and such a compound name of events, the next name fails to get a column because it gets the id of the event; the registry then has one id for both names, and gives it when the name is asked for again |
| `Sessions.ResolveNamesSays` | libakumuli/storage2.cpp:332-385 | each of several names gets the id it would get alone |
| `Sessions.StorageSession.GetSeriesIds` | libakumuli/storage2.cpp:257-388 | an id for each metric, in order, or none where a column could not be created, which is not reported; refused without any effect when there are more than fit |
| `Sessions.StorageSession.NextName` | libakumuli/storage2.cpp:332-348 | a metric right-aligned in front of the tags, inside the shared buffer, which keeps the tags |
| `Sessions.StorageSession.InitSeriesId` | libakumuli/storage2.cpp:206-255 | the id of one name, or an error where its column could not be created; a bad name changes nothing |
| `WalReplay.ReplayIdempotent` | libakumuli/storage2.cpp:610-677 | replaying a log on its own result changes nothing |
| `WalReplay.ReplayMonotone` | libakumuli/storage2.cpp:610-642 | over any log a list that is not empty never shrinks and its highest address never falls |
| `WalReplay.ReplayAt` | libakumuli/storage2.cpp:656-667 | replay works on each known column by itself and leaves the others alone |
| `WalReplay.Recovery.VisitRow` | libakumuli/storage2.cpp:610-642 | a record replaces the list of its column exactly under the merge rule |
| `WalReplay.Recovery.Recover` | libakumuli/storage2.cpp:656-677 | the loop over the log is the fold of its records |

## Left out

- Block and column stores, NB+tree, query plans, servers, logging and SQL metadata: not modelled; their answers are parameters where a modelled operation needs them.
- LZ4 limited output, the variant that fills a given size, dictionaries, partial decoding, tables of addresses and HC mode: not modelled.
- Lz4Decompress.DecompressSafe: a refused input gives a negative number; which one is not modelled.
- Lz4Compress.CompressFast: states the result only for destinations of at least the bound; the limited-output path is not modelled.
- FrameDecoders.FrameDecoder.Decompress: errors are one outcome, size hints and failed allocations are not modelled, and a frame with linked blocks stops at its header.
- FrameFormat.FrameBack: frames with linked blocks are not written.
- LZ4F_compressUpdate and LZ4F_flush, which cut the content into blocks: any list of blocks may be written.
- Crc32cHardware.ChecksumHw: registers are numbers below 2^32; the upper half of the 64-bit register is always zero.
- RespParser.Parser.ParseNext: series names, timestamps, decimal numbers and refusals of the database are functions given to the session; rounding of floating point numbers is not modelled.
- RespStream.GetString: for an empty line the code also looks at the byte in front of its buffer, which the model takes not to be a carriage return.
- RESP bulk strings, error elements and the OpenTSDB protocol: not modelled.
- MemStreams.MemStreamReader.ReadLine: of the reader over a whole input only lines, consume and discard are modelled.
- CursorRuns.ExactlyOnce: one producer and one reader; samples state a size of at least their header and at most a buffer, and larger ones are the subject of PutExact. Nothing is claimed about waiting threads being woken.
- CursorRuns.CloseExact: the thread of a started cursor is the producer; that a query cut short by close would stop producing is not modelled.
- Indexes.Index.Append: names without backslash, tab and zero, which the index's own tokenizer reads as the canonical form does. Posting lists inside the index are their contents; PostingLists proves the encoding.
- PostingLists.CompressedPList.Add: copies of a list, which start their differences anew, are only read.
- JoinByTags, IncludeIfHasTag, name topology, count-min sketch: not modelled.
- Canonical.FixedPoint: for distinct tag names, since the order of equal ones is left to the sorting algorithm. Names with more than 32 tags lose those behind the 32nd, as in the code.
- Canonical.SameTagsSameForm: for distinct tag names, for the same reason.
- CanonicalText.ToCanonicalForm: sorts by insertion where the code calls std::sort; SortedUnique shows that distinct names have one order.
- Registry.AnswersAgree: sessions resolve canonical names, which AfterRefusedEvent and SharedId show to be needed; names loaded before are any consistent registry, with ids below the counter. The input log, and writing to a column that another session has yet to create, are not modelled.
- CompoundNames.CompoundExact: for distinct tag names, and a registry that holds canonical forms only, as every registry built by it does.
- Sessions.StorageSession.GetSeriesIds: an id that the code leaves unset is none; what lies in memory there is not modelled.
- CompoundNames.LostPart: shown for parts without blanks and with the one tag t=1, and so is SharedId; CompoundExact covers the rest.
- CanonicalText.SortPred: the answer for a tag compared with itself is not modelled.
- RespItems.ItemsExact: for names and texts that fit a line, numbers that fit 64 bits, and rows whose values suit their series; a number sent alone to an event series, which writes the text kept from before, and other streams are the subject of RespSplit.SplitExact.
- WalReplay.ReplayIdempotent: the known names are fixed; name records, which add to them, and data points are not modelled.
