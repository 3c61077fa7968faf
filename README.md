# The vlc compressor of archivist, modelled in Dafny

archivist packs text with a variable-length code (the "vlc" compressor). The code table
comes from a Shannon-Fano generator. Each character of the text is replaced by its code,
a string of '0'/'1' digits. The digits are packed eight to a byte. The result is written as
a container with this layout:

- a 4-byte big-endian table length;
- a 4-byte big-endian bit count;
- the serialised table;
- the packed payload.

Unpacking reverses each step. This project models the core of that pipeline in four
modules.

- `Binary` (binary.dfy) holds the shared vocabulary:
  - bytes;
  - `Option` and `Result`;
  - '0'/'1' digit strings and their unsigned value;
  - `BinDigits`, Go's `%0*b` at a given width.
- `Chunks` (chunks.dfy) is the bit-chunk codec of `lib/compression/vlc/chunks.go`.
  - `NewBinChunk` and `NewBinChunks` turn bytes into 8-digit chunks.
  - `Byte` and `Bytes` turn chunks into bytes.
  - `Join` concatenates chunks.
  - `splitByChanks` cuts a bit string into fixed-width chunks and pads the last one with '0'.
  - Each loop of the source is a method proved equal to a specification function. The
    properties are proved about those functions: the round trips, the number and width of
    chunks, and the padding.
- `Vlc` (vlc.dfy) is the container codec of `lib/compression/vlc/vlc.go`:
  - `bin` and `encodeBin`;
  - `encodeInt` and `binary.BigEndian.Uint32`;
  - `buildEndocdedFile` and `parseFile`;
  - `exportText`.

  The main theorem is `Vlc.ParseEncodedFile`. `parseFile` gives back exactly the table and
  the bit string that `buildEndocdedFile` packed. This holds provided the table
  serialisation round-trips.
- `ShannonFano` (shannon_fano.dfy) is the Shannon-Fano table builder of the package
  `lib/compression/vlc/table/shannon_fano`.
  - The package's implementation is not modelled; `bestDvividerPosition`, `assingCodes`
    and `build` are reconstructed from its test file, shannon_fano_test.go.
  - `bestDvividerPosition` is a left-to-right scan over prefix sums. It stops at the first
    cut that does not improve on the one before.
  - `assingCodes` is a recursive bipartition that works in place on an array. Going left
    appends a 0 bit and going right appends a 1 bit.
  - `build` counts characters, sorts the records by descending quantity, assigns the codes
    and keys the records by character.
  - All test vectors are proved.
  - It is also proved that the divider is optimal and the resulting code is prefix-free.

Error handling follows the source's failure points; each becomes an `Err` value:

- the panics of `Byte` and `bin`;
- slices out of range in `parseFile`;
- the `log.Fatal` of table decoding.

The gob serialisation of the table is a foreign library. It appears as a pair of function
parameters, `serialize` and `decodeTable`.

## Model

| member | source | states |
|---|---|---|
| Binary.ValueOfBinDigits | lib/compression/vlc/chunks.go:26-28 | reading back the `%0*b` rendering of a number that fits the width gives the number |
| Binary.BinDigitsOfValue | lib/compression/vlc/chunks.go:40-47 | rendering the value of a '0'/'1' string at its own width gives the string back |
| Chunks.NewBinChunk | lib/compression/vlc/chunks.go:26-28 | the chunk of a byte is exactly 8 characters, all '0'/'1', whose base-2 value is the byte |
| Chunks.Byte | lib/compression/vlc/chunks.go:40-47 | parsing succeeds iff the chunk is non-empty, all '0'/'1' and of value below 256, and the result is that value; read left to right as `strconv.ParseUint(s, 2, 8)` does, the error is a range error exactly when the '0'/'1' digits before the first other character are worth 256 or more, and a syntax error otherwise (also for the empty chunk) |
| Chunks.ParseBitsSpec | lib/compression/vlc/chunks.go:40-47 | the digit loop from running value n succeeds on a '0'/'1' string worth less than 256 with that value, stops with a range error exactly when its '0'/'1' prefix reaches 256, and with a syntax error otherwise |
| Chunks.ValueFromZero | lib/compression/vlc/chunks.go:40-47 | reading the digits front to back from 0, as the digit loop does, gives the string's base-2 value |
| Chunks.ByteRangeFirst | lib/compression/vlc/chunks.go:40-47 | "111111111x" is a range error: nine 1s overflow before the bad character is read |
| Chunks.ByteSyntaxExamples | lib/compression/vlc/chunks.go:40-47 | "1x" and the empty chunk are syntax errors |
| Chunks.ByteOfNewBinChunk | lib/compression/vlc/chunks.go:26-47 | `Byte(NewBinChunk(b)) == Ok(b)` for every byte |
| Chunks.NewBinChunkOfByte | lib/compression/vlc/chunks.go:26-47 | every 8-digit '0'/'1' chunk parses, and rendering the byte gives the chunk back |
| Chunks.ChunksOf | lib/compression/vlc/chunks.go:16-24 | one chunk per byte, in order: element i is `NewBinChunk(data[i])` |
| Chunks.NewBinChunks | lib/compression/vlc/chunks.go:16-24 | the append loop yields as many chunks as bytes, element i being the chunk of byte i |
| Chunks.BytesOf | lib/compression/vlc/chunks.go:30-38 | the conversion succeeds iff every chunk parses, and then has one byte per chunk, element i being the parse of chunk i |
| Chunks.BytesOfFirstError | lib/compression/vlc/chunks.go:30-47 | the first chunk that fails to parse decides the failure |
| Chunks.Bytes | lib/compression/vlc/chunks.go:30-38 | the append loop, stopping at the first failing chunk, computes `BytesOf` |
| Chunks.Join | lib/compression/vlc/chunks.go:50-58 | the builder loop computes the in-order concatenation `Flatten` |
| Chunks.FlattenLength | lib/compression/vlc/chunks.go:50-58 | the joined string is as long as all chunks together |
| Chunks.FlattenAppend | lib/compression/vlc/chunks.go:50-58 | joining two lists of chunks one after the other is concatenating their joins |
| Chunks.FlattenUniform | lib/compression/vlc/chunks.go:50-58 | n chunks of width k join to k*n characters |
| Chunks.FlattenInjective | lib/compression/vlc/chunks.go:50-58 | two lists of width-k chunks with the same join are equal |
| Chunks.FlattenBinary | lib/compression/vlc/chunks.go:50-58 | joining '0'/'1' chunks gives a '0'/'1' string |
| Chunks.PadLenOfRem | lib/compression/vlc/chunks.go:84-90 | the padding of an n-character string is `(k - n mod k) mod k` zeros |
| Chunks.SplitShape | lib/compression/vlc/chunks.go:62-93 | splitting gives ceil(\|s\|/k) chunks, each exactly k characters |
| Chunks.SplitJoin | lib/compression/vlc/chunks.go:75-90 | joining the chunks gives s followed by its padding zeros, so its first \|s\| characters are s |
| Chunks.SplitCharacterization | lib/compression/vlc/chunks.go:62-93 | the split is the only list of width-k chunks that joins to s plus its padding |
| Chunks.SplitBinary | lib/compression/vlc/chunks.go:62-93 | the chunks of a '0'/'1' string are '0'/'1' strings |
| Chunks.SplitByChunks | lib/compression/vlc/chunks.go:62-93 | the loop that flushes the builder every k characters and pads the rest computes `Split` |
| Chunks.ChunksOfBytesOf | lib/compression/vlc/chunks.go:16-47 | 8-wide '0'/'1' chunks parse, and rendering the bytes gives the same chunks |
| Chunks.RepackIdentity | lib/compression/vlc/chunks.go:16-93 | for a '0'/'1' string, rendering the packed bytes and joining gives the joined split |
| Chunks.PackOkIffBinary | lib/compression/vlc/chunks.go:30-93 | packing a string into bytes succeeds exactly when it is a '0'/'1' string |
| Chunks.UnpackShape | lib/compression/vlc/chunks.go:16-58 | unpacking n bytes gives 8n '0'/'1' characters |
| Chunks.SplitExample | lib/compression/vlc/chunks_test.go:18-29 | the 18-digit test string splits into "00100010", "01101001", "01000000" |
| Chunks.JoinExamples | lib/compression/vlc/chunks_test.go:46-55 | both join vectors, including the one with a short last chunk |
| Chunks.NewBinChunkExamplesLow | lib/compression/vlc/chunks_test.go:72-76 | 20 and 18 render as "00010100" and "00010010" |
| Chunks.NewBinChunkExamplesHigh | lib/compression/vlc/chunks_test.go:72-76 | 30 and 60 render as "00011110" and "00111100" |
| Chunks.NewBinChunksExample | lib/compression/vlc/chunks_test.go:72-76 | bytes 20, 30, 60, 18 give the four expected chunks |
| Vlc.Uint32 | lib/compression/vlc/vlc.go:49-50 | the big-endian value of four bytes is below 2^32 |
| Vlc.EncodeInt | lib/compression/vlc/vlc.go:74-79 | four bytes whose big-endian value is the number modulo 2^32 |
| Vlc.EncodeIntOfUint32 | lib/compression/vlc/vlc.go:74-79 | every 4-byte header is the encoding of the number it denotes |
| Vlc.Bin | lib/compression/vlc/vlc.go:114-121 | the lookup succeeds iff the character is in the table, gives its code, and otherwise fails naming the character |
| Vlc.CodeList | lib/compression/vlc/vlc.go:104-112 | for a text the table covers, element i is the code of character i |
| Vlc.FirstUnknown | lib/compression/vlc/vlc.go:104-121 | the position where `bin` panics: the first character missing from the table |
| Vlc.Encoded | lib/compression/vlc/vlc.go:104-121 | encoding succeeds iff every character has a code; a failure names a character of the text that the table lacks |
| Vlc.EncodedAppend | lib/compression/vlc/vlc.go:104-112 | the encoding of a concatenation is the concatenation of the encodings |
| Vlc.EncodedShape | lib/compression/vlc/vlc.go:104-112 | the encoding is as long as the codes together, and is '0'/'1' when every code is |
| Vlc.EncodeBin | lib/compression/vlc/vlc.go:104-112 | the builder loop over the text computes `Encoded`, including the panic on the first unknown character |
| Vlc.EncodedFile | lib/compression/vlc/vlc.go:61-72 | the container exists iff the data is '0'/'1'; it is 8 + table + ceil(bits/8) bytes long, its headers hold the table length and bit count modulo 2^32, then come the table bytes, then the bytes of the 8-bit chunks of the data |
| Vlc.BuildEncodedFile | lib/compression/vlc/vlc.go:61-72 | the sequence of buffer writes produces `EncodedFile` of the serialised table |
| Vlc.ParseFile | lib/compression/vlc/vlc.go:41-59 | fewer than 8 bytes fail; otherwise parsing succeeds iff the table fits, decodes, and the bit count fits the unpacked payload, and then gives the decoded table and that many '0'/'1' characters |
| Vlc.ParseFileOk | lib/compression/vlc/vlc.go:41-59 | when every slice is in range, the result is the decoded table and the unpacked payload cut to the bit count |
| Vlc.ParseEncodedFile | lib/compression/vlc/vlc.go:41-72 | parseFile undoes buildEndocdedFile: same table and the exact bit string, for '0'/'1' data and lengths below 2^32 |
| Vlc.PayloadRoundTrip | lib/compression/vlc/vlc.go:41-72 | the packed bytes of a '0'/'1' string unpack to at least as many digits, the first of which are the string |
| Vlc.EncodedFileHeaders | lib/compression/vlc/vlc.go:41-72 | lengths below 2^32 are read back from the two headers unchanged |
| Vlc.TruncatedFileFails | lib/compression/vlc/vlc.go:41-72 | a container with a non-empty payload that loses its last byte fails to parse |
| Vlc.Exported | lib/compression/vlc/vlc.go:127-150 | exporting never lengthens the text |
| Vlc.ExportText | lib/compression/vlc/vlc.go:127-150 | the loop with the `isCapital` flag computes `Exported`: "!" then c gives upper-case c, a final lone "!" is dropped, all else is copied |
| Vlc.ExportedWithoutMarks | lib/compression/vlc/vlc.go:140-146 | text without "!" is exported unchanged |
| Vlc.Marked | lib/compression/vlc/vlc.go:123-126 | the marking that exportText is described as undoing (`prepareText`, reconstructed from that comment; ASCII capitals only) never shortens the text |
| Vlc.ExportedMarked | lib/compression/vlc/vlc.go:123-150 | exporting the marked form of a text without "!" gives the text back |
| Vlc.MarkedAppend | lib/compression/vlc/vlc.go:123-126 | marking distributes over concatenation |
| Vlc.MarkedWithoutCapitals | lib/compression/vlc/vlc.go:123-126 | text without capital letters is its own marked form |
| Vlc.MarkedExample | lib/compression/vlc/vlc.go:126 | "My name is Ted" is marked as "!my name is !ted" |
| Vlc.ExportedExample | lib/compression/vlc/vlc.go:126 | "!my name is !ted" exports to "My name is Ted" |
| ShannonFano.BestDividerPosition | lib/compression/vlc/table/shannon_fano/shannon_fano_test.go:8-56 | 0 for fewer than two records, otherwise a cut strictly inside the list |
| ShannonFano.DividerScan | lib/compression/vlc/table/shannon_fano/shannon_fano_test.go:8-56 | the scan from cut i ends at a cut from i to the last valid one |
| ShannonFano.CrossingIsFinal | lib/compression/vlc/table/shannon_fano/shannon_fano_test.go:19-47 | once moving the cut right stops reducing the imbalance, no later cut beats the current one |
| ShannonFano.DividerScanOptimal | lib/compression/vlc/table/shannon_fano/shannon_fano_test.go:19-47 | the scan keeps the invariant that every earlier cut is strictly worse, and ends at a best cut |
| ShannonFano.BestDividerBalances | lib/compression/vlc/table/shannon_fano/shannon_fano_test.go:19-47 | with positive quantities the chosen cut minimises \|right sum - left sum\| and is the smallest such cut |
| ShannonFano.DividerExamples | lib/compression/vlc/table/shannon_fano/shannon_fano_test.go:14-47 | the four vectors: [2] -> 0, [2,2] -> 1, [2,1,1] -> 1, [2,2,1,1,1,1] -> 2 |
| ShannonFano.Assign | lib/compression/vlc/table/shannon_fano/shannon_fano_test.go:58-111 | code assignment keeps the number of records |
| ShannonFano.AssignKeepsRecords | lib/compression/vlc/table/shannon_fano/shannon_fano_test.go:58-111 | every record keeps its position, character and quantity; only Bits and Size change |
| ShannonFano.ExtendCodes | lib/compression/vlc/table/shannon_fano/shannon_fano_test.go:58-111 | one level in place: the range gets one more bit (0 before the cut, 1 from it), the rest of the array is untouched |
| ShannonFano.AssignCodes | lib/compression/vlc/table/shannon_fano/shannon_fano_test.go:104-106 | in place on a[lo..hi]: that range becomes `Assign` of its old contents, and everything outside it is unchanged |
| ShannonFano.AssignSteps | lib/compression/vlc/table/shannon_fano/shannon_fano_test.go:58-111 | the one-bit extension of a range, then coding its 0-side, then its 1-side, equals coding the whole range |
| ShannonFano.AssignPrefixFree | lib/compression/vlc/table/shannon_fano/shannon_fano_test.go:65-100 | starting from one common code, every result extends it and fits its width, and no record's code is a prefix of another's |
| ShannonFano.JoinHalves | lib/compression/vlc/table/shannon_fano/shannon_fano_test.go:65-100 | a prefix-free 0-branch and a prefix-free 1-branch together are prefix-free |
| ShannonFano.AssignPair | lib/compression/vlc/table/shannon_fano/shannon_fano_test.go:65-74 | two records always get codes 0 and 1 (one bit each) |
| ShannonFano.AssignFirstThenPair | lib/compression/vlc/table/shannon_fano/shannon_fano_test.go:75-100 | three code-less records cut after the first get codes 0, 10 and 11 |
| ShannonFano.AssignExamples | lib/compression/vlc/table/shannon_fano/shannon_fano_test.go:65-100 | the three vectors: [2,2] -> (0,1),(1,1); [2,1,1] and [1,1,1] -> (0,1),(2,2),(3,2) |
| ShannonFano.Distinct | lib/compression/vlc/table/shannon_fano/shannon_fano_test.go:113-151 | the characters of the text, each exactly once |
| ShannonFano.Insert | lib/compression/vlc/table/shannon_fano/shannon_fano_test.go:113-151 | the result holds the old records plus the new one, as a multiset, and starts with the new record or the old first one |
| ShannonFano.InsertDescending | lib/compression/vlc/table/shannon_fano/shannon_fano_test.go:113-151 | inserting into a list in descending quantity order keeps it in that order |
| ShannonFano.InsertDistinct | lib/compression/vlc/table/shannon_fano/shannon_fano_test.go:113-151 | inserting a record for a character not yet present keeps the characters distinct |
| ShannonFano.SortByQuantity | lib/compression/vlc/table/shannon_fano/shannon_fano_test.go:113-151 | the result is a permutation of the records, ordered by descending quantity |
| ShannonFano.SortDistinct | lib/compression/vlc/table/shannon_fano/shannon_fano_test.go:113-151 | sorting keeps the characters distinct |
| ShannonFano.ToTable | lib/compression/vlc/table/shannon_fano/shannon_fano_test.go:113-151 | the table's keys are exactly the records' characters |
| ShannonFano.ToTableAt | lib/compression/vlc/table/shannon_fano/shannon_fano_test.go:113-151 | with distinct characters, each record is stored under its own character |
| ShannonFano.TableOf | lib/compression/vlc/table/shannon_fano/shannon_fano_test.go:113-151 | the loop that stores each record under its character computes `ToTable` of the array, later records overwriting earlier ones |
| ShannonFano.CodeTable | lib/compression/vlc/table/shannon_fano/shannon_fano_test.go:113-151 | copying into an array, assigning codes in place and filling the table computes `ToTable(Assign(sorted))` |
| ShannonFano.BuildTable | lib/compression/vlc/table/shannon_fano/shannon_fano_test.go:113-151 | the build steps compute `Build` of the text |
| ShannonFano.RecordsFacts | lib/compression/vlc/table/shannon_fano/shannon_fano_test.go:113-151 | the frequency records have distinct characters, no code yet, a character of the text and its true count each, and every character of the text has one |
| ShannonFano.SortedRecords | lib/compression/vlc/table/shannon_fano/shannon_fano_test.go:113-151 | the sorted records have distinct characters of the text, no code yet, and their true counts, and cover every character |
| ShannonFano.TableFacts | lib/compression/vlc/table/shannon_fano/shannon_fano_test.go:113-151 | distinct prefix-free records give a table holding each record under its character, with prefix-free entries |
| ShannonFano.CodeTableCorrect | lib/compression/vlc/table/shannon_fano/shannon_fano_test.go:113-151 | the table of distinct code-less records holds one entry per record, with its character and quantity, and its codes are prefix-free, fit their widths and, for two or more records, are at least one bit long |
| ShannonFano.TableFits | lib/compression/vlc/table/shannon_fano/shannon_fano_test.go:113-151 | table entries keep the records' facts: each code fits its width and, for a strict extension of the empty code, has at least one bit |
| ShannonFano.BuildCorrect | lib/compression/vlc/table/shannon_fano/shannon_fano_test.go:113-151 | the table has an entry exactly for each character of the text, under that character, with its number of occurrences; every code fits its width (Bits below 2^Size), no entry's code is a prefix of another's, and with two or more distinct characters every code has at least one bit |
| ShannonFano.RecordsExample | lib/compression/vlc/table/shannon_fano/shannon_fano_test.go:119-141 | "abbbcc" gives records a:1, b:3, c:2 in first-seen order |
| ShannonFano.DistinctExample | lib/compression/vlc/table/shannon_fano/shannon_fano_test.go:119-121 | the distinct characters of "abbbcc" in first-seen order are "abc" |
| ShannonFano.CountExample | lib/compression/vlc/table/shannon_fano/shannon_fano_test.go:119-141 | "abbbcc" holds one a, three b and two c |
| ShannonFano.SortExample | lib/compression/vlc/table/shannon_fano/shannon_fano_test.go:119-141 | the records a:1, b:3, c:2 sort to b, c, a |
| ShannonFano.AssignBuildExample | lib/compression/vlc/table/shannon_fano/shannon_fano_test.go:119-141 | coding b:3, c:2, a:1 gives b bits 0 size 1, c bits 2 size 2, a bits 3 size 2 |
| ShannonFano.TableExample | lib/compression/vlc/table/shannon_fano/shannon_fano_test.go:119-141 | the coded records keyed by character give the expected table |
| ShannonFano.BuildExample | lib/compression/vlc/table/shannon_fano/shannon_fano_test.go:119-141 | "abbbcc" gives b -> (3, bits 0, size 1), c -> (2, bits 2, size 2), a -> (1, bits 3, size 2) |

## Left out

- The Shannon-Fano implementation file is not part of this model. The behaviour of
  `bestDvividerPosition`, `assingCodes` and `build` is reconstructed from
  shannon_fano_test.go, and the reconstruction agrees with every vector there.
- ShannonFano.BestDividerPosition: the test vectors do not fix how the scan treats records
  with quantity 0.
  - The model's scan stops at the first cut that does not improve.
  - Optimality (`BestDividerBalances`) is proved only for positive quantities. Those are
    the only quantities a character count produces.
- ShannonFano.Assign: a list with a single record keeps Size 0; no test fixes this case.
- ShannonFano.SortByQuantity: records of equal quantity keep first-seen order. The test
  vectors do not fix the order of records with equal quantities, so which of them gets
  which code is a choice of this model. Prefix-freeness, keys and counts do not depend on it.
- ShannonFano.Code: Bits is an unbounded `nat`. The declared width of the Bits field is not
  part of this model, so no overflow for long codes is modelled.
- Vlc.Marked: `prepareText` is not part of this model. `Marked` is reconstructed from the
  comment at vlc.go:123-126 and marks only the ASCII capitals A-Z.
- `table.EncodingTable.Decode` (the bit-string decoder that `Decode` calls) and
  `table.Generator.NewTable` are not part of this model. For the same reason
  `EncodeDecoder.Encode`/`Decode` (vlc.go:27-39), which only chain the modelled steps with
  them, are left out.
- `encodeTable`/`decodeTable` (gob) are the function parameters `serialize` and
  `decodeTable`.
  - That decoding undoes encoding is a hypothesis of `Vlc.ParseEncodedFile`.
  - A `log.Fatal` in decoding is the error `TableDecodeFailed`.
  - An encoding failure cannot be expressed, so it is not modelled.
- Panics are `Err` results. A Go caller would see a process panic instead.
- Vlc.ToUpper: only ASCII letters are upper-cased. `unicode.ToUpper` on other scripts is
  not modelled.
- Chunks.SplitByChunks: characters are counted by index. Go's `range` over a string yields
  byte offsets, which differ from character indices only on non-ASCII input. The container
  only ever splits '0'/'1' strings.
- Two details of chunks.go do not affect output and are not modelled:
  - the unused constant `chunksSize` (chunks.go:14);
  - the preallocated capacity (chunks.go:63-71).
- Go strings are UTF-8 byte strings; here a string is a sequence of characters.
- The command-line tools, the zip and tar.bz2 archivers, and file I/O are outside this model.
