# compress-rs in Dafny

A model of the codecs and the folder archive of `compress-rs`, a command-line
compressor. It covers two generations of code:

- **Run-length encoding** (`Rle`, `RleSlice`).
  - `compress_rle` writes the magic byte `0x52`, then one `[value, count]` pair per run. A run is cut at 255.
  - `decompress_rle` checks the magic byte and expands whole pairs. It refuses a zero count. It sends output to the writer through an 8192-byte staging buffer.
  - The two generations share this code line for line. It is modelled once, citing `src/rle.rs`.
  - The slice wrappers `compress` and `decompress` of the second generation run it between in-memory buffers.
- **Streaming LZ77** (`StreamLz`, first generation).
  - The magic byte `0x4C` comes first.
  - A match token is `[offset, length]`.
  - A literal token is `[0, 0, byte]`.
  - The encoder keeps a first-in first-out search buffer of 4096 bytes and a look-ahead of 18 bytes.
  - The decoder keeps a 4096-byte history.
- **Whole-buffer LZ77** (`BufferLz`, second generation).
  - There is no magic byte.
  - Each token is a 16-bit little-endian offset, a length byte, a flag byte, and the next byte when the flag is 1.
  - The encoder scans a 4096-byte window before a cursor.
  - The decoder copies from a 4096-byte history deque.
- **The archive** (`Archive`): `detect_algorithm`, `compress_folder` and `decompress_folder` of the tool.
  - The archive is a magic byte and a file count.
  - Each file then has a record: `[path_len: u8][path][len: u32 LE][payload]`.

How the model is built:

- **Readers and writers.** A reader is the input sequence. A writer is an output sequence that every `write_all` extends.
- **Each decoder method** returns what it wrote and how it returned. It is proved equal to a reference function on the whole input.
- **Each encoder method** is proved equal to a reference encoder. The reference encoder is stated as tokens chosen round by round and then serialised.
- **The whole-buffer decoder** is specified as `Parse` (bytes to tokens) followed by `Replay` (tokens to bytes against the history).
- **An out-of-range index or slice** panics in Rust. The model returns `IndexOutOfBounds` or `OutOfBounds` instead.
- **The archive's codecs** are function parameters. Any compressor and decompressor can be plugged in.
- **Wire-level integer casts are written out:**
  - the `as u8` of counts and path lengths;
  - the `as u32` of the stored length;
  - the 16-bit split of the offset.

## Model

| member | source | states |
|---|---|---|
| Rle.LeadRunFrom | src/rle.rs:25-36 | a run grows while the next byte repeats and the count is below 255; it stops at 255 or at the first different byte |
| Rle.PairsFlatten | src/rle.rs:33-42 | the pairs written as `[value, count]` bytes are read back as the same pairs |
| Rle.FlattenPairs | src/rle.rs:72-77 | an even-length pair stream is exactly the bytes of the pairs read from it |
| Rle.RunsExpand | src/rle.rs:22-42 | expanding the runs the encoder cuts gives the input back |
| Rle.RunsCanonical | src/rle.rs:30-36 | the encoder's pairs have no zero count; equal neighbouring values only follow a saturated 255 run |
| Rle.CanonicalUnique | src/rle.rs:30-36 | two canonical pair lists that expand to the same bytes are equal |
| Rle.EncodeIsEncoding | src/rle.rs:14-45 | the reference encoding is the magic byte followed by canonical pairs that expand to the input |
| Rle.EncodingUnique | src/rle.rs:14-45 | at most one stream satisfies that description |
| Rle.EncodingCharacterized | src/rle.rs:14-45 | a stream is an encoding of `s` if and only if it is the reference encoding of `s` |
| Rle.ExpandLength | src/rle.rs:18-20 | a canonical pair list is empty if and only if it expands to nothing |
| Rle.RunBreaks | src/rle.rs:30-36 | an unsaturated first pair is followed by a different byte |
| Rle.DecodeFlatten | src/rle.rs:75-94 | pairs with non-zero counts decode, without error, to their expansion |
| Rle.RoundTrip | src/rle.rs:14-103 | decompressing any encoding of `s` gives `s` and succeeds |
| Rle.TrailingByteIgnored | src/rle.rs:75 | a lone byte after the last whole pair is ignored: the failing `read_exact` ends the loop |
| Rle.DecodePairsTrailing | src/rle.rs:75-94 | the same, for the pair stream after the magic byte |
| Rle.DecodeFailsIff | src/rle.rs:58-103 | decoding fails if and only if the input is non-empty and has a wrong magic byte or a zero count in a whole pair; the error is always `InvalidData` |
| Rle.DecodePairsFailsIff | src/rle.rs:75-84 | the pair loop fails if and only if some whole pair has a zero count |
| Rle.CompressRle | src/rle.rs:14-45 | the streaming encoder writes exactly the reference encoding, which is an encoding of the input |
| Rle.ExtendRun | src/rle.rs:30-31 | a repeated byte below 255 extends the open run and keeps the pairs canonical |
| Rle.CloseStep | src/rle.rs:32-36 | writing the open pair and opening a new one keeps the output equal to the magic byte plus the closed pairs, which expand to the consumed input |
| Rle.FinishEncode | src/rle.rs:41-44 | writing the last pair completes the reference encoding |
| Rle.PairsEncoding | src/rle.rs:14-45 | canonical pairs expanding to `s` after the magic byte form an encoding of `s` |
| Rle.BumpOpen | src/rle.rs:30-31 | incrementing an unsaturated open count keeps the pairs canonical |
| Rle.CloseRun | src/rle.rs:32-35 | a new run opened on a different byte, or after a saturated one, keeps the pairs canonical |
| Rle.FlushedWhole | src/rle.rs:86-99 | with fewer than 8192 bytes staged, the writer holds exactly the whole flushed chunks |
| Rle.PairAt | src/rle.rs:75-94 | decoding from a cursor reads the pair there: a zero count fails with `InvalidData`, otherwise its run comes before the rest |
| Rle.StageRun | src/rle.rs:86-93 | pushing `count` copies through the staging buffer adds exactly those copies to written plus staged bytes, and keeps the buffer below 8192 with the writer at a chunk boundary |
| Rle.DecodePairsLoop | src/rle.rs:72-103 | the pair loop returns the reference status; on success the writer holds the whole output, on error only the flushed chunks |
| Rle.DecompressRle | src/rle.rs:58-103 | the streaming decoder returns the reference status; on success the writer holds the whole reference output, on error only the chunks flushed before it |
| RleSlice.Compress | rust-compressor/src/rle.rs:107-114 | `compress` always succeeds, with the reference encoding |
| RleSlice.Decompress | rust-compressor/src/rle.rs:116-123 | `decompress` gives the decoded bytes on success; the only error is `InvalidData` |
| RleSlice.SliceRoundTrip | rust-compressor/src/rle.rs:107-123 | `decompress(compress(s))` is `Ok(s)` for every `s` |
| RleSlice.CompressExample | rust-compressor/src/rle.rs:132-142 | `AAABBBCCCCCDDDDE` compresses to `[0x52, 65,3, 66,3, 67,5, 68,4, 69,1]` |
| StreamLz.MatchLenFrom | src/lz.rs:37-42 | the inner loop's count stays within the look-ahead and the search buffer |
| StreamLz.MatchLenFromAgrees | src/lz.rs:37-42 | the counted bytes agree, and counting stops at the first disagreement or at the end of either buffer |
| StreamLz.BestUpTo | src/lz.rs:36-49 | the best candidate so far has an offset within the scanned starts, and its length is that start's match length |
| StreamLz.BestUpToLongest | src/lz.rs:44-48 | the chosen match is a longest one; among equally long matches the latest start (smallest offset) wins |
| StreamLz.Choose | src/lz.rs:51-89 | the token is a match of 3 to 18 bytes lying wholly in the search buffer and equal to the next input bytes, or else the next byte as a literal |
| StreamLz.Lookahead | src/lz.rs:25 | the look-ahead is the next `min(18, remaining)` input bytes |
| StreamLz.DecodeStep | src/lz.rs:110-153 | a token that emits consumes at least two bytes and no more than remain |
| StreamLz.ChooseCovers | src/lz.rs:51-89 | the chosen token, decoded against the search buffer, reproduces the input bytes it consumes |
| StreamLz.TokenStep | src/lz.rs:110-153 | decoding a token's bytes against the history emits what the token reproduces and consumes exactly its bytes |
| StreamLz.DecodeToken | src/lz.rs:109-164 | decoding continues after a token with the history pushed forward by its bytes |
| StreamLz.TokensFromCovers | src/lz.rs:28-90 | the encoder's tokens cover the input: each one reproduces its bytes against the search buffer of its round |
| StreamLz.DecodeCovered | src/lz.rs:109-164 | covering tokens decode to the covered bytes and succeed, whatever fewer-than-two trailing bytes follow |
| StreamLz.CoveredWellFormed | src/lz.rs:52-54 | every covering match is 3 to 18 bytes long and no longer than its offset |
| StreamLz.RoundTrip | src/lz.rs:17-168 | decompressing the compression of `s` gives `s` and succeeds |
| StreamLz.EncodedTokensWellFormed | src/lz.rs:52-75 | every token the encoder writes is well formed |
| StreamLz.DecodeHeader | src/lz.rs:98-134 | empty input succeeds with nothing; a wrong magic byte is `InvalidData`; a literal marker without its byte is `UnexpectedEof`; a zero offset or length, or an offset beyond the empty history, is `InvalidData` |
| StreamLz.FindMatch | src/lz.rs:29-49 | the search loop finds the best candidate |
| StreamLz.TokensFromStep | src/lz.rs:51-89 | one round emits the chosen token and continues on the shifted buffers |
| StreamLz.EncodeStep | src/lz.rs:51-89 | a long enough match with offset and length fitting a byte is written as a match token, otherwise as a literal |
| StreamLz.LookaheadShift | src/lz.rs:56-69 | popping one look-ahead byte and reading one more input byte gives the look-ahead of the next position |
| StreamLz.ShiftBuffers | src/lz.rs:56-70 | shifting `n` bytes leaves the window of the search buffer plus those bytes, and the look-ahead of the new position |
| StreamLz.EncodeRound | src/lz.rs:28-89 | a round writes the first token of the remaining input and advances the cursor past the bytes it stands for; the search buffer stays the last `min(4096, consumed)` input bytes and the look-ahead the next `min(18, remaining)` |
| StreamLz.CompressLz | src/lz.rs:17-94 | the streaming encoder writes exactly the reference encoding; before every round the search buffer holds the last `min(4096, consumed)` input bytes |
| StreamLz.StepAt | src/lz.rs:110-153 | the token at a cursor is decoded from the two bytes there, and from a third for a literal |
| StreamLz.TokensAt | src/lz.rs:109-164 | decoding from a cursor continues after the consumed bytes with the pushed history |
| StreamLz.PushAll | src/lz.rs:147-152 | pushing bytes with front eviction leaves the last 4096 bytes of history plus bytes |
| StreamLz.CopyMatch | src/lz.rs:132-144 | the copy stays in bounds if and only if `length <= offset`; then it is the `length` bytes `offset` back |
| StreamLz.DecodeRound | src/lz.rs:110-153 | one iteration stops with the reference status, or emits the reference bytes and pushes them into the history |
| StreamLz.DecodeLoop | src/lz.rs:109-164 | the token loop writes the reference output and returns the reference status |
| StreamLz.DecompressLz | src/lz.rs:97-168 | the streaming decoder writes the reference output and returns the reference status |
| BufferLz.TokenBytes | rust-compressor/src/lz.rs:45-50 | a token is 4 bytes, plus 1 when its flag is set |
| BufferLz.High | rust-compressor/src/lz.rs:45 | the high byte of the 16-bit offset is its quotient by 256 |
| BufferLz.Search | rust-compressor/src/lz.rs:15-16 | the search window holds the last `min(pos, 4096)` bytes before the cursor |
| BufferLz.MatchLenFrom | rust-compressor/src/lz.rs:23-30 | the inner loop's count stays below the look-ahead length, 18 and the window end; it stops only at the first disagreement or at one of those limits |
| BufferLz.MatchLenAgrees | rust-compressor/src/lz.rs:23-30 | the counted bytes of window and look-ahead agree |
| BufferLz.BestUpTo | rust-compressor/src/lz.rs:22-36 | the best match is none, or 3 to 18 bytes at a scanned start, with that start's match length |
| BufferLz.BestUpToLongest | rust-compressor/src/lz.rs:32-35 | no scanned start of at least 3 matching bytes is longer than the chosen match |
| BufferLz.BestUpToEarliest | rust-compressor/src/lz.rs:32-35 | among longest matches the earliest start (largest offset) wins |
| BufferLz.Choose | rust-compressor/src/lz.rs:19-42 | the token's match is none or 3 to 18 bytes within the window; the next byte is present if and only if the match leaves look-ahead bytes over |
| BufferLz.ChooseEarliest | rust-compressor/src/lz.rs:32-35 | the token carries the longest match of at least 3 bytes, the earliest one among equals |
| BufferLz.Lookahead | rust-compressor/src/lz.rs:17 | the look-ahead is the next `min(18, remaining)` input bytes |
| BufferLz.TokensFromStep | rust-compressor/src/lz.rs:44-52 | a round writes its token and advances the cursor by the match length plus the flag |
| BufferLz.WidthsCover | rust-compressor/src/lz.rs:13-53 | the tokens stand for exactly the input's bytes |
| BufferLz.EncodeStart | rust-compressor/src/lz.rs:13-53 | empty input encodes to nothing; otherwise the first token is a bare literal of the first byte |
| BufferLz.ReadHeader | rust-compressor/src/lz.rs:66-81 | a token header spans 4 bytes plus 1 for a flagged byte that is present |
| BufferLz.ChooseCovers | rust-compressor/src/lz.rs:19-52 | the chosen token reproduces the input bytes it stands for against the window |
| BufferLz.HeaderOf | rust-compressor/src/lz.rs:66-81 | the decoder reads back every token the encoder writes |
| BufferLz.CopySlice | rust-compressor/src/lz.rs:83-95 | a copy no longer than its offset takes the bytes `offset` back |
| BufferLz.CopyAgrees | rust-compressor/src/lz.rs:83-95 | while no byte is evicted, the copy as written equals the copy from the history as it was |
| BufferLz.CopyChunk | rust-compressor/src/lz.rs:83-95 | a reproducing token's copy gives the match bytes |
| BufferLz.EmitChunk | rust-compressor/src/lz.rs:83-103 | with eviction accounted for, a reproducing token emits exactly its bytes |
| BufferLz.EmitBounded | rust-compressor/src/lz.rs:83-103 | as written, a reproducing token emits its bytes when history plus output stay within 4096 |
| BufferLz.ParseSerialize | rust-compressor/src/lz.rs:65-81 | the tokens read back from the encoder's bytes are the encoder's tokens, whatever fewer-than-4 trailing bytes follow |
| BufferLz.TokensFromCovers | rust-compressor/src/lz.rs:13-53 | the encoder's tokens cover the input, each reproducing its bytes against the window of its round |
| BufferLz.CoversEncodable | rust-compressor/src/lz.rs:45-46 | covering tokens have offsets below 65536 and lengths below 256 |
| BufferLz.ReplayCoveredFixed | rust-compressor/src/lz.rs:83-103 | covering tokens replay, with eviction accounted for, to the covered bytes |
| BufferLz.ReplayCoveredBounded | rust-compressor/src/lz.rs:83-103 | covering tokens replay as written to the covered bytes while the history never fills |
| BufferLz.RoundTripFixed | rust-compressor/src/lz.rs:9-107 | with the copy taken from the history as it was before the token, decompressing the compression of any `s` gives `s` |
| BufferLz.RoundTripBounded | rust-compressor/src/lz.rs:9-107 | as written, decompressing the compression of `s` gives `s` for inputs of at most 4096 bytes |
| BufferLz.ExampleBest | rust-compressor/src/lz.rs:22-36 | for the window `[1,2,3]` then 4093 zeros and the look-ahead `[1,2,3]`, the best match is offset 4096, length 3 |
| BufferLz.EvictionShiftsCopy | rust-compressor/src/lz.rs:83-95 | for that window the encoder emits the token `[0, 0x10, 3, 0]`, which reproduces `[1,2,3]`, but the decoder as written replays it as `[1,3,0]` |
| BufferLz.ExampleFixed | rust-compressor/src/lz.rs:83-95 | the copy from the history as it was replays that token as `[1,2,3]` |
| BufferLz.SearchIsWindow | rust-compressor/src/lz.rs:15-16 | the search slice is the 4096-byte window of the consumed input |
| BufferLz.SearchAdvance | rust-compressor/src/lz.rs:52 | advancing the cursor slides the window over the consumed bytes |
| BufferLz.LookaheadAt | rust-compressor/src/lz.rs:17 | the look-ahead slice is the look-ahead of the remaining input |
| BufferLz.ModIsRemainder | rust-compressor/src/lz.rs:86-89 | the copy index `i % offset` is the remainder |
| BufferLz.HighIsQuotient | rust-compressor/src/lz.rs:45 | the two offset bytes are the remainder and quotient by 256 |
| BufferLz.FindMatch | rust-compressor/src/lz.rs:19-36 | the search loop finds the best match |
| BufferLz.MatchAt | rust-compressor/src/lz.rs:23-30 | the inner loop counts the match length at a start |
| BufferLz.EncodeRound | rust-compressor/src/lz.rs:19-52 | a round writes the first token of the remaining input and consumes the bytes it stands for |
| BufferLz.CompressRound | rust-compressor/src/lz.rs:14-52 | an iteration at the cursor writes the reference token and moves the cursor past its bytes |
| BufferLz.WriteToken | rust-compressor/src/lz.rs:45-50 | the written bytes are the token's wire form |
| BufferLz.CompressLz | rust-compressor/src/lz.rs:9-56 | the encoder writes exactly the reference encoding |
| BufferLz.PushByte | rust-compressor/src/lz.rs:91-94 | a push evicts the front once the history exceeds 4096 |
| BufferLz.CopyByte | rust-compressor/src/lz.rs:89-94 | copying one byte writes it and pushes it into the history, advancing the reference copy by one |
| BufferLz.CopyMatch | rust-compressor/src/lz.rs:83-95 | the copy loop writes the reference copy and leaves the window of the history plus the copy |
| BufferLz.ParseAt | rust-compressor/src/lz.rs:65-81 | reading at a cursor yields the token there and continues after it |
| BufferLz.ReplayCons | rust-compressor/src/lz.rs:83-103 | replaying a token emits its bytes, then replays the rest on the pushed history |
| BufferLz.EmitToken | rust-compressor/src/lz.rs:83-103 | a token writes its copy then its literal, pushing both into the history |
| BufferLz.DecodeRound | rust-compressor/src/lz.rs:65-103 | one iteration keeps written output plus the replay of the rest equal to the reference decode |
| BufferLz.DecompressLz | rust-compressor/src/lz.rs:58-107 | the decoder writes exactly the reference decode |
| Archive.DetectAlgorithm | src/main.rs:100-110 | empty data is an error; first byte `0x52` is `rle`, `0x4C` is `lz`, any other byte is an unknown algorithm, each if and only if |
| Archive.MagicOf | src/main.rs:136-140 | only `rle` and `lz` have a magic byte; any other name is `InvalidAlgorithm` |
| Archive.LE32RoundTrip | src/main.rs:153-154 | the four little-endian bytes read back as the length modulo 2^32 |
| Archive.ArchiveHeader | src/main.rs:132-145 | an unknown name, and only that, is refused; otherwise the archive starts with the magic byte and the file count modulo 256 |
| Archive.DetectArchive | src/main.rs:100-145 | detection recovers the algorithm of every archive written |
| Archive.CompressFolder | src/main.rs:132-166 | the folder compressor returns exactly the reference archive |
| Archive.RecordsAt | src/main.rs:146-163 | the records from a file on are its record, then those after it |
| Archive.WriteRecord | src/main.rs:147-162 | a file adds its path length byte, path, stored length and payload |
| Archive.ReadRecord | src/main.rs:180-200 | a record read ends after its cursor and within the data; any failure is an overrun |
| Archive.ReadRecordAt | src/main.rs:180-200 | the cursor code reads exactly the reference record |
| Archive.ExtractEntry | src/main.rs:180-206 | one iteration reads a record and decompresses its payload with the named decompressor |
| Archive.DecompressFolder | src/main.rs:168-212 | the folder extractor writes the reference files in order and returns the reference status |
| Archive.ReadRecordBack | src/main.rs:180-200 | a record storing its payload length is read back whole |
| Archive.NextEntryBack | src/main.rs:180-206 | a record whose payload decompresses to the content gives the file back |
| Archive.ReadRecordsFixed | src/main.rs:178-209 | records storing their payload lengths give every file back, in order |
| Archive.FixedRoundTrip | src/main.rs:132-212 | with the payload length stored, fewer than 256 files that the archive can carry are written back unchanged and in order |
| Archive.ShorterPayloadOverruns | src/main.rs:153-154 | as written, one file whose payload is shorter than its content makes the reader slice past the end |
| Archive.EncodeFourA | src/main.rs:156-158 | the run-length compressor shrinks `AAAA` to three bytes |
| Archive.FourAOverruns | src/main.rs:195-199 | as written, the file `a` holding `AAAA`, archived with run-length coding, cannot be read back |

## Left out

- Reader and writer I/O errors other than the format errors are not modelled: a reader is a sequence, a writer a sequence that never fails.
- The command-line interface, `collect_files`, directory creation and file writes are not modelled. `decompress_folder` returns the files it would write, in order.
- Paths are the bytes of their lossy UTF-8 rendering; the join with the output directory is not modelled.
- rust-compressor/src/main.rs is not part of this model.
- The archive's codecs are parameters. src/main.rs calls `compress_rle(&content)` with one argument, which does not match the reader/writer signature in src/rle.rs. Any slice codec can be plugged in.
- The index computed with `% output_buffer.capacity()` at src/lz.rs:140 is never used, so it is not modelled.
- src/lz.rs uses `pop_front`/`push_back` on the look-ahead `Vec`. It is modelled as the first-in first-out queue those calls intend.
- The test at src/rle.rs:141-150 expects `[0x52, 0x41]` to fail. The code ignores the lone trailing byte and succeeds, and the model follows the code (`Rle.TrailingByteIgnored`).
- BufferLz.RoundTripBounded: the as-written round trip is stated only for inputs of at most 4096 bytes, because beyond that the decoder can replay a token wrongly (see Findings).
- Archive.FixedRoundTrip: stated for fewer than 256 files, paths under 256 bytes and payloads under 2^32 bytes. Beyond those, the `as u8` and `as u32` casts truncate.

## Findings

| source | as written | input that shows it | evidently intended | confidence | as-written member | corrected member |
|---|---|---|---|---|---|---|
| rust-compressor/src/lz.rs:83-95 | `start_index` is computed once. Each pushed byte evicts the front of a full history, which shifts the indices the copy reads. | The 4108-byte input `[7,1,2,3,0,0,0,0,9] + [1,2,3] + 4093 zeros + [1,2,3]`. Its last token starts at position 4105, where the window is `[1,2,3]` then 4093 zeros and the look-ahead is `[1,2,3]`. That token is `[0, 0x10, 3, 0]`, and the decoder writes `[1,3,0]` for it instead of `[1,2,3]`. | Copy from the history as it was before the token, so every input round-trips | not executed | BufferLz.EvictionShiftsCopy | BufferLz.RoundTripFixed |
| src/main.rs:153-154 | The length field stores the uncompressed content length. The reader slices that many payload bytes (src/main.rs:195-199). | The file `a` holding `AAAA`, archived with `rle`. The payload is 3 bytes but the stored length is 4, so the slice runs past the end. | Store the compressed payload's length | not executed | Archive.FourAOverruns | Archive.FixedRoundTrip |
