# SMBGhost frame builders and LZNT1 codec in Dafny

This project models two parts of the SMBGhost (CVE-2020-0796) proof-of-concept
tool `SMBGhost/ghost.py`.

- **The SMB2 message serialisers.** These build the messages the tool sends:
  - the 64-byte SMB2 packet header ([MS-SMB2] section 2.2.1);
  - the NEGOTIATE request (section 2.2.3) with its preauthentication-integrity
    and compression-capabilities negotiate contexts (sections 2.2.3.1.1 and
    2.2.3.1.3);
  - the compression transform header (section 2.2.42);
  - the Direct TCP transport frame (section 2.1).

  Each Python class only packs constant or constructor-supplied fields, so each
  one becomes a Dafny `datatype` with a `RawBytes()` member function. Its
  contract says where every field lands and what it holds. `NegotiateLayout`
  states that the NEGOTIATE request is self-consistent:
  - its NegotiateContextOffset points at the preauth context;
  - its DialectCount matches the dialect list;
  - its NegotiateContextCount is two.
- **The LZNT1 codec** ([MS-XCA] section 2.5), as the tool implements it. The
  model has two layers:
  - **Functional definitions** (module `Lznt1`) of the decoder's result:
    `DecodeToken`, `DecodeChunk` and `DecodeStream`, including every exception
    the Python code can raise. The module also defines the encoder's wire
    format (`EncodeGroups` over a token sequence) and what it means for a token
    sequence to explain a chunk (`Explains`, `Spans`).
  - **Imperative methods** (modules `Lznt1Decoder` and `Lznt1Encoder`) that
    follow the Python loops step by step. Each is proved against those
    definitions:
    - `Decompress` computes `DecodeStream`;
    - `Find` returns a copy that the decoder would reproduce, and no copy
      shorter than `max_len` is longer, overlapping (run-length) copies
      included;
    - `CompressChunk` emits bytes that `DecodeChunk` turns back into the chunk;
    - `Compress` cuts its input into chunks and emits one `Frame` per chunk.
      Each frame holds the chunk's compressed body when that is strictly
      shorter and the raw chunk otherwise. `Decompress` turns the stream back
      into the input, with or without the length check.

Python's `>>`, `&` and `|` on non-negative integers become division by a power
of two, remainder, and addition of disjoint bits. `int(0xFFF / n + 1)` becomes
the integer quotient plus one. For positive `n` the two agree: the
floating-point quotient of two small integers is correctly rounded, so it
never crosses an integer, and truncation gives the integer quotient. Slices
clamp to the sequence as Python's do, and `rfind` is `RFind`.

The decoder's Python exceptions are modelled as `Lznt1.Error` values returned
in a `Result`:
- `TruncatedHeader`: the `struct.error` raised when one byte is left where a
  chunk header is read;
- `InvalidChunkLength`: the `ValueError` from the length check;
- `TruncatedLiteral`: the `IndexError` raised when a literal is flagged but no
  byte is left;
- `TruncatedToken`: the `struct.error` raised when a back-reference has fewer
  than two bytes left;
- `NegativeShift`: the `ValueError` raised once the output passes 65536 bytes
  and the offset shift goes below zero;
- `ZeroDivision`: the `ZeroDivisionError` raised when a back-reference tiles
  an empty history.

Three points where the code's behaviour is easy to misread:

- **Direct TCP frame length.** Section 2.1 of [MS-SMB2] requires the 3-byte
  stream protocol length to equal the length of the SMB2 message.
  `NetBiosSessionPacket` (ghost.py:105) packs `len(data)` into four bytes and
  drops the first, so it stores the length modulo 2^24. The contract states
  exactly that, and the two agree only below 2^24.
- **Tiling.** An overlapping copy repeats the last `n` bytes of the history
  `int(0xFFF / n + 1)` times. That tile holds at least 0x1000 bytes
  (`TileLength`). With the offset within the history, a copy of at most
  0x1000 bytes appends exactly `length` bytes (`ExpandCopies`). With the
  offset beyond the history, the slices clamp: a plain copy yields fewer
  bytes or none (`Expand([1, 2], 10, 5)` is `Ok([])`), and an overlapping
  one tiles the whole history. While the output is at most 16 bytes long, the
  12-bit length mask allows copies of up to 0x1002 bytes. When `n` divides
  0x1000 (offsets 1, 2, 4, 8 and 16 in that range) the tile is exactly 0x1000
  bytes, so such a copy appends only 0x1000 (`ShortTile`,
  `ShortTileExample`). The encoder never asks for more than 0x1000 bytes in
  one chunk, so its round trip is unaffected.
- **Round trip.** `Compress` is proved to round-trip for every input length
  and every chunk size from 1 to 0x1000, with and without the decoder's
  length check.

## Model

| member | source | states |
|---|---|---|
| Packing.PackLe16 | Team-Project-main/SMBGhost/ghost.py:13-18 | `struct.pack('<H', x)`: two bytes that read back, little-endian, as `x` |
| Packing.PackLe32 | Team-Project-main/SMBGhost/ghost.py:19-20 | `struct.pack('<L', x)`: four bytes that read back as `x` |
| Packing.PackLe64 | Team-Project-main/SMBGhost/ghost.py:21 | `struct.pack('<Q', x)`: eight bytes that read back as `x` |
| Packing.PackBe32 | Team-Project-main/SMBGhost/ghost.py:105 | `struct.pack('>L', x)`: four bytes that read back, big-endian, as `x` |
| Packing.UnpackBeDropFirst | Team-Project-main/SMBGhost/ghost.py:105 | dropping the first byte of a big-endian word (`[1:]`) leaves its value modulo 256^(n-1) |
| Smb2Frames.Smb2Header.RawBytes | Team-Project-main/SMBGhost/ghost.py:10-35 | 64 bytes: the 0xFE 'SMB' protocol id, StructureSize 0x40 equal to the header's own length, the command at 12..14 and the message id at 24..32, and every other field zero |
| Smb2Frames.Smb2PreauthContext.RawBytes | Team-Project-main/SMBGhost/ghost.py:38-53 | 48 bytes, a multiple of 8. Type 1 (preauth integrity). DataLength 0x26 counts exactly the bytes after the 8-byte context header, excluding the 2 padding bytes. One hash algorithm, SHA-512 (1). SaltLength 0x20 equals the length of the salt that follows. The reserved word at 4..8, the 32-byte salt and the 2 padding bytes are zero |
| Smb2Frames.Smb2CompressionContext.RawBytes | Team-Project-main/SMBGhost/ghost.py:56-70 | 18 bytes. Type 3 (compression capabilities). DataLength 0xA equals the bytes after the context header. CompressionAlgorithmCount 1 equals the number of 2-byte algorithm ids present. Reserved word at 4..8 zero, padding 0, Flags 1 (chained), algorithm LZNT1 (1) |
| Smb2Frames.NegotiateFields | Team-Project-main/SMBGhost/ghost.py:76-96 | the 48-byte NEGOTIATE body: StructureSize 0x24, DialectCount 5, Capabilities 0x44, NegotiateContextOffset 0x70, NegotiateContextCount 2 and the five dialect codes at their offsets. SecurityMode, both reserved fields and the padding are zero, and the ClientGuid at 12..28 is `13 37 C0 DE` four times |
| Smb2Frames.Smb2NegotiateRequestPacket.RawBytes | Team-Project-main/SMBGhost/ghost.py:73-99 | header (command 0, message id 0), then the body, then the preauth context at 0x70, then the compression context; 0x70 + 48 + 18 bytes in all |
| Smb2Frames.NegotiateLayout | Team-Project-main/SMBGhost/ghost.py:77-99 | in the serialised request, the NegotiateContextOffset field points at the preauth context. DialectCount (5) matches the 10 bytes of dialect codes, and NegotiateContextCount is 2 |
| Smb2Frames.NetBiosSessionPacket.RawBytes | Team-Project-main/SMBGhost/ghost.py:102-110 | a zero type byte, then the payload length modulo 2^24 as three big-endian bytes (exactly the length below 2^24), then the payload unchanged |
| Smb2Frames.Smb2CompressedTransform.RawBytes | Team-Project-main/SMBGhost/ghost.py:113-127 | the 0xFC 'SMB' id, OriginalCompressedSegmentSize, algorithm 1, flags 0, and an Offset field that locates the end of the uncompressed prefix: the prefix sits at 16..16+Offset and the compressed data after it |
| Lznt1.DecoderSchedule | Team-Project-main/SMBGhost/ghost.py:154-160 | the offset shift never exceeds 12. Its mask shape and the output lengths where it changes are in `ScheduleShape` and the `ScheduleTable` lemmas |
| Lznt1.CopyOffset | Team-Project-main/SMBGhost/ghost.py:163 | `(flag >> o_shift) + 1` is at least 1, so a back-reference never points at the current byte. `WordFields` states that it recovers `o + 1` from `(o << shift) \| l` |
| Lznt1.CopyLength | Team-Project-main/SMBGhost/ghost.py:162 | `(flag & l_mask) + 3` is between 3 and `l_mask + 3` |
| Lznt1.Repeat | Team-Project-main/SMBGhost/ghost.py:166 | `s * n` has `n * len(s)` bytes |
| Lznt1.Expand | Team-Project-main/SMBGhost/ghost.py:165-169 | a copy never yields more than `length` bytes, and it fails (ZeroDivisionError) exactly when it must tile and the history is empty |
| Lznt1.DecodeToken | Team-Project-main/SMBGhost/ghost.py:149-170 | one token consumes input and only extends the output (the old output is a prefix); a literal succeeds exactly when a byte is left |
| Lznt1.DecodeTokens | Team-Project-main/SMBGhost/ghost.py:148-172 | the rest of a flag group only appends to the output, and it never raises a stream-level error (header or length) |
| Lznt1.DecodeGroups | Team-Project-main/SMBGhost/ghost.py:145-172 | the remaining groups only append to the output, and never raise a stream-level error |
| Lznt1.DecodeChunk | Team-Project-main/SMBGhost/ghost.py:143-173 | an empty chunk decodes to nothing, and decoding a chunk body never raises a stream-level error |
| Lznt1.DecodeStream | Team-Project-main/SMBGhost/ghost.py:176-190 | the invalid-length error arises only with the length check on |
| Lznt1.TokensBytes | Team-Project-main/SMBGhost/ghost.py:249-254 | each token adds one or two bytes to `tmp` |
| Lznt1.FlagValue | Team-Project-main/SMBGhost/ghost.py:259 | the flag value of a group of at most 8 tokens fits one byte |
| Lznt1.EncodeGroups | Team-Project-main/SMBGhost/ghost.py:259-260 | empty exactly for no tokens, and longer than the token count but at most three bytes per token |
| Lznt1.RFind | Team-Project-main/SMBGhost/ghost.py:197 | `rfind`: -1 or an occurrence, and no occurrence further right |
| Lznt1.Take | Team-Project-main/SMBGhost/ghost.py:268 | `buf[:chunk_size]`: the first `min(n, len)` bytes |
| Lznt1.Frame | Team-Project-main/SMBGhost/ghost.py:271-278 | one chunk of the stream. The header's low 12 bits plus one give the body length. Its top nibble is 0xB (compressed flag set) exactly when the compressed form is strictly shorter, else 0x3. The body is the compressed form or the raw chunk accordingly |
| Lznt1Decoder.DecompressChunk | Team-Project-main/SMBGhost/ghost.py:143-173 | the loop returns `DecodeChunk(chunk)`, including each exception |
| Lznt1Decoder.BackReference | Team-Project-main/SMBGhost/ghost.py:152-170 | the back-reference branch equals `DecodeToken` for a set flag bit |
| Lznt1Decoder.CurrentSchedule | Team-Project-main/SMBGhost/ghost.py:154-160 | the halving loop yields `DecoderSchedule` of the output length |
| Lznt1Decoder.Decompress | Team-Project-main/SMBGhost/ghost.py:176-190 | the chunk loop returns `DecodeStream(buf, length_check)` |
| Lznt1Decoder.DecompressFrame | Team-Project-main/SMBGhost/ghost.py:179-189 | one pass: on error the whole stream fails with that error; otherwise it consumes input and the stream's result is this chunk's bytes prepended to the result of the rest |
| Lznt1Encoder.Find | Team-Project-main/SMBGhost/ghost.py:193-215 | either no match (0, 0), or a length in 3..max_len with an offset whose expansion over `src` reproduces that prefix of the target. Every copy of 3..max_len-1 bytes the decoder would reproduce from `src`, plain or overlapping, is at most as long as the result |
| Lznt1Encoder.Candidate | Team-Project-main/SMBGhost/ghost.py:197-208 | one pass of the outer loop for prefix length i: when `rfind` fails, every copy's plain part (its first min(length, offset) bytes) is shorter than i; otherwise the candidate copies i..max_len bytes and is at least as long as every copy shorter than max_len whose plain part is exactly i bytes |
| Lznt1Encoder.ExtendRun | Team-Project-main/SMBGhost/ghost.py:202-208 | the tiling loop: when the last i bytes of `src` start the target, the run it finds copies i..max_len bytes from offset i and is at least as long as any overlapping copy from that offset shorter than max_len |
| Lznt1Encoder.AdvanceSchedule | Team-Project-main/SMBGhost/ghost.py:229-232 | after the doubling loop the encoder's `o_shift` and `l_mask3` are the decoder's shift and mask + 3 for the same output length |
| Lznt1Encoder.CompressChunk | Team-Project-main/SMBGhost/ghost.py:218-262 | the output is the flag-group encoding of a token sequence, is empty exactly for the empty chunk, and `DecodeChunk` returns the chunk |
| Lznt1Encoder.CompressGroup | Team-Project-main/SMBGhost/ghost.py:225-260 | one flag group: 1..8 tokens (8 unless the chunk ends), emitted as their flag byte and token bytes, that explain the next bytes of the chunk |
| Lznt1Encoder.NextToken | Team-Project-main/SMBGhost/ghost.py:228-257 | one pass of the `for i in range(8)` loop: one more token explaining the chunk, with `bits` and `tmp` updated to the group's pending flags and bytes |
| Lznt1Encoder.RecordToken | Team-Project-main/SMBGhost/ghost.py:249-255 | appending the token's bytes to `tmp` and, for a back-reference, `bits \|= 0x80` give the pending flags and bytes of the group with the new token |
| Lznt1Encoder.ChooseToken | Team-Project-main/SMBGhost/ghost.py:229-255 | the token chosen at the current position explains 1..remaining bytes of the chunk under the decoder's schedule |
| Lznt1Encoder.Match | Team-Project-main/SMBGhost/ghost.py:233-245 | a non-zero match after the lookahead rule copies the next bytes from at most `produced` bytes back. No copy shorter than max_len there is longer, and none starting one byte later is either (the lookahead did not reject it) |
| Lznt1Encoder.Symbol | Team-Project-main/SMBGhost/ghost.py:248 | the 16-bit word `((offset-1) << o_shift) \| (length-3)` decodes back to this offset and length |
| Lznt1Encoder.FlagsOf | Team-Project-main/SMBGhost/ghost.py:259 | `bits >> (7 - i)` is the group's flag byte: bit k set exactly for back-references |
| Lznt1Encoder.Compress | Team-Project-main/SMBGhost/ghost.py:265-281 | the input is cut into ceil(n / chunk_size) chunks, all `chunk_size` bytes but the last, and the output is their `Frame`s in order, each with a compressed body that decodes to its chunk. The decoder, with and without the length check, returns the input. The output is empty exactly for empty input and is at most the input plus 2 bytes per chunk |
| Lznt1Encoder.CompressFrame | Team-Project-main/SMBGhost/ghost.py:266-279 | one pass: the next chunk of `min(len, chunk_size)` bytes and its `Frame` with a compressed body that decodes to it; one chunk fewer is left |
| Lznt1Encoder.StoreChunk | Team-Project-main/SMBGhost/ghost.py:267-278 | the frame is `Frame(chunk, compressed)` for a non-empty compressed body that decodes to the chunk, and holds 3..len+2 bytes |
| Lznt1Encoder.CompressStep | Team-Project-main/SMBGhost/ghost.py:266-279 | one pass keeps the loop's invariant: the chunks so far followed by the rest are the input, the output is the frames of the chunks so far, and one chunk fewer is left |
| Lznt1Encoder.ChunksSnoc | Team-Project-main/SMBGhost/ghost.py:267-268 | the chunk just cut keeps every chunk full but the last, and every body decoding to its chunk |
| Lznt1Encoder.CompressedStream | Team-Project-main/SMBGhost/ghost.py:265-281 | the frames of the chunks decode, in both modes, to the input; they are empty exactly for empty input and at most 2 bytes per chunk longer |
| Lznt1Encoder.ChunkCountCeil | Team-Project-main/SMBGhost/ghost.py:267-279 | the loop runs ceil(n / chunk_size) times |
| Lznt1Proofs.HalvingsBound | Team-Project-main/SMBGhost/ghost.py:157-160 | the halving loop runs at most c times exactly when pos < 16 * 2^c |
| Lznt1Proofs.ScheduleShape | Team-Project-main/SMBGhost/ghost.py:154-163 | `DecoderSchedule`: the shift is at most 12, the mask is all ones below the shift (`2^shift - 1`) or 0 once the shift is negative, and 12 - shift is the least c with output length <= 16 * 2^c |
| Lznt1Proofs.ScheduleTable | Team-Project-main/SMBGhost/ghost.py:154-160 | the schedule is (0xFFF, 12) up to 16 bytes, (0x7FF, 11) up to 32 and (0x3FF, 10) up to 64 |
| Lznt1Proofs.ScheduleTableMid | Team-Project-main/SMBGhost/ghost.py:154-160 | at 128, 256, 512, 1024 and 2048 bytes the schedule is (0x1FF, 9), (0xFF, 8), (0x7F, 7), (0x3F, 6) and (0x1F, 5) |
| Lznt1Proofs.ScheduleTableLong | Team-Project-main/SMBGhost/ghost.py:154-160 | (0xF, 4) at 4096 bytes, (0, 0) at 65536, and a negative shift beyond |
| Lznt1Proofs.RepeatIndex | Team-Project-main/SMBGhost/ghost.py:166 | byte k of the repeated history is byte k mod n of the history |
| Lznt1Proofs.TileLength | Team-Project-main/SMBGhost/ghost.py:166 | `n * (0xFFF / n + 1)` is at least 0x1000, so the tile covers every copy of at most 0x1000 bytes |
| Lznt1Proofs.ExpandCopies | Team-Project-main/SMBGhost/ghost.py:162-169 | with the offset within the history and a length of at most 0x1000 (the range where exactly `length` bytes come out), a back-reference yields byte k = history[len - offset + k mod offset], in both branches |
| Lznt1Proofs.ShortTile | Team-Project-main/SMBGhost/ghost.py:165-167 | when the offset divides 0x1000, an overlapping copy of 0x1000 bytes or more appends exactly 0x1000 bytes, the history tail repeated `0x1000 / offset` times |
| Lznt1Proofs.ShortTileExample | Team-Project-main/SMBGhost/ghost.py:162-167 | after one output byte, the word 0x0FFF asks for offset 1 and length 0x1002, and only 0x1000 bytes are appended |
| Lznt1Proofs.PlainCopy | Team-Project-main/SMBGhost/ghost.py:169 | the non-overlapping slice is that same sequence |
| Lznt1Proofs.TiledCopy | Team-Project-main/SMBGhost/ghost.py:165-167 | the tiled slice is that same sequence (run-length behaviour) |
| Lznt1Proofs.ExpandRunExample | Team-Project-main/SMBGhost/ghost.py:165-167 | history "A" with offset 1 and length 10 gives ten "A" |
| Lznt1Proofs.FlagBit | Team-Project-main/SMBGhost/ghost.py:248-259 | bit i of a group's flag byte is set exactly when token i is a back-reference (LSB first) |
| Lznt1Proofs.EncodeGroupsAppend | Team-Project-main/SMBGhost/ghost.py:259-260 | appending a group to a whole number of groups appends its flag byte and token bytes |
| Lznt1Proofs.TokenDecode | Team-Project-main/SMBGhost/ghost.py:149-170 | a token that explains the chunk at p decodes, after the chunk's first p bytes, to its first p + span bytes |
| Lznt1Proofs.TokensDecode | Team-Project-main/SMBGhost/ghost.py:145-172 | the tokens of a group and all later groups decode to the chunk bytes they span, from any position in the group |
| Lznt1Proofs.GroupsHead | Team-Project-main/SMBGhost/ghost.py:259-260 | the encoding starts with the first group's flag byte, followed by that group's token bytes and then the later groups |
| Lznt1Proofs.DecodeAll | Team-Project-main/SMBGhost/ghost.py:145-172 | a token sequence spanning chunk[p..q] decodes from chunk[..p] to chunk[..q] |
| Lznt1Proofs.ChunkRoundTrip | Team-Project-main/SMBGhost/ghost.py:143-173 | the encoding of any token sequence that spans a chunk decodes back to the chunk |
| Lznt1Proofs.StreamStep | Team-Project-main/SMBGhost/ghost.py:178-189 | a complete chunk decodes independently: its body (decoded if bit 15 is set, raw otherwise) is prepended to the result of the rest |
| Lznt1Proofs.LengthCheck | Team-Project-main/SMBGhost/ghost.py:180-182 | with the check, a declared length beyond the remaining bytes fails with the invalid-length error. A chunk that fits does not raise it unless the rest does |
| Lznt1Proofs.LenientAgrees | Team-Project-main/SMBGhost/ghost.py:176-190 | whenever the strict decoder succeeds, the lenient one returns the same bytes |
| Lznt1Proofs.LengthCheckExample | Team-Project-main/SMBGhost/ghost.py:180-188 | `05 00 01 02` fails with the check and decodes to `01 02` without it |
| Lznt1Proofs.StreamAppend | Team-Project-main/SMBGhost/ghost.py:176-190 | decoding a concatenation of a decodable stream and anything is the first result prepended to the second |
| Lznt1Proofs.StreamHead | Team-Project-main/SMBGhost/ghost.py:178-189 | the first chunk of a decodable stream decodes to the same bytes whatever follows the stream |
| Lznt1Proofs.FrameDecodes | Team-Project-main/SMBGhost/ghost.py:271-278 | a frame written by `compress` decodes, before any rest, to its chunk |
| Lznt1EncoderProofs.CopyStart | Team-Project-main/SMBGhost/ghost.py:197 | a copy from offset o starts with its first min(l, o) bytes sitting at `len(src) - o` in `src`, which is what `rfind` searches for |
| Lznt1EncoderProofs.PrefixOccurs | Team-Project-main/SMBGhost/ghost.py:197 | any prefix of the target no longer than a copy's plain part occurs at `len(src) - o` |
| Lznt1EncoderProofs.TiledCopyIsTile | Team-Project-main/SMBGhost/ghost.py:203 | an overlapping copy from offset i is a prefix of the tile `src[-i:] * (0xFFF / i + 1)` |
| Lznt1EncoderProofs.TilePrefixOccurs | Team-Project-main/SMBGhost/ghost.py:205 | so every prefix of such a copy occurs at the start of the tile |
| Lznt1EncoderProofs.NoCopyFrom | Team-Project-main/SMBGhost/ghost.py:197-199 | once `rfind` fails for the first i bytes, every copy's plain part is shorter than i (why `break` is safe) |
| Lznt1EncoderProofs.NoTiledCopyAt | Team-Project-main/SMBGhost/ghost.py:197-202 | when the rightmost occurrence of the first i bytes is not the last i bytes of `src`, no overlapping copy from offset i exists |
| Lznt1EncoderProofs.NoTiledCopyFrom | Team-Project-main/SMBGhost/ghost.py:205-207 | once `rfind` in the tile fails for the first j bytes, every overlapping copy from offset i is shorter than j (why the inner `break` is safe) |
| Lznt1EncoderProofs.PlainMatch | Team-Project-main/SMBGhost/ghost.py:197-201 | a non-overlapping occurrence gives an offset `len(src) - pos` that copies the prefix |
| Lznt1EncoderProofs.TiledMatch | Team-Project-main/SMBGhost/ghost.py:202-208 | an occurrence in the tiled suffix gives a self-overlapping copy of the longer prefix |
| Lznt1EncoderProofs.EncoderSchedule | Team-Project-main/SMBGhost/ghost.py:221-232 | `pow2` is at least 16, and while the shift is non-negative `l_mask3` is the decoder's mask for that shift plus 3 |
| Lznt1EncoderProofs.EncoderScheduleStep | Team-Project-main/SMBGhost/ghost.py:229-232 | one doubling step keeps the relation between `pow2`, `l_mask3` and `o_shift` |
| Lznt1EncoderProofs.ScheduleAgrees | Team-Project-main/SMBGhost/ghost.py:221-232 | the encoder's schedule equals the decoder's for the same output length |
| Lznt1EncoderProofs.BackRefToken | Team-Project-main/SMBGhost/ghost.py:248 | the packed word decodes to a back-reference that explains `length` bytes of the chunk |
| Lznt1EncoderProofs.ScheduledWord | Team-Project-main/SMBGhost/ghost.py:248 | the decoder recovers the encoder's offset and length from the word |
| Lznt1EncoderProofs.WordFields | Team-Project-main/SMBGhost/ghost.py:162-163 | a word `(o << shift) \| l` with `l` below the mask reads back through `CopyOffset` and `CopyLength` as offset `o + 1` and length `l + 3` |
| Lznt1EncoderProofs.PackFields | Team-Project-main/SMBGhost/ghost.py:248-249 | the word fits 16 bits (so `struct.pack('<H')` accepts it) and splits back into its fields |
| Lznt1EncoderProofs.PendingFlags | Team-Project-main/SMBGhost/ghost.py:228-251 | `bits` stays below 0x100, and its top bit is set exactly when the last token is a back-reference |
| Lznt1EncoderProofs.PendingFlagsValue | Team-Project-main/SMBGhost/ghost.py:228-251 | after k tokens the pending `bits` are the flag value shifted to the top of the byte |
| Lznt1EncoderProofs.PendingStep | Team-Project-main/SMBGhost/ghost.py:228-251 | `bits >>= 1` clears bit 7, so `bits \|= 0x80` adds 0x80 |
| Lznt1EncoderProofs.FlagByte | Team-Project-main/SMBGhost/ghost.py:259 | shifting the pending bits down by 8 - n gives the flag byte, below 0x100 |
| Lznt1EncoderProofs.FrameExtends | Team-Project-main/SMBGhost/ghost.py:274-278 | appending a frame to a decodable stream extends its result by the chunk |
| Lznt1EncoderProofs.FramedDecodes | Team-Project-main/SMBGhost/ghost.py:176-190 | frames whose bodies decode to their chunks decode, with and without the length check, to the chunks laid end to end |
| Lznt1EncoderProofs.FramedSize | Team-Project-main/SMBGhost/ghost.py:271-279 | each frame is at least 3 bytes and at most its chunk plus the 2-byte header |
| Lznt1EncoderProofs.FlattenSnoc | Team-Project-main/SMBGhost/ghost.py:268 | one more chunk appends its bytes to the chunks laid end to end |
| Lznt1EncoderProofs.FramedSnoc | Team-Project-main/SMBGhost/ghost.py:279 | one more chunk appends its frame to the output (`out += ...`) |

## Left out

- Network I/O: `smb_negotiate`, `smb_compress` and every socket call. The
  model stops at the bytes that would be sent.
- The exploitation logic around the core: `compress_evil` (always-compressed
  frames plus a trailing bogus header), the memory read/write primitives,
  page-table walking, shellcode and payload constants. None of it is part of
  this model.
- `int(0xFFF / n + 1)` uses floating-point division. The model uses the integer
  quotient. The two agree for every positive `n` of the size a chunk's history
  can have.
- Lznt1Encoder.Compress: requires `0 < chunkSize <= 0x1000`. With a chunk
  size of 0, empty input gives empty output, and any other input raises
  `struct.error`: the first chunk is empty, so its header packs
  `0x3000 | -1` (ghost.py:277). For a chunk longer than 0x1000, `len - 1`
  no longer fits the 12-bit length field and spills into the flag bits of
  its header. The tool's only caller (ghost.py:438) uses the default 0x1000.
- Smb2Frames.NetBiosSessionPacket.RawBytes: requires a payload shorter than
  2^32 bytes, where `struct.pack('>L', ...)` would raise.
- Smb2Frames.Smb2CompressedTransform.RawBytes: requires a prefix shorter than
  2^32 bytes, for the same reason. The constructor's integer arguments are
  typed as 32-bit values.
- Smb2Frames.Smb2Header.RawBytes: the command and message id are typed `u16`
  and `u64`, so `struct.pack` range errors are excluded by type, not modelled.
- Lznt1Encoder.Find: maximality is stated for copies shorter than `max_len`.
  The tiled search can also reach `max_len` itself, which the contract allows
  but does not promise.
- Lznt1Encoder.Match: for a kept match it states that no copy at the current
  position or one byte later is longer. For a rejected one (a literal) it does
  not state that a longer copy one byte later exists; the round trip covers
  the literal either way.
- The encoder's token list is a ghost value that exists only for the proof.
  The Python code has no such list.
