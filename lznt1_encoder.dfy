/** The encoder as the tool runs it: `_find`'s greedy search for the longest
    earlier copy of the input's next bytes, `_compress_chunk` emitting flag
    groups while it keeps its displacement/length schedule in step with the
    decoder's, and `compress` framing chunk after chunk.  Each is proved to
    produce output that the decoder turns back into the input. */
module Lznt1Encoder {
  import opened Packing
  import opened Bits
  import opened Lznt1
  import opened Lznt1Proofs
  import opened Lznt1EncoderProofs

  /** `_find(src, target, max_len)`: for growing prefixes `target[:i]`,
      `i < max_len`, the last place in `src` where the prefix occurs; a match
      running into the end of `src` is extended through the tiled history up
      to `max_len` bytes.  The longest match wins (the first among equals);
      matches shorter than three bytes give `(0, 0)`.  No copy the decoder
      could make from the history, plain or overlapping, of fewer than
      `max_len` bytes is longer than the result. */
  method Find(src: seq<byte>, target: seq<byte>, maxLen: nat) returns (offset: nat, length: nat)
    ensures length == 0 ==> offset == 0
    ensures length > 0 ==> 3 <= length <= maxLen && offset <= |src|
    ensures 0 < length <= |target| ==> 1 <= offset && Expand(src, offset, length) == Ok(target[..length])
    ensures forall o: nat, l: nat | 3 <= l < maxLen && CopyOf(src, target, o, l) :: l <= length
  {
    var resultOffset: nat, resultLength: nat := 0, 0;
    var i := 1;
    while i < maxLen
      invariant 1 <= i && i - 1 <= resultLength
      invariant resultLength == 0 ==> resultOffset == 0
      invariant resultLength <= maxLen && resultOffset <= |src|
      invariant CopiesPrefix(src, target, resultOffset, resultLength)
      invariant forall o: nat, l: nat | 3 <= l < maxLen && CopyOf(src, target, o, l) && Min(l, o) < i :: l <= resultLength
    {
      var found, tmpOffset, tmpLength := Candidate(src, target, maxLen, i);
      if !found {
        break;
      }
      if tmpLength > resultLength {
        resultOffset, resultLength := tmpOffset, tmpLength;
      }
      i := i + 1;
    }
    if resultLength < 3 {
      return 0, 0;
    }
    return resultOffset, resultLength;
  }

  /** One pass of `_find`'s outer loop: the last occurrence of `target[:i]`
      in `src`, extended through the tiled history when it ends `src`.  When
      `rfind` fails, every copy the decoder could make has `min(l, o) < i`,
      and the loop stops; otherwise the candidate is a copy the decoder
      reproduces, at least as long as every copy with `min(l, o) == i`. */
  method Candidate(src: seq<byte>, target: seq<byte>, maxLen: nat, i: nat)
    returns (found: bool, offset: nat, length: nat)
    requires 1 <= i < maxLen
    ensures !found ==> forall o: nat, l: nat | 3 <= l < maxLen && CopyOf(src, target, o, l) :: Min(l, o) < i
    ensures found ==> i <= length <= maxLen && offset <= |src| && CopiesPrefix(src, target, offset, length)
    ensures found ==> forall o: nat, l: nat | 3 <= l < maxLen && CopyOf(src, target, o, l) && Min(l, o) == i :: l <= length
  {
    var pos := RFind(src, Take(target, i));
    if pos == -1 {
      NoCopyFrom(src, target, maxLen, i);
      return false, 0, 0;
    }
    found, offset, length := true, |src| - pos, i;
    if offset == length {
      var tile := Repeat(src[pos..], 0xFFF / |src[pos..]| + 1);
      length := ExtendRun(src, target, maxLen, i, tile);
    } else {
      if i <= |target| {
        PlainMatch(src, target, i, pos);
      }
      NoTiledCopyAt(src, target, maxLen, i, pos);
    }
  }

  /** The inner loop of `_find` for a match that ends the history: its last
      `i` bytes tiled, and the prefixes `target[:j]`, `j` from `i` up to
      `max_len`, searched in the tile until one is missing.  The longest one
      found is a copy the decoder reproduces, and no longer copy from `i`
      bytes back exists below `max_len`. */
  method ExtendRun(src: seq<byte>, target: seq<byte>, maxLen: nat, i: nat, tile: seq<byte>) returns (length: nat)
    requires 1 <= i < maxLen && i <= |src| && tile == Repeat(src[|src| - i..], 0xFFF / i + 1)
    requires OccursAt(src, Take(target, i), |src| - i)
    ensures i <= length <= maxLen
    ensures CopiesPrefix(src, target, i, length)
    ensures forall l: nat | 3 <= l < maxLen && CopyOf(src, target, i, l) && i <= l :: l <= length
  {
    var pos := |src| - i;
    if i <= |target| {
      TileStart(src[pos..], 0xFFF / i + 1);
      TiledMatch(src, target, i, i, pos, tile, 0);
    }
    length := i;
    var j := i;
    while j < maxLen + 1
      invariant i <= length <= maxLen
      invariant CopiesPrefix(src, target, i, length)
      invariant forall l: nat | 3 <= l < maxLen && CopyOf(src, target, i, l) && i <= l < j :: l <= length
      decreases maxLen + 1 - j
    {
      var k := RFind(tile, Take(target, j));
      if k == -1 {
        NoTiledCopyFrom(src, target, maxLen, i, j, tile);
        return;
      }
      if j <= |target| {
        TiledMatch(src, target, i, j, pos, tile, k);
      }
      length := j;
      j := j + 1;
    }
  }

  /** The loop at the head of each token: while `pow2` is behind the bytes
      produced, double it, halve `l_mask3` (plus one) and drop `o_shift`.
      Afterwards the encoder's shift is the decoder's, and `l_mask3` is the
      decoder's length mask plus three while the shift is not negative. */
  method AdvanceSchedule(pow2: nat, lMask3: nat, oShift: int, produced: nat)
    returns (pow2': nat, lMask3': nat, oShift': int)
    requires EncoderSchedule(pow2, lMask3, oShift) && (oShift == 12 || pow2 < 2 * produced)
    ensures EncoderSchedule(pow2', lMask3', oShift') && produced <= pow2'
    ensures oShift' == 12 || pow2' < 2 * produced
    ensures oShift' == DecoderSchedule(produced).shift
    ensures oShift' >= 0 ==> lMask3' == DecoderSchedule(produced).mask + 3
  {
    pow2', lMask3', oShift' := pow2, lMask3, oShift;
    while pow2' < produced
      invariant EncoderSchedule(pow2', lMask3', oShift') && (oShift' == 12 || pow2' < 2 * produced)
      decreases produced - pow2'
    {
      EncoderScheduleStep(pow2', lMask3', oShift');
      pow2' := pow2' * 2;
      lMask3' := lMask3' / 2 + 1;
      oShift' := oShift' - 1;
    }
    ScheduleAgrees(pow2', lMask3', oShift', produced);
  }

  /** `_compress_chunk`: groups of up to eight tokens behind a flag byte,
      until the chunk is used up.  The token sequence explains the chunk, so
      the decoder recovers it exactly. */
  method CompressChunk(chunk: seq<byte>) returns (out: seq<byte>, ghost tokens: seq<Token>)
    ensures out == EncodeGroups(tokens)
    ensures out == [] <==> chunk == []
    ensures DecodeChunk(out) == Ok(chunk)
  {
    var blob := chunk;
    out, tokens := [], [];
    var pow2, lMask3, oShift := 0x10, 0x1002, 12;
    Pow2Twelve();
    ghost var groups: nat := 0;
    while |blob| > 0
      invariant |blob| <= |chunk| && blob == chunk[|chunk| - |blob|..]
      invariant Spans(chunk, 0, tokens, |chunk| - |blob|) == true
      invariant out == EncodeGroups(tokens) && (|blob| > 0 ==> |tokens| == 8 * groups)
      invariant out == [] <==> |blob| == |chunk|
      invariant EncoderSchedule(pow2, lMask3, oShift) && (oShift == 12 || pow2 < 2 * (|chunk| - |blob|))
      decreases |blob|
    {
      var bytes;
      ghost var group, done;
      bytes, blob, pow2, lMask3, oShift, group, done := CompressGroup(chunk, blob, pow2, lMask3, oShift, tokens);
      EncodeGroupsAppend(tokens, groups, group);
      out := out + bytes;
      tokens := done;
      groups := groups + 1;
    }
    ChunkRoundTrip(chunk, tokens);
  }

  /** One pass of `_compress_chunk`'s outer loop: up to eight tokens, then
      the flag byte `bits >> (7 - i)` and the tokens' bytes.  Only a group
      that uses up the chunk is shorter than eight. */
  method CompressGroup(chunk: seq<byte>, blob: seq<byte>, pow2: nat, lMask3: nat, oShift: int, ghost tokens: seq<Token>)
    returns (bytes: seq<byte>, blob': seq<byte>, pow2': nat, lMask3': nat, oShift': int,
             ghost group: seq<Token>, ghost done: seq<Token>)
    requires 0 < |blob| <= |chunk| && blob == chunk[|chunk| - |blob|..]
    requires Spans(chunk, 0, tokens, |chunk| - |blob|) == true
    requires EncoderSchedule(pow2, lMask3, oShift) && (oShift == 12 || pow2 < 2 * (|chunk| - |blob|))
    ensures |blob'| < |blob| && blob' == chunk[|chunk| - |blob'|..]
    ensures 1 <= |group| <= 8 && (|blob'| > 0 ==> |group| == 8)
    ensures done == tokens + group && Spans(chunk, 0, done, |chunk| - |blob'|) == true
    ensures bytes == [FlagValue(group)] + TokensBytes(group)
    ensures EncoderSchedule(pow2', lMask3', oShift') && (oShift' == 12 || pow2' < 2 * (|chunk| - |blob'|))
  {
    blob', pow2', lMask3', oShift' := blob, pow2, lMask3, oShift;
    var bits := 0;
    var tmp: seq<byte> := [];
    group := [];
    done := tokens;
    assert done == tokens + group;
    // `for i in range(8)` that breaks once the blob is empty: `n` counts the
    // passes made, so `i` at the end is `n - 1`
    var n := 0;
    while n < 8 && |blob'| > 0
      invariant 0 <= n <= 8 && |group| == n && |blob'| <= |blob|
      invariant if n == 0 then |blob'| == |blob| else |blob'| < |blob|
      invariant blob' == chunk[|chunk| - |blob'|..]
      invariant done == tokens + group && Spans(chunk, 0, done, |chunk| - |blob'|) == true
      invariant bits == PendingFlags(group) && tmp == TokensBytes(group)
      invariant EncoderSchedule(pow2', lMask3', oShift') && (oShift' == 12 || pow2' < 2 * (|chunk| - |blob'|))
    {
      ghost var t, done', group';
      blob', bits, tmp, pow2', lMask3', oShift', t, done', group' :=
        NextToken(chunk, blob', bits, tmp, pow2', lMask3', oShift', done, group);
      SnocAssoc(tokens, group, t);
      done, group := done', group';
      n := n + 1;
    }
    var flags := FlagsOf(bits, n, group);
    bytes := [flags] + tmp;
  }

  /** `bits >> (7 - i)` with `i = n - 1` after the last of the group's `n`
      tokens: the group's flag byte. */
  method FlagsOf(bits: nat, n: nat, ghost group: seq<Token>) returns (flags: byte)
    requires 1 <= n <= 8 && |group| == n && bits == PendingFlags(group)
    ensures flags == FlagValue(group)
  {
    FlagByte(group, bits, 8 - n);
    flags := bits / Pow2(8 - n);
  }

  /** One pass of the inner loop of `_compress_chunk`, with `blob` the part
      of the chunk still to encode: `bits` shifted right, the schedule
      brought up to date, then a copy of up to `l_mask3` bytes if the search
      finds one (its word appended to `tmp` and the top bit of `bits` set),
      or else the next byte as a literal.  The new token explains the bytes
      it takes off `blob`. */
  method NextToken(chunk: seq<byte>, blob: seq<byte>, bits: nat, tmp: seq<byte>, pow2: nat, lMask3: nat, oShift: int,
                   ghost done: seq<Token>, ghost group: seq<Token>)
    returns (blob': seq<byte>, bits': nat, tmp': seq<byte>, pow2': nat, lMask3': nat, oShift': int,
             ghost t: Token, ghost done': seq<Token>, ghost group': seq<Token>)
    requires 0 < |blob| <= |chunk| && blob == chunk[|chunk| - |blob|..]
    requires Spans(chunk, 0, done, |chunk| - |blob|) == true
    requires |group| < 8 && bits == PendingFlags(group) && tmp == TokensBytes(group)
    requires EncoderSchedule(pow2, lMask3, oShift) && (oShift == 12 || pow2 < 2 * (|chunk| - |blob|))
    ensures done' == done + [t] && group' == group + [t]
    ensures |blob'| < |blob| && blob' == chunk[|chunk| - |blob'|..]
    ensures Spans(chunk, 0, done', |chunk| - |blob'|) == true
    ensures bits' == PendingFlags(group') && tmp' == TokensBytes(group')
    ensures EncoderSchedule(pow2', lMask3', oShift') && (oShift' == 12 || pow2' < 2 * (|chunk| - |blob'|))
  {
    bits' := bits / 2;
    var produced := |chunk| - |blob|;
    var piece, length, isRef;
    piece, length, isRef, pow2', lMask3', oShift', t := ChooseToken(chunk, produced, pow2, lMask3, oShift, done);
    bits', tmp' := RecordToken(bits', tmp, piece, isRef, group, t);
    blob' := blob[length..];
    assert blob' == chunk[produced + length..] && |chunk| - |blob'| == produced + length;
    done', group' := done + [t], group + [t];
  }

  /** `tmp += ...` and, for a back-reference, `bits |= 0x80`: the group's
      pending flag bits and token bytes now include `t`. */
  method RecordToken(bits: nat, tmp: seq<byte>, piece: seq<byte>, isRef: bool, ghost group: seq<Token>, ghost t: Token)
    returns (bits': nat, tmp': seq<byte>)
    requires |group| < 8 && bits == PendingFlags(group) / 2 && tmp == TokensBytes(group)
    requires piece == TokenBytes(t) && isRef == t.BackRef?
    ensures bits' == PendingFlags(group + [t]) && tmp' == TokensBytes(group + [t])
  {
    PendingStep(group, t);
    TokensBytesAppend(group, t);
    tmp' := tmp + piece;
    bits' := bits;
    if isRef {
      // set the highest bit
      bits' := bits' + 0x80;
    }
  }

  /** The token itself, once `produced` bytes of the chunk are behind it:
      the schedule brought up to date, then a copy of up to `l_mask3` bytes
      if the search finds one, or else the next byte as a literal. */
  method ChooseToken(chunk: seq<byte>, produced: nat, pow2: nat, lMask3: nat, oShift: int, ghost done: seq<Token>)
    returns (bytes: seq<byte>, length: nat, isRef: bool, pow2': nat, lMask3': nat, oShift': int, ghost t: Token)
    requires produced < |chunk| && Spans(chunk, 0, done, produced) == true
    requires EncoderSchedule(pow2, lMask3, oShift) && (oShift == 12 || pow2 < 2 * produced)
    ensures 1 <= length <= |chunk| - produced && Spans(chunk, 0, done + [t], produced + length) == true
    ensures bytes == TokenBytes(t) && isRef == t.BackRef?
    ensures EncoderSchedule(pow2', lMask3', oShift') && (oShift' == 12 || pow2' < 2 * produced)
  {
    pow2', lMask3', oShift' := AdvanceSchedule(pow2, lMask3, oShift, produced);
    var maxLen := if |chunk| - produced < lMask3' then |chunk| - produced else lMask3';
    var offset;
    offset, length := Match(chunk, produced, maxLen);
    if length > 0 {
      var symbol := Symbol(chunk, produced, offset, length, oShift');
      t := BackRef(symbol);
      bytes, isRef := PackLe16(symbol), true;
    } else {
      t := Literal(chunk[produced]);
      bytes, length, isRef := [chunk[produced]], 1, false;
    }
    SpansAppend(chunk, 0, done, produced, t, produced + length);
  }

  /** The search at the head of a token: the longest earlier copy of the
      rest of the chunk, up to `maxLen` bytes, given up (length zero) when
      the search from one byte further on finds a longer one.  A match that
      is kept is at least as long as every copy the decoder could make here,
      and as every copy it could make one byte further on. */
  method Match(chunk: seq<byte>, produced: nat, maxLen: nat) returns (offset: nat, length: nat)
    requires produced < |chunk| && maxLen <= |chunk| - produced
    ensures length > 0 ==> 3 <= length <= maxLen && 1 <= offset <= produced
    ensures length > 0 ==> Expand(chunk[..produced], offset, length) == Ok(chunk[produced..produced + length])
    ensures length > 0 ==>
      forall o: nat, l: nat | 3 <= l < maxLen && CopyAt(chunk, produced, o, l) :: l <= length
    ensures length > 0 ==> var next := produced + 1;
      forall o: nat, l: nat | 3 <= l < maxLen && CopyAt(chunk, next, o, l) :: l <= length
  {
    var blob := chunk[produced..];
    offset, length := Find(chunk[..produced], blob, maxLen);
    // try to find a longer match one byte further on
    assert blob[1..] == chunk[produced + 1..];
    var offset2, length2 := Find(chunk[..produced + 1], blob[1..], maxLen);
    if length < length2 {
      length := 0;
    }
    if length > 0 {
      assert blob[..length] == chunk[produced..produced + length];
    }
  }

  /** The word `((offset - 1) << o_shift) | (length - 3)` for a copy the
      decoder, with `p` bytes of history, expands to the next `length` bytes
      of the chunk. */
  method Symbol(ghost chunk: seq<byte>, ghost p: nat, offset: nat, length: nat, oShift: int) returns (symbol: u16)
    requires oShift == DecoderSchedule(p).shift && oShift >= 0
    requires 1 <= offset <= p && 3 <= length <= DecoderSchedule(p).mask + 3 && p + length <= |chunk|
    requires Expand(chunk[..p], offset, length) == Ok(chunk[p..p + length])
    ensures symbol == (offset - 1) * Pow2(oShift) + (length - 3)
    ensures Explains(chunk, p, BackRef(symbol)) && TokenSpan(BackRef(symbol), p) == length
  {
    ghost var sym := BackRefToken(chunk, p, offset, length);
    symbol := (offset - 1) * Pow2(oShift) + (length - 3);
  }

  /** How many chunks of `size` bytes `compress` cuts `n` bytes into. */
  function ChunkCount(n: nat, size: nat): nat
    requires size > 0
  {
    if n == 0 then 0 else 1 + ChunkCount(n - Min(n, size), size)
  }

  /** `ChunkCount` is the number of chunks rounded up: `n / size` full chunks and one
      more for a remainder. */
  lemma {:induction false} ChunkCountCeil(n: nat, size: nat)
    requires size > 0
    ensures ChunkCount(n, size) == (n + size - 1) / size
    decreases n
  {
    if n > size {
      ChunkCountCeil(n - size, size);
      DivAddMultiple(n - size + size - 1, 1, size);
    } else if n > 0 {
      DivAddMultiple(n - 1, 1, size);
    }
  }

  /** `compress`: the input cut into chunks of `chunkSize` bytes (the last
      one possibly shorter), each stored under `Frame`: compressed when that
      is strictly shorter and raw otherwise.  Every compressed body decodes
      to its chunk, so the decoder, with or without its length check,
      returns the input. */
  method Compress(buf: seq<byte>, chunkSize: nat) returns (out: seq<byte>, ghost chunks: seq<seq<byte>>, ghost bodies: seq<seq<byte>>)
    requires 0 < chunkSize <= 0x1000
    ensures Flatten(chunks) == buf && |chunks| == |bodies| == ChunkCount(|buf|, chunkSize)
    ensures forall k | 0 <= k < |chunks| ::
      1 <= |chunks[k]| <= chunkSize && (k < |chunks| - 1 ==> |chunks[k]| == chunkSize)
    ensures forall k | 0 <= k < |chunks| :: 1 <= |bodies[k]| && DecodeChunk(bodies[k]) == Ok(chunks[k])
    ensures out == Framed(chunks, bodies)
    ensures DecodeStream(out, true) == Ok(buf)
    ensures DecodeStream(out, false) == Ok(buf)
    ensures out == [] <==> buf == []
    ensures |out| <= |buf| + 2 * ChunkCount(|buf|, chunkSize)
  {
    out := [];
    var rest := buf;
    chunks, bodies := [], [];
    while |rest| > 0
      invariant buf == Flatten(chunks) + rest
      invariant Stored(chunks, bodies, chunkSize, rest == [])
      invariant out == Framed(chunks, bodies)
      invariant |chunks| + ChunkCount(|rest|, chunkSize) == ChunkCount(|buf|, chunkSize)
      decreases |rest|
    {
      var frame, chunk, rest';
      ghost var body;
      frame, chunk, rest', body := CompressFrame(rest, chunkSize);
      CompressStep(buf, chunkSize, out, rest, chunks, bodies, frame, chunk, rest', body);
      ChunksSnoc(chunks, bodies, chunk, body, chunkSize, rest' == []);
      out, chunks, bodies, rest := out + frame, chunks + [chunk], bodies + [body], rest';
    }
    assert Flatten(chunks) == buf;
    CompressedStream(buf, chunkSize, chunks, bodies);
  }

  /** What the chunks and bodies `compress` ends with give its output: the
      decoder, in either mode, returns the input, and the output is empty
      exactly when the input is, and otherwise at most two header bytes per
      chunk longer than the input. */
  lemma CompressedStream(buf: seq<byte>, chunkSize: nat, chunks: seq<seq<byte>>, bodies: seq<seq<byte>>)
    requires 0 < chunkSize <= 0x1000
    requires Stored(chunks, bodies, chunkSize, true) && Flatten(chunks) == buf
    requires |chunks| == ChunkCount(|buf|, chunkSize)
    ensures DecodeStream(Framed(chunks, bodies), true) == Ok(buf)
    ensures DecodeStream(Framed(chunks, bodies), false) == Ok(buf)
    ensures Framed(chunks, bodies) == [] <==> buf == []
    ensures |Framed(chunks, bodies)| <= |buf| + 2 * ChunkCount(|buf|, chunkSize)
  {
    FramedDecodes(chunks, bodies);
    FramedSize(chunks, bodies);
  }

  /** The chunks cut so far with their stored bodies: each chunk holds 1 to
      `chunkSize` bytes, all of them full but, once the input is `closed`,
      the last, and each body is nonempty and decodes to its chunk. */
  predicate Stored(chunks: seq<seq<byte>>, bodies: seq<seq<byte>>, chunkSize: nat, closed: bool)
  {
    |chunks| == |bodies| &&
    forall k | 0 <= k < |chunks| ::
      1 <= |chunks[k]| <= chunkSize && (k < |chunks| - 1 || !closed ==> |chunks[k]| == chunkSize) &&
      1 <= |bodies[k]| && DecodeChunk(bodies[k]) == Ok(chunks[k])
  }

  /** One pass of `compress` keeps its loop's invariant: the chunk just cut
      and its frame extend the chunks and the output, and one chunk fewer is
      left to cut. */
  lemma CompressStep(buf: seq<byte>, chunkSize: nat, out: seq<byte>, rest: seq<byte>,
                     chunks: seq<seq<byte>>, bodies: seq<seq<byte>>,
                     frame: seq<byte>, chunk: seq<byte>, rest': seq<byte>, body: seq<byte>)
    requires 0 < chunkSize <= 0x1000 && |rest| > 0
    requires buf == Flatten(chunks) + rest
    requires |chunks| == |bodies|
    requires forall k | 0 <= k < |chunks| :: 1 <= |chunks[k]| <= 0x1000 && 1 <= |bodies[k]|
    requires out == Framed(chunks, bodies)
    requires |chunks| + ChunkCount(|rest|, chunkSize) == ChunkCount(|buf|, chunkSize)
    requires |chunk| == Min(|rest|, chunkSize) && rest == chunk + rest'
    requires 1 <= |body| && frame == Frame(chunk, body)
    requires ChunkCount(|rest|, chunkSize) == 1 + ChunkCount(|rest'|, chunkSize)
    ensures buf == Flatten(chunks + [chunk]) + rest'
    ensures out + frame == Framed(chunks + [chunk], bodies + [body])
    ensures |chunks + [chunk]| + ChunkCount(|rest'|, chunkSize) == ChunkCount(|buf|, chunkSize)
  {
    FlattenSnoc(chunks, chunk);
    FramedSnoc(chunks, bodies, chunk, body);
    ConcatAssoc(Flatten(chunks), chunk, rest');
  }

  /** The chunk just stored keeps the chunks' sizes and bodies as
      `compress` promises them: all full but the last. */
  lemma ChunksSnoc(chunks: seq<seq<byte>>, bodies: seq<seq<byte>>, chunk: seq<byte>, body: seq<byte>,
                   chunkSize: nat, closed: bool)
    requires Stored(chunks, bodies, chunkSize, false)
    requires 1 <= |chunk| <= chunkSize && (!closed ==> |chunk| == chunkSize)
    requires 1 <= |body| && DecodeChunk(body) == Ok(chunk)
    ensures Stored(chunks + [chunk], bodies + [body], chunkSize, closed)
  {
  }

  /** One pass of the loop in `compress`: the next chunk of at most
      `chunkSize` bytes and the frame that stores it, with the chunk's
      compressed body. */
  method CompressFrame(rest: seq<byte>, chunkSize: nat)
    returns (frame: seq<byte>, chunk: seq<byte>, rest': seq<byte>, ghost compressed: seq<byte>)
    requires 0 < chunkSize <= 0x1000 && |rest| > 0
    ensures |chunk| == Min(|rest|, chunkSize) && rest == chunk + rest'
    ensures 1 <= |compressed| && DecodeChunk(compressed) == Ok(chunk)
    ensures frame == Frame(chunk, compressed)
    ensures ChunkCount(|rest|, chunkSize) == 1 + ChunkCount(|rest'|, chunkSize)
  {
    chunk := Take(rest, chunkSize);
    rest' := rest[|chunk|..];
    assert rest == chunk + rest';
    frame, compressed := StoreChunk(chunk);
  }

  /** The body of one pass: the chunk is compressed, and the frame keeps the
      compressed body when it is strictly shorter than the chunk, the raw
      chunk otherwise; either way its header declares the stored length. */
  method StoreChunk(chunk: seq<byte>) returns (frame: seq<byte>, compressed: seq<byte>)
    requires 1 <= |chunk| <= 0x1000
    ensures compressed != [] && frame == Frame(chunk, compressed)
    ensures DecodeChunk(compressed) == Ok(chunk)
    ensures 2 < |frame| <= |chunk| + 2
  {
    ghost var tokens;
    compressed, tokens := CompressChunk(chunk);
    frame := Frame(chunk, compressed);
  }
}
