/** The decoder as the tool runs it: loops that consume the input by
    re-slicing and append to the output, proved to compute `DecodeChunk` and
    `DecodeStream`. */
module Lznt1Decoder {
  import opened Packing
  import opened Bits
  import opened Lznt1
  import opened Lznt1Proofs

  /** `_decompress_chunk`: flag byte by flag byte, up to eight tokens each,
      stopping as soon as the chunk is used up. */
  method DecompressChunk(chunk: seq<byte>) returns (r: Result<seq<byte>>)
    ensures r == DecodeChunk(chunk)
  {
    var out: seq<byte> := [];
    var rest := chunk;
    while |rest| > 0
      invariant DecodeChunk(chunk) == DecodeGroups(out, rest)
      decreases |rest|
    {
      ghost var group := rest;
      var flags := rest[0];
      rest := rest[1..];
      var i := 0;
      while i < 8
        invariant 0 <= i <= 8 && |rest| < |group|
        invariant i < 8 ==> DecodeChunk(chunk) == DecodeTokens(flags, i, out, rest)
        invariant i == 8 ==> DecodeChunk(chunk) == DecodeGroups(out, rest) && rest != []
        decreases 8 - i
      {
        ghost var before, input := out, rest;
        if (flags / Pow2(i)) % 2 == 0 {
          if |rest| == 0 {
            return Err(TruncatedLiteral);
          }
          out := out + [rest[0]];
          rest := rest[1..];
        } else {
          var step := BackReference(out, rest);
          if step.Err? {
            return Err(step.error);
          }
          out, rest := step.value.out, step.value.rest;
        }
        DecodeTokensStep(flags, i, before, input, out, rest);
        if |rest| == 0 {
          break;
        }
        i := i + 1;
      }
    }
    return Ok(out);
  }

  /** One back-reference token: its 16-bit word, the schedule for the
      current output length, and the bytes it copies. */
  method BackReference(out: seq<byte>, rest: seq<byte>) returns (r: Result<Step>)
    ensures r == DecodeToken(true, out, rest)
  {
    if |rest| < 2 {
      return Err(TruncatedToken);
    }
    var flag := UnpackLe(rest[..2]);
    var schedule := CurrentSchedule(|out|);
    var length := flag % (schedule.mask + 1) + 3;
    if schedule.shift < 0 {
      return Err(NegativeShift);
    }
    var offset := flag / Pow2(schedule.shift) + 1;
    assert length == CopyLength(flag, schedule) && offset == CopyOffset(flag, schedule);
    var piece := Expand(out, offset, length);
    if piece.Err? {
      return Err(piece.error);
    }
    return Ok(Step(out + piece.value, rest[2..]));
  }

  /** The loop at the head of a back-reference: `pos = len(out) - 1`, and
      `l_mask`, `o_shift` and `pos` are halved, decremented and halved while
      `pos >= 0x10`. */
  method CurrentSchedule(produced: nat) returns (s: Schedule)
    ensures s == DecoderSchedule(produced)
  {
    var pos := produced - 1;
    var lMask := 0xFFF;
    var oShift := 12;
    ghost var c := 0;
    while pos >= 0x10
      invariant Halvings(produced - 1) == c + Halvings(pos)
      invariant lMask == 0xFFF / Pow2(c) && oShift == 12 - c
      decreases pos
    {
      ShiftedMaskStep(c);
      lMask := lMask / 2;
      oShift := oShift - 1;
      pos := pos / 2;
      c := c + 1;
    }
    return Schedule(lMask, oShift);
  }

  /** `decompress`: chunk after chunk, each under its 2-byte header, with the
      length check when `lengthCheck` holds. */
  method Decompress(buf: seq<byte>, lengthCheck: bool) returns (r: Result<seq<byte>>)
    ensures r == DecodeStream(buf, lengthCheck)
  {
    var out: seq<byte> := [];
    var rest := buf;
    PrependEmpty(DecodeStream(buf, lengthCheck));
    while |rest| > 0
      invariant DecodeStream(buf, lengthCheck) == Prepend(out, DecodeStream(rest, lengthCheck))
      decreases |rest|
    {
      var step := DecompressFrame(rest, lengthCheck);
      if step.Err? {
        return Err(step.error);
      }
      PrependPrepend(out, step.value.out, DecodeStream(step.value.rest, lengthCheck));
      out, rest := out + step.value.out, step.value.rest;
    }
    assert out + [] == out;
    return Ok(out);
  }

  /** One pass of `decompress`'s loop: the header, the length check, then the
      body stored raw or decompressed.  The stream's result is this chunk's
      bytes ahead of the rest's. */
  method DecompressFrame(rest: seq<byte>, lengthCheck: bool) returns (r: Result<Step>)
    requires |rest| > 0
    ensures r.Err? ==> DecodeStream(rest, lengthCheck) == Err(r.error)
    ensures r.Ok? ==> |r.value.rest| < |rest|
    ensures r.Ok? ==> DecodeStream(rest, lengthCheck) == Prepend(r.value.out, DecodeStream(r.value.rest, lengthCheck))
  {
    if |rest| < 2 {
      return Err(TruncatedHeader);
    }
    var header := UnpackLe(rest[..2]);
    var length := header % 0x1000 + 1;
    if lengthCheck && length > |rest| - 2 {
      return Err(InvalidChunkLength);
    }
    var end := Min(2 + length, |rest|);
    var chunk := rest[2..end];
    var body := chunk;
    if (header / 0x8000) % 2 == 1 {
      var decoded := DecompressChunk(chunk);
      if decoded.Err? {
        return Err(decoded.error);
      }
      body := decoded.value;
    }
    return Ok(Step(body, rest[end..]));
  }
}
