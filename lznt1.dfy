/** LZNT1 ([MS-XCA] section 2.5) as the tool implements it, written as
    functions: what the decoder produces from a byte string, what the encoder's
    token stream looks like on the wire, and the facts about a token sequence
    that make it decode back to a chunk.  The imperative decoder and encoder
    are proved against these definitions. */
module Lznt1 {
  import opened Packing
  import opened Bits

  /** The exceptions the Python code can raise while decoding. */
  datatype Error =
    | TruncatedHeader     // struct.error: one byte left where a chunk header is read
    | InvalidChunkLength  // ValueError('invalid chunk length') from the length check
    | TruncatedLiteral    // IndexError: a literal is flagged but no byte is left
    | TruncatedToken      // struct.error: a back-reference with fewer than two bytes left
    | NegativeShift       // ValueError: the offset shift fell below zero
    | ZeroDivision        // ZeroDivisionError: tiling an empty history

  datatype Result<T> = Ok(value: T) | Err(error: Error)

  /** Prefix the bytes of an earlier chunk to the outcome of the rest. */
  function Prepend(x: seq<byte>, r: Result<seq<byte>>): Result<seq<byte>>
  {
    if r.Ok? then Ok(x + r.value) else r
  }

  // ---------------------------------------------------------------------
  // The displacement/length schedule

  /** How often `pos >>= 1` runs before `pos < 0x10`. */
  function Halvings(pos: int): nat
    decreases pos
  {
    if pos >= 0x10 then 1 + Halvings(pos / 2) else 0
  }

  /** `l_mask` and `o_shift` of the decoder once `produced` bytes have been
      written to the chunk's output (`pos = len(out) - 1`). */
  datatype Schedule = Schedule(mask: nat, shift: int)

  function DecoderSchedule(produced: nat): (s: Schedule)
    ensures s.shift <= 12
  {
    var c := Halvings(produced - 1);
    Schedule(0xFFF / Pow2(c), 12 - c)
  }

  /** The bytes a back-reference word copies: its low bits under the mask,
      plus three. */
  function CopyLength(word: nat, s: Schedule): (length: nat)
    ensures 3 <= length <= s.mask + 3
  {
    word % (s.mask + 1) + 3
  }

  /** How far back a back-reference word reaches: its high bits, plus one. */
  function CopyOffset(word: nat, s: Schedule): (offset: nat)
    requires s.shift >= 0
    ensures offset >= 1
  {
    word / Pow2(s.shift) + 1
  }

  // ---------------------------------------------------------------------
  // Decoding

  /** `s * n` on Python bytes. */
  function Repeat(s: seq<byte>, n: nat): (r: seq<byte>)
    ensures |r| == |s| * n
  {
    if n == 0 then [] else s + Repeat(s, n - 1)
  }

  /** The bytes a back-reference with `offset >= 1` appends to `out`.  Python
      slicing clamps: when `offset` exceeds the history, `out[-offset:]` is the
      whole history.  A copy that overlaps its own output tiles the source
      `0xFFF // n + 1` times and keeps the first `length` bytes. */
  function Expand(out: seq<byte>, offset: nat, length: nat): (r: Result<seq<byte>>)
    requires offset >= 1
    ensures r.Ok? ==> |r.value| <= length
    ensures r.Err? <==> length >= offset && out == []
    ensures r.Err? ==> r.error == ZeroDivision
  {
    var start := if |out| >= offset then |out| - offset else 0;
    if length >= offset then
      var src := out[start..];
      if |src| == 0 then Err(ZeroDivision)
      else
        var tile := Repeat(src, 0xFFF / |src| + 1);
        Ok(tile[..Min(length, |tile|)])
    else
      var stop := if |out| + length >= offset then |out| - offset + length else 0;
      Ok(out[start..stop])
  }

  /** What one token does: the output grows, the input shrinks. */
  datatype Step = Step(out: seq<byte>, rest: seq<byte>)

  /** Decode one token of a compressed chunk given its flag bit. */
  function DecodeToken(isRef: bool, out: seq<byte>, rest: seq<byte>): (r: Result<Step>)
    ensures r.Ok? ==> |r.value.rest| < |rest|
    ensures r.Ok? ==> |out| <= |r.value.out| && r.value.out[..|out|] == out
    ensures !isRef ==> (r.Ok? <==> rest != [])
    ensures r.Err? ==> r.error in {TruncatedLiteral, TruncatedToken, NegativeShift, ZeroDivision}
  {
    if !isRef then
      if |rest| == 0 then Err(TruncatedLiteral)
      else Ok(Step(out + [rest[0]], rest[1..]))
    else if |rest| < 2 then Err(TruncatedToken)
    else
      var flag := UnpackLe(rest[..2]);
      var s := DecoderSchedule(|out|);
      if s.shift < 0 then Err(NegativeShift)
      else
        var piece := Expand(out, CopyOffset(flag, s), CopyLength(flag, s));
        if piece.Err? then Err(piece.error)
        else Ok(Step(out + piece.value, rest[2..]))
  }

  /** Tokens `i..7` of a group whose flag byte is `flags`; decoding stops as
      soon as the input is used up. */
  function DecodeTokens(flags: byte, i: nat, out: seq<byte>, rest: seq<byte>): (r: Result<seq<byte>>)
    requires i < 8
    ensures r.Ok? ==> |out| <= |r.value| && r.value[..|out|] == out
    ensures r.Err? ==> r.error !in {TruncatedHeader, InvalidChunkLength}
    decreases |rest|
  {
    var r := DecodeToken((flags / Pow2(i)) % 2 == 1, out, rest);
    if r.Err? then Err(r.error)
    else if r.value.rest == [] then Ok(r.value.out)
    else if i == 7 then DecodeGroups(r.value.out, r.value.rest)
    else DecodeTokens(flags, i + 1, r.value.out, r.value.rest)
  }

  /** Flag groups, each a flag byte and up to eight tokens. */
  function DecodeGroups(out: seq<byte>, rest: seq<byte>): (r: Result<seq<byte>>)
    ensures r.Ok? ==> |out| <= |r.value| && r.value[..|out|] == out
    ensures r.Err? ==> r.error !in {TruncatedHeader, InvalidChunkLength}
    decreases |rest|
  {
    if rest == [] then Ok(out) else DecodeTokens(rest[0], 0, out, rest[1..])
  }

  /** The body of one compressed chunk; the history starts empty. */
  function DecodeChunk(chunk: seq<byte>): (r: Result<seq<byte>>)
    ensures chunk == [] ==> r == Ok([])
    ensures r.Err? ==> r.error !in {TruncatedHeader, InvalidChunkLength}
  {
    DecodeGroups([], chunk)
  }

  /** A chunked stream: a 2-byte little-endian header per chunk, bit 15 set for
      a compressed body, the low 12 bits holding the body length minus one. */
  function DecodeStream(buf: seq<byte>, lengthCheck: bool): (r: Result<seq<byte>>)
    ensures r == Err(InvalidChunkLength) ==> lengthCheck
    decreases |buf|
  {
    if buf == [] then Ok([])
    else if |buf| < 2 then Err(TruncatedHeader)
    else
      var header := UnpackLe(buf[..2]);
      var length := header % 0x1000 + 1;
      if lengthCheck && length > |buf| - 2 then Err(InvalidChunkLength)
      else
        var end := Min(2 + length, |buf|);
        var chunk := buf[2..end];
        var body := if (header / 0x8000) % 2 == 1 then DecodeChunk(chunk) else Ok(chunk);
        if body.Err? then Err(body.error)
        else Prepend(body.value, DecodeStream(buf[end..], lengthCheck))
  }

  // ---------------------------------------------------------------------
  // Encoding

  /** A token as it goes on the wire: a literal byte, or the 16-bit word of a
      back-reference. */
  datatype Token = Literal(value: byte) | BackRef(symbol: u16)

  function TokenBytes(t: Token): (r: seq<byte>)
    ensures 1 <= |r| <= 2
  {
    match t
    case Literal(b) => [b]
    case BackRef(sym) => PackLe16(sym)
  }

  function TokensBytes(ts: seq<Token>): (r: seq<byte>)
    ensures |ts| <= |r| <= 2 * |ts|
  {
    if ts == [] then [] else TokenBytes(ts[0]) + TokensBytes(ts[1..])
  }

  /** The flag byte of a group: bit `i` is set exactly when token `i` is a
      back-reference. */
  function FlagValue(g: seq<Token>): (f: nat)
    ensures f < Pow2(|g|)
    ensures |g| <= 8 ==> f < 0x100
  {
    Pow2Byte(|g|);
    if g == [] then 0
    else FlagValue(g[..|g| - 1]) + (if g[|g| - 1].BackRef? then Pow2(|g| - 1) else 0)
  }

  /** The compressed body: tokens in groups of eight, each group preceded by
      its flag byte; only the last group may be shorter. */
  function EncodeGroups(ts: seq<Token>): (r: seq<byte>)
    ensures r == [] <==> ts == []
    ensures |ts| < |r| <= 3 * |ts| || ts == []
    decreases |ts|
  {
    if ts == [] then []
    else
      var n := Min(8, |ts|);
      [FlagValue(ts[..n])] + TokensBytes(ts[..n]) + EncodeGroups(ts[n..])
  }

  /** How many bytes token `t` stands for when the decoder meets it with `p`
      bytes of history. */
  function TokenSpan(t: Token, p: nat): nat
  {
    match t
    case Literal(_) => 1
    case BackRef(sym) => CopyLength(sym, DecoderSchedule(p))
  }

  /** Token `t`, met by the decoder after `chunk[..p]`, reproduces the next
      `TokenSpan(t, p)` bytes of `chunk`. */
  predicate Explains(chunk: seq<byte>, p: nat, t: Token)
  {
    p + TokenSpan(t, p) <= |chunk| &&
    match t
    case Literal(b) => chunk[p] == b
    case BackRef(sym) =>
      var s := DecoderSchedule(p);
      s.shift >= 0 &&
      Expand(chunk[..p], CopyOffset(sym, s), TokenSpan(t, p)) == Ok(chunk[p..p + TokenSpan(t, p)])
  }

  /** Tokens `ts`, met after `chunk[..p]`, reproduce exactly `chunk[p..q]`. */
  predicate Spans(chunk: seq<byte>, p: nat, ts: seq<Token>, q: nat)
    decreases |ts|
  {
    if ts == [] then p == q
    else Explains(chunk, p, ts[0]) && Spans(chunk, p + TokenSpan(ts[0], p), ts[1..], q)
  }

  /** `pat` occurs in `s` at index `k`. */
  predicate OccursAt(s: seq<byte>, pat: seq<byte>, k: int)
  {
    0 <= k && k + |pat| <= |s| && s[k..k + |pat|] == pat
  }

  /** Python's `bytes.rfind`: the last index where `pat` occurs, or -1. */
  function RFind(s: seq<byte>, pat: seq<byte>): (r: int)
    ensures r == -1 || OccursAt(s, pat, r)
    ensures forall k | r < k :: !OccursAt(s, pat, k)
    decreases |s|
  {
    if |pat| > |s| then -1
    else if s[|s| - |pat|..] == pat then |s| - |pat|
    else
      var r := RFind(s[..|s| - 1], pat);
      assert forall k | r < k :: !OccursAt(s, pat, k) by {
        forall k | r < k
          ensures !OccursAt(s, pat, k)
        {
          if 0 <= k && k + |pat| <= |s| - 1 {
            assert s[..|s| - 1][k..k + |pat|] == s[k..k + |pat|];
            assert !OccursAt(s[..|s| - 1], pat, k);
          } else if k + |pat| == |s| {
            assert s[k..k + |pat|] == s[|s| - |pat|..];
          }
        }
      }
      r
  }

  /** `s[:n]` on Python bytes: at most the first `n` bytes. */
  function Take(s: seq<byte>, n: nat): (r: seq<byte>)
    ensures |r| == Min(n, |s|) && r == s[..|r|]
  {
    s[..Min(n, |s|)]
  }

  /** One chunk of the compressed stream: the compressed body under header
      `0xB000 | (len - 1)` when it is strictly shorter than the chunk, else the
      raw chunk under `0x3000 | (len - 1)`.  The body length is below 0x1000,
      so `|` adds bits that are clear. */
  function Frame(chunk: seq<byte>, compressed: seq<byte>): (r: seq<byte>)
    requires 1 <= |chunk| <= 0x1000 && 1 <= |compressed|
    ensures 2 < |r| <= |chunk| + 2
    ensures UnpackLe(r[..2]) % 0x1000 + 1 == |r| - 2
    ensures (UnpackLe(r[..2]) / 0x8000) % 2 == 1 <==> |compressed| < |chunk|
    ensures UnpackLe(r[..2]) / 0x1000 == if |compressed| < |chunk| then 0xB else 0x3
    ensures r[2..] == if |compressed| < |chunk| then compressed else chunk
  {
    if |compressed| < |chunk| then
      PackLe16(0xB000 + (|compressed| - 1)) + compressed
    else
      PackLe16(0x3000 + (|chunk| - 1)) + chunk
  }

  /** Chunks laid end to end. */
  function Flatten(chunks: seq<seq<byte>>): seq<byte>
  {
    if chunks == [] then [] else Flatten(chunks[..|chunks| - 1]) + chunks[|chunks| - 1]
  }

  /** The stream `compress` writes: chunk after chunk, each under `Frame`
      with the compressed body the encoder produced for it. */
  function Framed(chunks: seq<seq<byte>>, bodies: seq<seq<byte>>): seq<byte>
    requires |chunks| == |bodies|
    requires forall k | 0 <= k < |chunks| :: 1 <= |chunks[k]| <= 0x1000 && 1 <= |bodies[k]|
  {
    if chunks == [] then [] else
      var n := |chunks| - 1;
      Framed(chunks[..n], bodies[..n]) + Frame(chunks[n], bodies[n])
  }
}
