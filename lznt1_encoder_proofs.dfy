/** Facts the encoder's proof rests on: what a match found by `_find` copies,
    how the encoder's schedule tracks the decoder's, and how the flag byte is
    assembled one bit at a time. */
module Lznt1EncoderProofs {
  import opened Packing
  import opened Bits
  import opened Lznt1
  import opened Lznt1Proofs

  /** A back-reference `offset` bytes back, `length` bytes long, reproduces the
      first `length` bytes of `target` after the history `src`. */
  predicate CopiesPrefix(src: seq<byte>, target: seq<byte>, offset: nat, length: nat)
  {
    0 < length <= |target| ==> 1 <= offset && Expand(src, offset, length) == Ok(target[..length])
  }

  /** The encoder's `pow2`, `l_mask3` and `o_shift` after `12 - oShift`
      doublings: `l_mask3` is the longest match plus one while a shift is
      left, and 2 (no match of three bytes fits) afterwards. */
  predicate EncoderSchedule(pow2: int, lMask3: int, oShift: int): (b: bool)
    ensures b ==> pow2 >= 16 && lMask3 >= 2
    ensures b && 0 <= oShift <= 12 ==> lMask3 == 0xFFF / Pow2(12 - oShift) + 3
  {
    if oShift <= 12 then
      ShiftedMask(12 - oShift);
      pow2 == 16 * Pow2(12 - oShift) && lMask3 == if oShift >= 0 then Pow2(oShift) + 2 else 2
    else false
  }

  // ---------------------------------------------------------------------
  // Matches

  /** The decoder, after the history `src`, reproduces the first `l` bytes
      of `target` with a back-reference `o` bytes back, within the history. */
  predicate CopyOf(src: seq<byte>, target: seq<byte>, o: nat, l: nat)
  {
    1 <= o <= |src| && l <= |target| && Expand(src, o, l) == Ok(target[..l])
  }

  /** An overlapping copy of `l >= o` bytes is the start of the history's
      last `o` bytes tiled as the decoder tiles them. */
  lemma TiledCopyIsTile(src: seq<byte>, target: seq<byte>, o: nat, l: nat, tile: seq<byte>)
    requires CopyOf(src, target, o, l) && o <= l
    requires tile == Repeat(src[|src| - o..], 0xFFF / o + 1)
    ensures l <= |tile| && tile[..l] == target[..l]
  {
  }

  /** Every copy the decoder can make starts with the `min(l, o)` bytes that
      sit `o` bytes before the end of the history, so `rfind` meets that
      prefix at `len(src) - o` or further right. */
  lemma CopyStart(src: seq<byte>, target: seq<byte>, o: nat, l: nat)
    requires CopyOf(src, target, o, l)
    ensures OccursAt(src, target[..Min(l, o)], |src| - o)
  {
    var w := src[|src| - o..];
    if o <= l {
      var tile := Repeat(w, 0xFFF / o + 1);
      TiledCopyIsTile(src, target, o, l, tile);
      TileStart(w, 0xFFF / o + 1);
      assert target[..o] == tile[..l][..o] == w;
    } else {
      assert target[..l] == src[|src| - o..|src| - o + l];
    }
  }

  /** A copy the decoder can make at position `p` of `chunk`. */
  predicate CopyAt(chunk: seq<byte>, p: nat, o: nat, l: nat)
    requires p <= |chunk|
  {
    CopyOf(chunk[..p], chunk[p..], o, l)
  }

  /** Every prefix of a copy's first `min(l, o)` bytes occurs `o` bytes
      before the end of the history. */
  lemma PrefixOccurs(src: seq<byte>, target: seq<byte>, o: nat, l: nat, i: nat)
    requires CopyOf(src, target, o, l) && i <= Min(l, o)
    ensures OccursAt(src, Take(target, i), |src| - o)
  {
    CopyStart(src, target, o, l);
    assert target[..Min(l, o)][..i] == target[..i];
  }

  /** Every prefix of an overlapping copy occurs at the start of the tile. */
  lemma TilePrefixOccurs(src: seq<byte>, target: seq<byte>, i: nat, l: nat, j: nat, tile: seq<byte>)
    requires CopyOf(src, target, i, l) && i <= l && j <= l
    requires tile == Repeat(src[|src| - i..], 0xFFF / i + 1)
    ensures OccursAt(tile, Take(target, j), 0)
  {
    TiledCopyIsTile(src, target, i, l, tile);
    assert tile[..j] == tile[..l][..j] == target[..j];
  }

  /** When `rfind` fails for `target[:i]`, every copy the decoder could make
      has `min(l, o) < i`: longer copies would start with that prefix. */
  lemma NoCopyFrom(src: seq<byte>, target: seq<byte>, maxLen: nat, i: nat)
    requires RFind(src, Take(target, i)) == -1
    ensures forall o: nat, l: nat | 3 <= l < maxLen && CopyOf(src, target, o, l) :: Min(l, o) < i
  {
    forall o: nat, l: nat | 3 <= l < maxLen && CopyOf(src, target, o, l) && Min(l, o) >= i
      ensures false
    {
      PrefixOccurs(src, target, o, l, i);
    }
  }

  /** When the last occurrence of `target[:i]` does not end the history, no
      copy from `i` bytes back covers `i` bytes or more. */
  lemma NoTiledCopyAt(src: seq<byte>, target: seq<byte>, maxLen: nat, i: nat, pos: int)
    requires pos == RFind(src, Take(target, i)) && pos != -1 && |src| - pos != i
    ensures forall l: nat | 3 <= l < maxLen && CopyOf(src, target, i, l) :: l < i
  {
    forall l: nat | 3 <= l < maxLen && CopyOf(src, target, i, l) && i <= l
      ensures false
    {
      PrefixOccurs(src, target, i, l, i);
    }
  }

  /** When `target[:j]` does not occur in the history's last `i` bytes tiled,
      no copy from `i` bytes back covers `j` bytes or more. */
  lemma NoTiledCopyFrom(src: seq<byte>, target: seq<byte>, maxLen: nat, i: nat, j: nat, tile: seq<byte>)
    requires 1 <= i <= |src| && tile == Repeat(src[|src| - i..], 0xFFF / i + 1)
    requires RFind(tile, Take(target, j)) == -1
    ensures forall l: nat | 3 <= l < maxLen && CopyOf(src, target, i, l) && i <= l :: l < j
  {
    forall l: nat | 3 <= l < maxLen && CopyOf(src, target, i, l) && i <= l && j <= l
      ensures false
    {
      TilePrefixOccurs(src, target, i, l, j, tile);
    }
  }

  /** A match that does not reach the end of the history is a plain slice
      copy: `offset = len(src) - pos` exceeds the length. */
  lemma PlainMatch(src: seq<byte>, target: seq<byte>, i: nat, pos: nat)
    requires 1 <= i <= |target| && OccursAt(src, target[..i], pos) && |src| - pos != i
    ensures CopiesPrefix(src, target, |src| - pos, i)
  {
    assert |src| - pos > i;
    assert Expand(src, |src| - pos, i) == Ok(src[pos..pos + i]);
  }

  lemma TileStart(w: seq<byte>, n: nat)
    requires n >= 1
    ensures |w| <= |Repeat(w, n)| && Repeat(w, n)[..|w|] == w
  {
    assert Repeat(w, n) == w + Repeat(w, n - 1);
  }

  /** Index `k` of `w` tiled `n` times, and index `q + k`, are both reached
      from `t = k % |w|`, which lies in `w`. */
  lemma TileShift(w: seq<byte>, n: nat, q: nat, k: nat) returns (t: nat)
    requires |w| > 0 && q + k < |w| * n
    ensures t < |w| && t <= k
    ensures Repeat(w, n)[k] == w[t] && Repeat(w, n)[q + k] == Repeat(w, n)[q + t]
  {
    t := k % |w|;
    DivAddMultiple(q + t, k / |w|, |w|);
    assert q + k == q + t + (k / |w|) * |w|;
    RepeatIndex(w, n, q + k);
    RepeatIndex(w, n, q + t);
    RepeatIndex(w, n, k);
  }

  /** A match that ends exactly at the end of the history: the history's last
      `i` bytes `w` equal the first `i` bytes of `target`.  If `target[:j]`
      occurs anywhere in `w` tiled, it is the start of that tiling (an
      occurrence at `q` makes `w` equal to its own rotation by `q`), which is
      what the decoder produces for offset `i` and length `j`. */
  lemma TiledMatch(src: seq<byte>, target: seq<byte>, i: nat, j: nat, pos: nat, tile: seq<byte>, q: nat)
    requires 1 <= i <= j <= |target| && pos + i == |src| && src[pos..] == target[..i]
    requires tile == Repeat(src[pos..], 0xFFF / i + 1) && OccursAt(tile, target[..j], q)
    ensures CopiesPrefix(src, target, i, j)
  {
    var w := src[pos..];
    forall k | 0 <= k < j
      ensures target[k] == tile[k]
    {
      var t := TileShift(w, 0xFFF / i + 1, q, k);
      assert tile[q + t] == target[t] == w[t];
    }
    assert target[..j] == tile[..j];
    assert Expand(src, i, j) == Ok(tile[..Min(j, |tile|)]);
  }

  // ---------------------------------------------------------------------
  // The schedule

  lemma EncoderScheduleStep(pow2: int, lMask3: int, oShift: int)
    requires EncoderSchedule(pow2, lMask3, oShift)
    ensures EncoderSchedule(pow2 * 2, lMask3 / 2 + 1, oShift - 1)
  {
    assert Pow2(12 - (oShift - 1)) == 2 * Pow2(12 - oShift);
    if oShift >= 1 {
      assert Pow2(oShift) == 2 * Pow2(oShift - 1);
    }
  }

  /** Once `pow2` has caught up with the bytes produced, and was still behind
      before its last doubling, the encoder's shift and `l_mask3 - 3` are the
      decoder's `o_shift` and `l_mask` for the same output position. */
  lemma ScheduleAgrees(pow2: int, lMask3: int, oShift: int, produced: nat)
    requires EncoderSchedule(pow2, lMask3, oShift)
    requires produced <= pow2 && (oShift == 12 || pow2 < 2 * produced)
    ensures oShift == DecoderSchedule(produced).shift
    ensures oShift >= 0 ==> lMask3 == DecoderSchedule(produced).mask + 3
  {
    var c: nat := 12 - oShift;
    HalvingsBound(produced - 1, c);
    if c > 0 {
      assert Pow2(c) == 2 * Pow2(c - 1);
      HalvingsBound(produced - 1, c - 1);
    }
    assert Halvings(produced - 1) == c;
    ShiftedMask(c);
  }

  // ---------------------------------------------------------------------
  // Tokens

  /** The 16-bit word `((offset - 1) << o_shift) | (length - 3)` fits in
      `struct.pack('<H')` and decodes to the same offset and length. */
  lemma BackRefToken(chunk: seq<byte>, p: nat, offset: nat, length: nat) returns (sym: u16)
    requires DecoderSchedule(p).shift >= 0
    requires 1 <= offset <= p && 3 <= length <= DecoderSchedule(p).mask + 3 && p + length <= |chunk|
    requires Expand(chunk[..p], offset, length) == Ok(chunk[p..p + length])
    ensures sym == (offset - 1) * Pow2(DecoderSchedule(p).shift) + (length - 3)
    ensures Explains(chunk, p, BackRef(sym)) && TokenSpan(BackRef(sym), p) == length
  {
    ScheduleShape(p);
    sym := ScheduledWord(DecoderSchedule(p), 12 - DecoderSchedule(p).shift, p, offset, length);
    ExplainsBackRef(chunk, p, sym, offset, length);
  }

  /** The word for a copy of `length` bytes from `offset` back, under a
      schedule with `c` halvings behind it and at most `16 << c` bytes of
      history. */
  lemma ScheduledWord(s: Schedule, c: nat, p: nat, offset: nat, length: nat) returns (sym: u16)
    requires s.shift >= 0 && c + s.shift == 12 && s.mask + 1 == Pow2(s.shift) && p <= 16 * Pow2(c)
    requires 1 <= offset <= p && 3 <= length <= s.mask + 3
    ensures sym == (offset - 1) * Pow2(s.shift) + (length - 3)
    ensures CopyLength(sym, s) == length && CopyOffset(sym, s) == offset
  {
    Pow2Add(c, s.shift);
    Pow2Twelve();
    PackFields(offset - 1, length - 3, Pow2(c), Pow2(s.shift));
    sym := (offset - 1) * Pow2(s.shift) + (length - 3);
    WordFields(sym, offset - 1, length - 3, s);
  }

  lemma ExplainsBackRef(chunk: seq<byte>, p: nat, sym: u16, offset: nat, length: nat)
    requires DecoderSchedule(p).shift >= 0 && offset >= 1 && p + length <= |chunk|
    requires CopyLength(sym, DecoderSchedule(p)) == length && CopyOffset(sym, DecoderSchedule(p)) == offset
    requires Expand(chunk[..p], offset, length) == Ok(chunk[p..p + length])
    ensures Explains(chunk, p, BackRef(sym)) && TokenSpan(BackRef(sym), p) == length
  {
  }

  /** A word built as `(o << shift) | l` reads back as offset `o + 1` and
      length `l + 3` under a schedule whose mask covers `shift` bits. */
  lemma WordFields(sym: nat, o: nat, l: nat, s: Schedule)
    requires s.shift >= 0 && s.mask + 1 == Pow2(s.shift) && l < Pow2(s.shift)
    requires sym == o * Pow2(s.shift) + l
    ensures CopyLength(sym, s) == l + 3 && CopyOffset(sym, s) == o + 1
  {
    ModOfSum(o, l, Pow2(s.shift));
  }

  /** Packing `o` above `l`, where `l < m` and `16 * p * m == 0x10000`. */
  lemma PackFields(o: nat, l: nat, p: nat, m: nat)
    requires p * m == 0x1000 && o < 16 * p && l < m
    ensures o * m + l < 0x10000
    ensures (o * m + l) % m == l && (o * m + l) / m == o
  {
    ModOfSum(o, l, m);
    MulNonneg(16 * p - 1 - o, m);
    assert (16 * p - 1 - o) * m == 16 * (p * m) - m - o * m;
  }

  lemma MulNonneg(a: int, b: int)
    requires a >= 0 && b >= 0
    ensures a * b >= 0
  {
  }

  /** `bits >>= 1` and then `bits |= 0x80` for a back-reference: the bit
      added is clear, so `|` adds, and the flag value gains the new token. */
  lemma BitsStep(g: seq<Token>, t: Token)
    requires |g| < 8
    ensures (FlagValue(g) * Pow2(8 - |g|)) / 2 < 0x80
    ensures (FlagValue(g) * Pow2(8 - |g|)) / 2 + (if t.BackRef? then 0x80 else 0) ==
      FlagValue(g + [t]) * Pow2(8 - |g + [t]|)
  {
    var m := Pow2(7 - |g|);
    assert Pow2(8 - |g|) == 2 * m;
    Pow2Add(|g|, 7 - |g|);
    assert Pow2(7) == 0x80;
    FlagValueAppend(g, t);
    ShiftIn(FlagValue(g), Pow2(|g|), m, if t.BackRef? then 1 else 0);
  }

  /** Halving `f * 2m` and adding the bit `b` at `p * m == 0x80`, with `f < p`. */
  lemma ShiftIn(f: nat, p: nat, m: nat, b: nat)
    requires p * m == 0x80 && f < p && b <= 1
    ensures (f * (2 * m)) / 2 < 0x80
    ensures (f * (2 * m)) / 2 + b * 0x80 == (f + b * p) * m
  {
    assert f * (2 * m) == (f * m) * 2;
    MulDiv(f * m, 2);
    MulNonneg(p - 1 - f, m);
    assert (p - 1 - f) * m == p * m - m - f * m;
    assert (f + b * p) * m == f * m + b * (p * m);
  }

  /** `bits >> (7 - i)` after token `i`, the last of the group, is the
      group's flag byte. */
  lemma FlagByte(g: seq<Token>, bits: nat, k: nat)
    requires 1 <= |g| <= 8 && k == 8 - |g| && bits == PendingFlags(g)
    ensures bits / Pow2(k) == FlagValue(g) < 0x100
  {
    PendingFlagsValue(g);
    MulDiv(FlagValue(g), Pow2(k));
  }

  // ---------------------------------------------------------------------
  // Groups and frames

  lemma SnocAssoc(ts: seq<Token>, g: seq<Token>, t: Token)
    ensures ts + g + [t] == ts + (g + [t])
  {
  }

  /** `bits` after the tokens of `g`: before each token it is shifted right
      once, and a back-reference then sets its top bit. */
  function PendingFlags(g: seq<Token>): (bits: nat)
    ensures bits < 0x100
    ensures g != [] ==> (bits >= 0x80 <==> g[|g| - 1].BackRef?)
    decreases |g|
  {
    if g == [] then 0
    else PendingFlags(g[..|g| - 1]) / 2 + (if g[|g| - 1].BackRef? then 0x80 else 0)
  }

  /** After `n <= 8` tokens, `bits` holds the group's flag value shifted up by
      `8 - n`: token `k` sits at bit `k + 8 - n`. */
  lemma {:induction false} PendingFlagsValue(g: seq<Token>)
    requires |g| <= 8
    ensures PendingFlags(g) == FlagValue(g) * Pow2(8 - |g|)
  {
    if g != [] {
      var h := g[..|g| - 1];
      PendingFlagsValue(h);
      BitsStep(h, g[|g| - 1]);
      assert h + [g[|g| - 1]] == g;
    }
  }

  /** One more token in the current group: `bits >>= 1` leaves bit 7 clear,
      so `bits |= 0x80` adds. */
  lemma PendingStep(g: seq<Token>, t: Token)
    requires |g| < 8
    ensures PendingFlags(g) / 2 < 0x80
    ensures PendingFlags(g + [t]) == PendingFlags(g) / 2 + (if t.BackRef? then 0x80 else 0)
  {
    assert (g + [t])[..|g|] == g;
    PendingFlagsValue(g);
    BitsStep(g, t);
  }

  /** Appending one frame to a stream that decodes to `prefix` makes it decode
      to `prefix + chunk`. */
  lemma FrameExtends(out: seq<byte>, prefix: seq<byte>, chunk: seq<byte>, compressed: seq<byte>)
    requires DecodeStream(out, true) == Ok(prefix)
    requires 1 <= |chunk| <= 0x1000 && 1 <= |compressed|
    requires |compressed| < |chunk| ==> DecodeChunk(compressed) == Ok(chunk)
    ensures DecodeStream(out + Frame(chunk, compressed), true) == Ok(prefix + chunk)
  {
    var frame := Frame(chunk, compressed);
    FrameDecodes(chunk, compressed, [], true);
    assert frame + [] == frame;
    assert chunk + [] == chunk;
    StreamAppend(out, frame);
  }

  /** Every stream made of frames whose compressed bodies decode to their
      chunks decodes, with or without the length check, to the chunks laid
      end to end. */
  lemma {:induction false} FramedDecodes(chunks: seq<seq<byte>>, bodies: seq<seq<byte>>)
    requires |chunks| == |bodies|
    requires forall k | 0 <= k < |chunks| ::
      1 <= |chunks[k]| <= 0x1000 && 1 <= |bodies[k]| && DecodeChunk(bodies[k]) == Ok(chunks[k])
    ensures DecodeStream(Framed(chunks, bodies), true) == Ok(Flatten(chunks))
    ensures DecodeStream(Framed(chunks, bodies), false) == Ok(Flatten(chunks))
    decreases |chunks|
  {
    if chunks != [] {
      var n := |chunks| - 1;
      FramedDecodes(chunks[..n], bodies[..n]);
      FrameExtends(Framed(chunks[..n], bodies[..n]), Flatten(chunks[..n]), chunks[n], bodies[n]);
    }
    LenientAgrees(Framed(chunks, bodies));
  }

  lemma FlattenSnoc(chunks: seq<seq<byte>>, chunk: seq<byte>)
    ensures Flatten(chunks + [chunk]) == Flatten(chunks) + chunk
  {
    assert (chunks + [chunk])[..|chunks|] == chunks;
  }

  lemma FramedSnoc(chunks: seq<seq<byte>>, bodies: seq<seq<byte>>, chunk: seq<byte>, body: seq<byte>)
    requires |chunks| == |bodies|
    requires forall k | 0 <= k < |chunks| :: 1 <= |chunks[k]| <= 0x1000 && 1 <= |bodies[k]|
    requires 1 <= |chunk| <= 0x1000 && 1 <= |body|
    ensures Framed(chunks + [chunk], bodies + [body]) == Framed(chunks, bodies) + Frame(chunk, body)
  {
    assert (chunks + [chunk])[..|chunks|] == chunks;
    assert (bodies + [body])[..|bodies|] == bodies;
  }

  /** Each frame adds its chunk and a 2-byte header at most, and at least
      three bytes. */
  lemma {:induction false} FramedSize(chunks: seq<seq<byte>>, bodies: seq<seq<byte>>)
    requires |chunks| == |bodies|
    requires forall k | 0 <= k < |chunks| :: 1 <= |chunks[k]| <= 0x1000 && 1 <= |bodies[k]|
    ensures 3 * |chunks| <= |Framed(chunks, bodies)| <= |Flatten(chunks)| + 2 * |chunks|
    decreases |chunks|
  {
    if chunks != [] {
      var n := |chunks| - 1;
      FramedSize(chunks[..n], bodies[..n]);
    }
  }
}
