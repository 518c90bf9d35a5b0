/** Properties of the LZNT1 definitions: the shape of the decoder's
    displacement/length schedule, what a back-reference expands to, that a
    token sequence which explains a chunk decodes back to it, and how chunks
    of a stream are decoded independently and concatenated. */
module Lznt1Proofs {
  import opened Packing
  import opened Bits
  import opened Lznt1

  // ---------------------------------------------------------------------
  // Schedule

  /** `pos` needs at most `c` halvings to drop below 0x10 exactly when it is
      below `16 * 2^c`. */
  lemma {:induction false} HalvingsBound(pos: int, c: nat)
    ensures pos < 16 * Pow2(c) <==> Halvings(pos) <= c
    decreases c
  {
    if pos >= 0x10 && c > 0 {
      HalvingsBound(pos / 2, c - 1);
    }
  }

  /** The decoder's `l_mask` is always the all-ones mask of `o_shift` bits (so
      `flag & l_mask` is `flag % (l_mask + 1)`), or 0 once the shift is
      negative, and `12 - o_shift` is the least `c` with
      `produced <= 16 * 2^c`: output lengths 1..16 give shift 12, 17..32 give
      11, 33..64 give 10, and so on. */
  lemma ScheduleShape(produced: nat)
    ensures DecoderSchedule(produced).shift <= 12
    ensures var s := DecoderSchedule(produced);
      s.shift >= 0 ==> s.mask + 1 == Pow2(s.shift)
    ensures DecoderSchedule(produced).shift < 0 ==> DecoderSchedule(produced).mask == 0
    ensures var c: nat := 12 - DecoderSchedule(produced).shift;
      produced <= 16 * Pow2(c) && (c == 0 || 8 * Pow2(c) < produced)
  {
    var c := Halvings(produced - 1);
    ShiftedMask(c);
    HalvingsBound(produced - 1, c);
    if c > 0 {
      HalvingsBound(produced - 1, c - 1);
    }
  }

  /** Concrete points of the schedule while the output is short. */
  lemma ScheduleTable()
    ensures DecoderSchedule(0) == Schedule(0xFFF, 12) && DecoderSchedule(16) == Schedule(0xFFF, 12)
    ensures DecoderSchedule(17) == Schedule(0x7FF, 11) && DecoderSchedule(32) == Schedule(0x7FF, 11)
    ensures DecoderSchedule(33) == Schedule(0x3FF, 10) && DecoderSchedule(64) == Schedule(0x3FF, 10)
  {
    assert Halvings(15) == 0 && Halvings(16) == 1 && Halvings(31) == 1 && Halvings(32) == 2;
    assert Halvings(63) == 2;
    assert Pow2(1) == 2 && Pow2(2) == 4;
  }

  /** The schedule at the thresholds between 64 and 4096 bytes of output:
      one more offset bit for every doubling. */
  lemma ScheduleTableMid()
    ensures DecoderSchedule(128) == Schedule(0x1FF, 9) && DecoderSchedule(256) == Schedule(0xFF, 8)
    ensures DecoderSchedule(512) == Schedule(0x7F, 7) && DecoderSchedule(1024) == Schedule(0x3F, 6)
    ensures DecoderSchedule(2048) == Schedule(0x1F, 5)
  {
    assert Halvings(127) == 3 && Halvings(255) == 4 && Halvings(511) == 5;
    assert Halvings(1023) == 6 && Halvings(2047) == 7;
    assert Pow2(3) == 8 && Pow2(4) == 16 && Pow2(5) == 32 && Pow2(6) == 64 && Pow2(7) == 128;
  }

  /** Concrete points of the schedule for long outputs: at 4096 bytes four
      offset bits remain, and past 65536 bytes the shift turns negative. */
  lemma ScheduleTableLong()
    ensures DecoderSchedule(4096) == Schedule(0xF, 4)
    ensures DecoderSchedule(65536) == Schedule(0, 0) && DecoderSchedule(65537).shift == -1
  {
    assert Halvings(4095) == 8 && Halvings(65535) == 12 && Halvings(65536) == 13;
    ShiftedMask(8);
    ShiftedMask(12);
    assert Pow2(4) == 16 && Pow2(0) == 1;
  }

  // ---------------------------------------------------------------------
  // Back-references

  lemma {:induction false} RepeatIndex(s: seq<byte>, n: nat, k: nat)
    requires |s| > 0 && k < |s| * n
    ensures Repeat(s, n)[k] == s[k % |s|]
  {
    if k < |s| {
      ModOfSum(0, k, |s|);
    } else {
      assert |s| * n == |s| * (n - 1) + |s|;
      RepeatIndex(s, n - 1, k - |s|);
      DivAddMultiple(k - |s|, 1, |s|);
    }
  }

  /** The tiled source of an overlapping copy holds at least 0x1000 bytes. */
  lemma TileLength(n: nat)
    requires n >= 1
    ensures n * (0xFFF / n + 1) >= 0x1000
  {
    var q, r := 0xFFF / n, 0xFFF % n;
    assert 0xFFF == n * q + r;
    assert n * (q + 1) == n * q + n;
  }

  /** With `offset` bytes of history available, a back-reference appends
      exactly `length` bytes, byte `k` being the one `offset` positions back in
      the periodic extension of the history: for `length < offset` a plain
      copy, otherwise the last `offset` bytes repeated. */
  lemma ExpandCopies(out: seq<byte>, offset: nat, length: nat)
    requires 1 <= offset <= |out| && length <= 0x1000
    ensures Expand(out, offset, length) == Ok(seq(length, k requires 0 <= k < length => out[|out| - offset + k % offset]))
  {
    var src := out[|out| - offset..];
    if length >= offset {
      var tile := Repeat(src, 0xFFF / |src| + 1);
      TiledCopy(out, offset, length, tile);
      assert Expand(out, offset, length) == Ok(tile[..Min(length, |tile|)]);
    } else {
      PlainCopy(out, offset, length);
      assert Expand(out, offset, length) == Ok(out[|out| - offset..|out| - offset + length]);
    }
  }

  lemma PlainCopy(out: seq<byte>, offset: nat, length: nat)
    requires 1 <= offset <= |out| && length < offset
    ensures out[|out| - offset..|out| - offset + length] ==
      seq(length, k requires 0 <= k < length => out[|out| - offset + k % offset])
  {
    forall k | 0 <= k < length
      ensures out[|out| - offset + k % offset] == out[|out| - offset + k]
    {
      ModOfSum(0, k, offset);
    }
  }

  lemma TiledCopy(out: seq<byte>, offset: nat, length: nat, tile: seq<byte>)
    requires 1 <= offset <= |out| && offset <= length <= 0x1000
    requires tile == Repeat(out[|out| - offset..], 0xFFF / offset + 1)
    ensures length <= |tile|
    ensures tile[..length] == seq(length, k requires 0 <= k < length => out[|out| - offset + k % offset])
  {
    var src := out[|out| - offset..];
    TileLength(offset);
    forall k | 0 <= k < length
      ensures tile[k] == out[|out| - offset + k % offset]
    {
      RepeatIndex(src, 0xFFF / offset + 1, k);
    }
  }

  /** The short tile: when `offset` divides 0x1000 the tile holds exactly
      0x1000 bytes, so an overlapping copy of 0x1001 or 0x1002 bytes (lengths
      the 12-bit mask of the first 16 output bytes allows) appends only 0x1000
      bytes.  While the output is at most 16 bytes long the offset is at most
      16, so this happens for the offsets 1, 2, 4, 8 and 16. */
  lemma ShortTile(out: seq<byte>, offset: nat, length: nat)
    requires 1 <= offset <= |out| && 0x1000 % offset == 0 && 0x1000 <= length
    ensures Expand(out, offset, length) == Ok(Repeat(out[|out| - offset..], 0x1000 / offset))
  {
    var m := 0x1000 / offset;
    assert offset * m == 0x1000;
    assert 0xFFF == offset * (m - 1) + (offset - 1);
    DivAddMultiple(offset - 1, m - 1, offset);
    assert 0xFFF / offset + 1 == m;
    var tile := Repeat(out[|out| - offset..], m);
    assert tile[..Min(length, |tile|)] == tile;
  }

  /** Prior output "A" and the word 0x0FFF: offset 1 and length 0x1002, of
      which only 0x1000 bytes are appended. */
  lemma ShortTileExample()
    ensures CopyOffset(0x0FFF, DecoderSchedule(1)) == 1 && CopyLength(0x0FFF, DecoderSchedule(1)) == 0x1002
    ensures Expand([0x41], 1, 0x1002).Ok? && |Expand([0x41], 1, 0x1002).value| == 0x1000
  {
    Pow2Twelve();
    var s := DecoderSchedule(1);
    assert s == Schedule(0xFFF, 12);
    assert CopyOffset(0x0FFF, s) == 0x0FFF / 0x1000 + 1 == 1;
    assert CopyLength(0x0FFF, s) == 0x0FFF % 0x1000 + 3 == 0x1002;
    ShortTile([0x41], 1, 0x1002);
  }

  /** Prior output "A", offset 1, length 10: ten "A"s. */
  lemma ExpandRunExample()
    ensures Expand([0x41], 1, 10) == Ok([0x41, 0x41, 0x41, 0x41, 0x41, 0x41, 0x41, 0x41, 0x41, 0x41])
  {
    ExpandCopies([0x41], 1, 10);
    var w := Expand([0x41], 1, 10).value;
    assert |w| == 10;
    forall k | 0 <= k < 10
      ensures w[k] == 0x41
    {
      ModOfSum(k, 0, 1);
    }
    var ten: seq<byte> := [0x41, 0x41, 0x41, 0x41, 0x41, 0x41, 0x41, 0x41, 0x41, 0x41];
    assert w == ten;
  }

  // ---------------------------------------------------------------------
  // Tokens and groups

  /** Bit `i` of a group's flag byte marks token `i` as a back-reference. */
  lemma {:induction false} FlagBit(g: seq<Token>, i: nat)
    requires i < |g|
    ensures (FlagValue(g) / Pow2(i)) % 2 == 1 <==> g[i].BackRef?
  {
    var n := |g|;
    var init := g[..n - 1];
    var f := FlagValue(init);
    var b := if g[n - 1].BackRef? then 1 else 0;
    assert FlagValue(g) == f + b * Pow2(n - 1);
    if i == n - 1 {
      TopBit(f, b, Pow2(i));
    } else {
      FlagBit(init, i);
      assert init[i] == g[i];
      var q := Pow2(n - 2 - i);
      Pow2Add(i + 1, n - 2 - i);
      assert Pow2(n - 1) == (2 * Pow2(i)) * q;
      MulAssoc(b, q, 2 * Pow2(i));
      assert b * Pow2(n - 1) == (b * q) * (2 * Pow2(i));
      HigherBit(f, b * q, Pow2(i));
    }
  }

  lemma TopBit(f: nat, b: nat, m: nat)
    requires f < m && b <= 1
    ensures ((f + b * m) / m) % 2 == b
  {
    DivAddMultiple(f, b, m);
    ModOfSum(0, f, m);
  }

  lemma HigherBit(f: nat, k: nat, m: nat)
    requires m > 0
    ensures ((f + k * (2 * m)) / m) % 2 == (f / m) % 2
  {
    assert k * (2 * m) == (2 * k) * m;
    DivAddMultiple(f, 2 * k, m);
    DivAddMultiple(f / m, k, 2);
  }

  lemma FlagValueAppend(g: seq<Token>, t: Token)
    ensures FlagValue(g + [t]) == FlagValue(g) + if t.BackRef? then Pow2(|g|) else 0
  {
    assert (g + [t])[..|g|] == g;
  }

  lemma {:induction false} TokensBytesAppend(ts: seq<Token>, t: Token)
    ensures TokensBytes(ts + [t]) == TokensBytes(ts) + TokenBytes(t)
  {
    if ts != [] {
      assert (ts + [t])[1..] == ts[1..] + [t];
      TokensBytesAppend(ts[1..], t);
    } else {
      assert ([] + [t])[1..] == [];
    }
  }

  /** Appending a group to a sequence of whole groups appends its flag byte and
      its tokens to the encoding. */
  lemma {:induction false} EncodeGroupsAppend(ts: seq<Token>, n: nat, g: seq<Token>)
    requires |ts| == 8 * n && 1 <= |g| <= 8
    ensures EncodeGroups(ts + g) == EncodeGroups(ts) + ([FlagValue(g)] + TokensBytes(g))
    decreases |ts|
  {
    if ts == [] {
      assert ts + g == g;
      LastGroup(g);
    } else {
      var rest := ts[8..];
      assert (ts + g)[..8] == ts[..8];
      assert (ts + g)[8..] == rest + g;
      EncodeGroupsAppend(rest, n - 1, g);
      WholeGroup(ts);
      WholeGroup(ts + g);
      var f: byte, f': byte := FlagValue(ts[..8]), FlagValue(g);
      ConcatAssoc([f] + TokensBytes(ts[..8]), EncodeGroups(rest), [f'] + TokensBytes(g));
    }
  }

  lemma ConcatAssoc(a: seq<byte>, b: seq<byte>, c: seq<byte>)
    ensures a + (b + c) == a + b + c
  {
  }

  lemma LastGroup(g: seq<Token>)
    requires 1 <= |g| <= 8
    ensures EncodeGroups(g) == [FlagValue(g)] + TokensBytes(g)
  {
    assert g[..|g|] == g && g[|g|..] == [];
  }

  lemma WholeGroup(ts: seq<Token>)
    requires |ts| >= 8
    ensures EncodeGroups(ts) == [FlagValue(ts[..8])] + TokensBytes(ts[..8]) + EncodeGroups(ts[8..])
  {
  }

  /** Tokens that explain a chunk never run past it. */
  lemma {:induction false} SpansBounds(chunk: seq<byte>, p: nat, ts: seq<Token>, q: nat)
    requires p <= |chunk| && Spans(chunk, p, ts, q)
    ensures p <= q <= |chunk|
    decreases |ts|
  {
    if ts != [] {
      SpansBounds(chunk, p + TokenSpan(ts[0], p), ts[1..], q);
    }
  }

  /** A token that explains the next bytes extends the explained prefix. */
  lemma {:induction false} SpansAppend(chunk: seq<byte>, p: nat, ts: seq<Token>, q: nat, t: Token, r: nat)
    requires Spans(chunk, p, ts, q) && Explains(chunk, q, t) && r == q + TokenSpan(t, q)
    ensures Spans(chunk, p, ts + [t], r)
    decreases |ts|
  {
    if ts == [] {
      assert ([] + [t])[1..] == [];
    } else {
      assert (ts + [t])[0] == ts[0] && (ts + [t])[1..] == ts[1..] + [t];
      SpansAppend(chunk, p + TokenSpan(ts[0], p), ts[1..], q, t, r);
    }
  }

  /** The decoder, meeting the wire form of an explaining token, appends the
      bytes it explains and consumes exactly its bytes. */
  lemma TokenDecode(chunk: seq<byte>, p: nat, t: Token, rest: seq<byte>)
    requires p <= |chunk| && Explains(chunk, p, t)
    ensures DecodeToken(t.BackRef?, chunk[..p], TokenBytes(t) + rest)
      == Ok(Step(chunk[..p + TokenSpan(t, p)], rest))
  {
    if t.Literal? {
      LiteralDecode(chunk, p, t.value, rest);
    } else {
      BackRefDecode(chunk, p, t.symbol, rest);
    }
  }

  lemma LiteralDecode(chunk: seq<byte>, p: nat, b: byte, rest: seq<byte>)
    requires p < |chunk| && chunk[p] == b
    ensures DecodeToken(false, chunk[..p], [b] + rest) == Ok(Step(chunk[..p + 1], rest))
  {
    assert ([b] + rest)[1..] == rest;
    assert chunk[..p] + [b] == chunk[..p + 1];
  }

  lemma BackRefDecode(chunk: seq<byte>, p: nat, sym: u16, rest: seq<byte>)
    requires p <= |chunk| && Explains(chunk, p, BackRef(sym))
    ensures DecodeToken(true, chunk[..p], PackLe16(sym) + rest)
      == Ok(Step(chunk[..p + TokenSpan(BackRef(sym), p)], rest))
  {
    var q := p + TokenSpan(BackRef(sym), p);
    var input := PackLe16(sym) + rest;
    assert input[..2] == PackLe16(sym) && input[2..] == rest;
    assert chunk[..p] + chunk[p..q] == chunk[..q];
  }

  lemma GroupHead(g: seq<Token>, R: seq<Token>, i: nat)
    requires i < |g|
    ensures (g[i..] + R)[0] == g[i] && (g[i..] + R)[1..] == g[i + 1..] + R
    ensures TokensBytes(g[i..]) + EncodeGroups(R) == TokenBytes(g[i]) + (TokensBytes(g[i + 1..]) + EncodeGroups(R))
  {
    assert g[i..][0] == g[i] && g[i..][1..] == g[i + 1..];
  }

  /** One step of the group decoder, once the token under bit `i` is known. */
  lemma DecodeTokensStep(flags: byte, i: nat, out: seq<byte>, input: seq<byte>, out': seq<byte>, rest: seq<byte>)
    requires i < 8 && DecodeToken((flags / Pow2(i)) % 2 == 1, out, input) == Ok(Step(out', rest))
    ensures DecodeTokens(flags, i, out, input) ==
      if rest == [] then Ok(out')
      else if i == 7 then DecodeGroups(out', rest)
      else DecodeTokens(flags, i + 1, out', rest)
  {
  }

  /** The first of tokens `i..` of group `g` decodes from the history
      `chunk[..p]` to `chunk[..p']`, and the rest explain `chunk[p'..q]`. */
  lemma TokensHead(chunk: seq<byte>, g: seq<Token>, R: seq<Token>, i: nat, p: nat, q: nat) returns (p': nat)
    requires i < |g| <= 8 && (R != [] ==> |g| == 8)
    requires p <= q <= |chunk| && Spans(chunk, p, g[i..] + R, q)
    ensures p < p' <= q && Spans(chunk, p', g[i + 1..] + R, q)
    ensures var rest := TokensBytes(g[i + 1..]) + EncodeGroups(R);
      DecodeTokens(FlagValue(g), i, chunk[..p], TokensBytes(g[i..]) + EncodeGroups(R)) ==
        if rest == [] then Ok(chunk[..p'])
        else if i == 7 then DecodeGroups(chunk[..p'], rest)
        else DecodeTokens(FlagValue(g), i + 1, chunk[..p'], rest)
  {
    var t := g[i];
    p' := p + TokenSpan(t, p);
    var later := g[i + 1..] + R;
    var rest := TokensBytes(g[i + 1..]) + EncodeGroups(R);
    var input := TokensBytes(g[i..]) + EncodeGroups(R);
    GroupHead(g, R, i);
    assert Explains(chunk, p, t) && Spans(chunk, p', later, q);
    SpansBounds(chunk, p', later, q);
    FlagBit(g, i);
    TokenDecode(chunk, p, t, rest);
    DecodeTokensStep(FlagValue(g), i, chunk[..p], input, chunk[..p'], rest);
  }

  /** Tokens `i..` of group `g`, followed by the later groups `R`, decode from
      the history `chunk[..p]` to `chunk[..q]` when they explain those bytes. */
  lemma {:induction false} TokensDecode(chunk: seq<byte>, g: seq<Token>, R: seq<Token>, i: nat, p: nat, q: nat)
    requires i < |g| <= 8 && (R != [] ==> |g| == 8)
    requires p <= q <= |chunk| && Spans(chunk, p, g[i..] + R, q)
    ensures DecodeTokens(FlagValue(g), i, chunk[..p], TokensBytes(g[i..]) + EncodeGroups(R)) == Ok(chunk[..q])
    decreases |g[i..] + R|, 0
  {
    var p' := TokensHead(chunk, g, R, i, p, q);
    var later := g[i + 1..] + R;
    var rest := TokensBytes(g[i + 1..]) + EncodeGroups(R);
    SpansBounds(chunk, p', later, q);
    if rest == [] {
      assert later == [];
    } else if i == 7 {
      assert g[i + 1..] == [];
      assert rest == EncodeGroups(R) && later == R;
      DecodeAll(chunk, p', R, q);
    } else {
      TokensDecode(chunk, g, R, i + 1, p', q);
    }
  }

  /** Tokens that explain `chunk[p..q]` decode, after `chunk[..p]`, to
      `chunk[..q]`. */
  lemma {:induction false} DecodeAll(chunk: seq<byte>, p: nat, ts: seq<Token>, q: nat)
    requires p <= q <= |chunk| && Spans(chunk, p, ts, q)
    ensures DecodeGroups(chunk[..p], EncodeGroups(ts)) == Ok(chunk[..q])
    decreases |ts|, 1
  {
    if ts != [] {
      var n := Min(8, |ts|);
      var g, R := ts[..n], ts[n..];
      assert g[0..] == g && g + R == ts;
      GroupsHead(ts);
      TokensDecode(chunk, g, R, 0, p, q);
    }
  }

  /** The first byte of the encoding is the flag byte of the first group,
      and the rest is its tokens followed by the later groups. */
  lemma GroupsHead(ts: seq<Token>)
    requires ts != []
    ensures var n := Min(8, |ts|); var enc := EncodeGroups(ts);
      enc != [] && enc[0] == FlagValue(ts[..n]) && enc[1..] == TokensBytes(ts[..n]) + EncodeGroups(ts[n..])
  {
    var n := Min(8, |ts|);
    var body := TokensBytes(ts[..n]) + EncodeGroups(ts[n..]);
    assert EncodeGroups(ts) == [FlagValue(ts[..n])] + body;
  }

  /** The round trip of one chunk body: tokens that explain the whole chunk
      decode back to it. */
  lemma ChunkRoundTrip(chunk: seq<byte>, ts: seq<Token>)
    requires Spans(chunk, 0, ts, |chunk|)
    ensures DecodeChunk(EncodeGroups(ts)) == Ok(chunk)
  {
    DecodeAll(chunk, 0, ts, |chunk|);
    assert chunk[..0] == [] && chunk[..|chunk|] == chunk;
  }

  // ---------------------------------------------------------------------
  // Streams

  /** One chunk whose declared length fits: both modes read the same body and
      go on after it. */
  lemma StreamStep(buf: seq<byte>, lengthCheck: bool)
    requires |buf| >= 2 && UnpackLe(buf[..2]) % 0x1000 + 1 <= |buf| - 2
    ensures var header := UnpackLe(buf[..2]);
      var end := 2 + header % 0x1000 + 1;
      var body := if (header / 0x8000) % 2 == 1 then DecodeChunk(buf[2..end]) else Ok(buf[2..end]);
      DecodeStream(buf, lengthCheck) ==
        if body.Err? then Err(body.error) else Prepend(body.value, DecodeStream(buf[end..], lengthCheck))
  {
  }

  /** With the length check, a chunk is rejected when its declared length
      `(header & 0xFFF) + 1` exceeds the bytes after its header, and a chunk
      whose length fits is never the cause of a rejection: the error then comes
      from a later chunk. */
  lemma LengthCheck(buf: seq<byte>)
    requires |buf| >= 2
    ensures var length := UnpackLe(buf[..2]) % 0x1000 + 1;
      (length > |buf| - 2 ==> DecodeStream(buf, true) == Err(InvalidChunkLength)) &&
      (length <= |buf| - 2 && DecodeStream(buf[2 + length..], true) != Err(InvalidChunkLength) ==>
         DecodeStream(buf, true) != Err(InvalidChunkLength))
  {
    var length := UnpackLe(buf[..2]) % 0x1000 + 1;
    if length <= |buf| - 2 {
      StreamStep(buf, true);
    }
  }

  /** Whenever the checked decoder succeeds, the unchecked one returns the
      same bytes. */
  lemma {:induction false} LenientAgrees(buf: seq<byte>)
    ensures DecodeStream(buf, true).Ok? ==> DecodeStream(buf, false) == DecodeStream(buf, true)
    decreases |buf|
  {
    if |buf| >= 2 {
      var length := UnpackLe(buf[..2]) % 0x1000 + 1;
      if length <= |buf| - 2 {
        StreamStep(buf, true);
        StreamStep(buf, false);
        LenientAgrees(buf[2 + length..]);
      }
    }
  }

  /** `[0x05, 0x00, 0x01, 0x02]` declares six bytes but carries two: the
      checked decoder rejects it, the unchecked one returns the two bytes. */
  lemma LengthCheckExample()
    ensures DecodeStream([0x05, 0x00, 0x01, 0x02], true) == Err(InvalidChunkLength)
    ensures DecodeStream([0x05, 0x00, 0x01, 0x02], false) == Ok([0x01, 0x02])
  {
    var buf: seq<byte> := [0x05, 0x00, 0x01, 0x02];
    assert buf[..2] == [0x05, 0x00] && UnpackLe([0x05, 0x00]) == 5;
    assert Min(8, 4) == 4 && buf[2..4] == [0x01, 0x02] && buf[4..] == [];
    assert DecodeStream(buf[4..], false) == Ok([]);
    assert [0x01, 0x02] + [] == [0x01, 0x02];
  }

  /** Chunks are decoded independently: a stream the checked decoder accepts,
      followed by more chunks, decodes to its bytes followed by theirs. */
  lemma {:induction false} StreamAppend(a: seq<byte>, b: seq<byte>)
    requires DecodeStream(a, true).Ok?
    ensures DecodeStream(a + b, true) == Prepend(DecodeStream(a, true).value, DecodeStream(b, true))
    decreases |a|
  {
    if a == [] {
      assert a + b == b;
      if DecodeStream(b, true).Ok? {
        assert [] + DecodeStream(b, true).value == DecodeStream(b, true).value;
      }
    } else {
      var end, body := StreamHead(a, b);
      StreamAppend(a[end..], b);
      PrependPrepend(body, DecodeStream(a[end..], true).value, DecodeStream(b, true));
    }
  }

  /** The first chunk of a stream that decodes is decoded the same way
      whatever follows the stream. */
  lemma StreamHead(a: seq<byte>, b: seq<byte>) returns (end: nat, body: seq<byte>)
    requires a != [] && DecodeStream(a, true).Ok?
    ensures 2 < end <= |a| && DecodeStream(a[end..], true).Ok?
    ensures DecodeStream(a, true) == Prepend(body, DecodeStream(a[end..], true))
    ensures DecodeStream(a + b, true) == Prepend(body, DecodeStream(a[end..] + b, true))
  {
    var header := UnpackLe(a[..2]);
    end := 2 + header % 0x1000 + 1;
    LengthCheck(a);
    assert end <= |a|;
    var ab := a + b;
    assert ab[..2] == a[..2] && ab[2..end] == a[2..end] && ab[end..] == a[end..] + b;
    var r := if (header / 0x8000) % 2 == 1 then DecodeChunk(a[2..end]) else Ok(a[2..end]);
    StreamStep(a, true);
    StreamStep(ab, true);
    assert r.Ok? && DecodeStream(a[end..], true).Ok?;
    body := r.value;
  }

  lemma PrependEmpty(r: Result<seq<byte>>)
    ensures Prepend([], r) == r
  {
    if r.Ok? {
      assert [] + r.value == r.value;
    }
  }

  lemma PrependPrepend(x: seq<byte>, y: seq<byte>, r: Result<seq<byte>>)
    ensures Prepend(x, Prepend(y, r)) == Prepend(x + y, r)
  {
    if r.Ok? {
      assert x + (y + r.value) == (x + y) + r.value;
    }
  }

  /** One chunk written by the encoder, whichever header it chose, decodes to
      the chunk, in either mode, ahead of whatever follows it. */
  lemma FrameDecodes(chunk: seq<byte>, compressed: seq<byte>, rest: seq<byte>, lengthCheck: bool)
    requires 1 <= |chunk| <= 0x1000 && 1 <= |compressed|
    requires |compressed| < |chunk| ==> DecodeChunk(compressed) == Ok(chunk)
    ensures DecodeStream(Frame(chunk, compressed) + rest, lengthCheck) == Prepend(chunk, DecodeStream(rest, lengthCheck))
  {
    var f := Frame(chunk, compressed);
    var buf := f + rest;
    assert buf[..2] == f[..2] && buf[2..|f|] == f[2..] && buf[|f|..] == rest;
  }
}
