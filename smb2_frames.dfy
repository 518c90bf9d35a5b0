/** Serialisers for the few SMB2 messages the tool sends: the 64-byte SMB2
    packet header ([MS-SMB2] section 2.2.1), the NEGOTIATE request with its
    preauthentication-integrity and compression-capabilities negotiate contexts
    (sections 2.2.3, 2.2.3.1.1 and 2.2.3.1.3), the compression transform header
    (section 2.2.42) and the Direct TCP framing (section 2.1).  Every message is
    an immutable value; `RawBytes` concatenates its packed fields. */
module Smb2Frames {
  import opened Packing

  /** "\xfeSMB", the protocol id of a plain SMB2 message. */
  const Smb2ProtocolId: seq<byte> := [0xFE, 0x53, 0x4D, 0x42]
  /** "\xfcSMB", the protocol id of a compression transform header. */
  const TransformProtocolId: seq<byte> := [0xFC, 0x53, 0x4D, 0x42]

  function Zeros(n: nat): (r: seq<byte>)
    ensures |r| == n && forall k :: 0 <= k < n ==> r[k] == 0
  {
    seq(n, _ => 0)
  }

  /** SMB2 packet header: only the command and the message id vary; every
      other field is zero except the header length 0x40. */
  datatype Smb2Header = Smb2Header(command: u16, messageId: u64)
  {
    function RawBytes(): (r: seq<byte>)
      ensures |r| == 64
      ensures r[0..4] == Smb2ProtocolId
      ensures UnpackLe(r[4..6]) == 0x40 == |r|
      ensures UnpackLe(r[12..14]) == command
      ensures UnpackLe(r[24..32]) == messageId
      ensures r[6..12] == Zeros(6) && r[14..24] == Zeros(10) && r[32..] == Zeros(32)
    {
      var r := Smb2ProtocolId + PackLe16(0x40) +
        Zeros(2 + 2 + 2) +           // credit charge, channel sequence, reserved
        PackLe16(command) +
        Zeros(2 + 4 + 4) +           // credits requested, flags, chain offset
        PackLe64(messageId) +
        Zeros(4 + 4 + 8 + 0x10);     // process id, tree id, session id, signature
      assert r[4..6] == PackLe16(0x40) && r[12..14] == PackLe16(command);
      assert r[24..32] == PackLe64(messageId);
      assert r[6..12] == Zeros(6) && r[14..24] == Zeros(10) && r[32..] == Zeros(32);
      r
    }
  }

  /** SMB2_PREAUTH_INTEGRITY_CAPABILITIES: one hash algorithm (SHA-512, id 1)
      and a 32-byte zero salt, padded to an 8-byte boundary. */
  datatype Smb2PreauthContext = Smb2PreauthContext
  {
    function RawBytes(): (r: seq<byte>)
      ensures |r| == 48 && |r| % 8 == 0
      ensures UnpackLe(r[0..2]) == 1 && UnpackLe(r[4..8]) == 0
      // DataLength counts the context data after the 8-byte context header;
      // only the alignment padding follows it
      ensures UnpackLe(r[2..4]) == 0x26 == |r| - 8 - 2
      ensures UnpackLe(r[8..10]) == 1 && UnpackLe(r[12..14]) == 1
      // SaltLength matches the salt that follows the algorithm list
      ensures UnpackLe(r[10..12]) == 0x20 == |r[14..46]|
      ensures r[14..46] == Zeros(0x20) && UnpackLe(r[46..48]) == 0
    {
      var header := Join3(PackLe16(0x1), PackLe16(0x26), PackLe32(0));    // type, data length, reserved
      var counts := Join3(PackLe16(0x1), PackLe16(0x20), PackLe16(0x1));  // hash count, salt length, SHA-512
      var r := Join4(header, counts, Zeros(0x20), PackLe16(0));   // salt, padding
      FieldAt(r, 0, header, 0, 2);
      FieldAt(r, 0, header, 2, 4);
      FieldAt(r, 0, header, 4, 8);
      FieldAt(r, 8, counts, 0, 2);
      FieldAt(r, 8, counts, 2, 4);
      FieldAt(r, 8, counts, 4, 6);
      r
    }
  }

  /** SMB2_COMPRESSION_CAPABILITIES: one algorithm, LZNT1 (id 1). */
  datatype Smb2CompressionContext = Smb2CompressionContext
  {
    function RawBytes(): (r: seq<byte>)
      ensures |r| == 18
      ensures UnpackLe(r[0..2]) == 3 && UnpackLe(r[4..8]) == 0
      ensures UnpackLe(r[2..4]) == 0xA == |r| - 8
      ensures UnpackLe(r[8..10]) == 1 == |r[16..]| / 2
      // padding, then Flags = SMB2_COMPRESSION_CAPABILITIES_FLAG_CHAINED
      ensures UnpackLe(r[10..12]) == 0 && UnpackLe(r[12..16]) == 1
      ensures UnpackLe(r[16..18]) == 1
    {
      var header := Join3(PackLe16(0x3), PackLe16(0xA), PackLe32(0));  // type, data length, reserved
      // the bytes 00 00 01 00 00 00: padding, then Flags as a 32-bit word
      var flags := Join2(PackLe16(0), PackLe32(1));
      var r := Join4(header, PackLe16(0x1), flags, PackLe16(0x1));  // count, padding and flags, LZNT1
      FieldAt(r, 0, header, 0, 2);
      FieldAt(r, 0, header, 2, 4);
      FieldAt(r, 0, header, 4, 8);
      FieldAt(r, 10, flags, 0, 2);
      FieldAt(r, 10, flags, 2, 6);
      r
    }
  }

  /** The SMB 2.0.2, 2.1, 3.0, 3.0.2 and 3.1.1 dialect codes, little-endian. */
  const Dialects: seq<byte> := [0x02, 0x02, 0x10, 0x02, 0x00, 0x03, 0x02, 0x03, 0x11, 0x03]

  /** Two consecutive fields, each recoverable at its offset. */
  function Join2(a: seq<byte>, b: seq<byte>): (r: seq<byte>)
    ensures |r| == |a| + |b| && r[..|a|] == a && r[|a|..] == b
  {
    a + b
  }

  /** Three consecutive fields, each recoverable at its offset. */
  function Join3(a: seq<byte>, b: seq<byte>, c: seq<byte>): (r: seq<byte>)
    ensures |r| == |a| + |b| + |c|
    ensures r[..|a|] == a && r[|a|..|a| + |b|] == b && r[|a| + |b|..] == c
  {
    a + b + c
  }

  /** Four consecutive fields, each recoverable at its offset. */
  function Join4(a: seq<byte>, b: seq<byte>, c: seq<byte>, d: seq<byte>): (r: seq<byte>)
    ensures |r| == |a| + |b| + |c| + |d|
    ensures r[..|a|] == a && r[|a|..|a| + |b|] == b
    ensures r[|a| + |b|..|a| + |b| + |c|] == c && r[|a| + |b| + |c|..] == d
  {
    a + b + c + d
  }

  /** The ClientGuid the tool sends: 13 37 C0 DE four times. */
  const ClientGuid: seq<byte> := [0x13, 0x37, 0xC0, 0xDE, 0x13, 0x37, 0xC0, 0xDE,
                                  0x13, 0x37, 0xC0, 0xDE, 0x13, 0x37, 0xC0, 0xDE]

  /** The fixed part of the NEGOTIATE request between the header and the
      negotiate contexts. */
  function NegotiateFields(): (b: seq<byte>)
    ensures |b| == 48
    ensures b[0..2] == PackLe16(0x24) && b[2..4] == PackLe16(0x5)
    ensures b[4..6] == PackLe16(0) && b[6..8] == PackLe16(0)
    ensures b[8..12] == PackLe32(0x44) && b[12..28] == ClientGuid
    ensures b[28..32] == PackLe32(0x70) && b[32..34] == PackLe16(0x2)
    ensures b[34..36] == PackLe16(0) && b[36..46] == Dialects && b[46..48] == PackLe16(0)
  {
    var sizes := Join2(PackLe16(0x24), PackLe16(0x5));              // structure size, dialect count
    var caps := Join3(PackLe16(0), PackLe16(0), PackLe32(0x44));      // security mode, reserved, capabilities
    var contexts := Join3(ClientGuid, PackLe32(0x70), PackLe16(0x2)); // client guid, context offset and count
    var tail := Join3(PackLe16(0), Dialects, PackLe16(0));            // reserved, dialects, padding
    var b := Join4(sizes, caps, contexts, tail);
    FieldAt(b, 0, sizes, 0, 2);
    FieldAt(b, 0, sizes, 2, 4);
    FieldAt(b, 4, caps, 0, 2);
    FieldAt(b, 4, caps, 2, 4);
    FieldAt(b, 4, caps, 4, 8);
    FieldAt(b, 12, contexts, 0, 16);
    FieldAt(b, 12, contexts, 16, 20);
    FieldAt(b, 12, contexts, 20, 22);
    FieldAt(b, 34, tail, 0, 2);
    FieldAt(b, 34, tail, 2, 12);
    FieldAt(b, 34, tail, 12, 14);
    b
  }

  /** The NEGOTIATE request: header for command 0 and message id 0, five
      dialects, and the two negotiate contexts at offset 0x70 from the start of
      the header. */
  datatype Smb2NegotiateRequestPacket = Smb2NegotiateRequestPacket
  {
    function RawBytes(): (r: seq<byte>)
      ensures |r| == 0x70 + 48 + 18
      ensures r[..64] == Smb2Header(0, 0).RawBytes()
      ensures r[64..0x70] == NegotiateFields()
      ensures r[0x70..0x70 + 48] == Smb2PreauthContext.Smb2PreauthContext.RawBytes()
      ensures r[0x70 + 48..] == Smb2CompressionContext.Smb2CompressionContext.RawBytes()
    {
      Join4(Smb2Header(0, 0).RawBytes(), NegotiateFields(),
            Smb2PreauthContext.Smb2PreauthContext.RawBytes(),
            Smb2CompressionContext.Smb2CompressionContext.RawBytes())
    }
  }

  /** The NEGOTIATE request describes itself: NegotiateContextOffset (bytes
      92..96) is the position, from the start of the SMB2 header, where the
      preauthentication context begins; DialectCount (bytes 66..68) is the
      number of 2-byte dialects at byte 100; NegotiateContextCount (bytes
      96..98) is the two contexts that close the message. */
  lemma NegotiateLayout()
    ensures var r := Smb2NegotiateRequestPacket.Smb2NegotiateRequestPacket.RawBytes();
      var offset := UnpackLe(r[92..96]);
      offset == 0x70 && r[offset..offset + 48] == Smb2PreauthContext.Smb2PreauthContext.RawBytes() &&
      UnpackLe(r[66..68]) == 5 && r[100..100 + 2 * 5] == Dialects &&
      UnpackLe(r[96..98]) == 2 && |r| == 0x70 + 48 + 18
  {
    var r := Smb2NegotiateRequestPacket.Smb2NegotiateRequestPacket.RawBytes();
    var fields := NegotiateFields();
    FieldAt(r, 64, fields, 2, 4);
    FieldAt(r, 64, fields, 28, 32);
    FieldAt(r, 64, fields, 32, 34);
    FieldAt(r, 64, fields, 36, 46);
  }

  /** Bytes `i..j` of a field that sits at `a` in a message. */
  lemma FieldAt(r: seq<byte>, a: nat, field: seq<byte>, i: nat, j: nat)
    requires a + |field| <= |r| && r[a..a + |field|] == field && i <= j <= |field|
    ensures r[a + i..a + j] == field[i..j]
  {
    forall k | 0 <= k < j - i
      ensures r[a + i..a + j][k] == field[i..j][k]
    {
      assert r[a + i + k] == r[a..a + |field|][i + k];
    }
  }

  /** Direct TCP transport framing: a zero byte, then the length of the
      message as the low three bytes of a big-endian 32-bit value. */
  datatype NetBiosSessionPacket = NetBiosSessionPacket(data: seq<byte>)
  {
    function RawBytes(): (r: seq<byte>)
      requires |data| < 0x1_0000_0000
      ensures |r| == 4 + |data|
      ensures r[0] == 0
      ensures UnpackBe(r[1..4]) == |data| % 0x100_0000
      ensures |data| < 0x100_0000 ==> UnpackBe(r[1..4]) == |data|
      ensures r[4..] == data
    {
      var length := PackBe32(|data|)[1..];
      UnpackBeDropFirst(PackBe32(|data|));
      [0x00] + length + data
    }
  }

  /** Compression transform header followed by the uncompressed prefix `data`
      and the compressed region; Offset is the length of the prefix. */
  datatype Smb2CompressedTransform =
    Smb2CompressedTransform(compressedData: seq<byte>, decompressedSize: u32, data: seq<byte>)
  {
    function RawBytes(): (r: seq<byte>)
      requires |data| < 0x1_0000_0000
      ensures |r| == 16 + |data| + |compressedData|
      ensures r[0..4] == TransformProtocolId
      ensures UnpackLe(r[4..8]) == decompressedSize
      ensures UnpackLe(r[8..10]) == 1 && UnpackLe(r[10..12]) == 0
      // the Offset field locates the compressed region after the prefix
      ensures UnpackLe(r[12..16]) == |data|
      ensures r[16..16 + UnpackLe(r[12..16])] == data
      ensures r[16 + UnpackLe(r[12..16])..] == compressedData
    {
      var r := TransformProtocolId + PackLe32(decompressedSize) +
        PackLe16(0x1) + PackLe16(0) +     // LZNT1, flags
        PackLe32(|data|) + (data + compressedData);
      assert r[4..8] == PackLe32(decompressedSize);
      assert r[8..10] == PackLe16(0x1) && r[10..12] == PackLe16(0);
      assert r[12..16] == PackLe32(|data|);
      r
    }
  }
}
