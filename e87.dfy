/**
 * Framing layer of the E87 badge command protocol (src/device/e87.rs).
 *
 * A frame is `mark | checksum | metadata | command | length (LE u16) | data`,
 * where the checksum covers everything after itself.
 */
module E87 {
  import opened Bytes
  import Util
  import Common
  import Command

  // ---------------------------------------------------------------------------
  // Packet metadata: one byte, most significant bit first:
  //   flag1 (bit 7) | packet_id (bits 6..3) | length_more_than_20 (bit 2)
  //   | expect_response (bit 1) | flag4 (bit 0)
  // ---------------------------------------------------------------------------

  type Nibble = x: int | 0 <= x < 16

  datatype PacketMetadata = PacketMetadata(
    flag1: bool,
    packetId: Nibble,
    lengthMoreThan20: bool,
    expectResponse: bool,
    flag4: bool)

  /** Place values of the bits of a byte, bit 0 first. */
  const BitWeight: seq<nat> := [1, 2, 4, 8, 16, 32, 64, 128]

  /** Whether bit `k` (0 = least significant) of `b` is set. */
  predicate Bit(b: u8, k: nat)
    requires k < 8
  {
    (b / BitWeight[k]) % 2 == 1
  }

  function BoolBit(f: bool): nat
  {
    if f then 1 else 0
  }

  /** `into_bits`: packs the fields at the positions of the layout above. */
  function ToByte(m: PacketMetadata): (b: u8)
    ensures Bit(b, 7) == m.flag1
    ensures (b / 8) % 16 == m.packetId
    ensures Bit(b, 2) == m.lengthMoreThan20
    ensures Bit(b, 1) == m.expectResponse
    ensures Bit(b, 0) == m.flag4
  {
    PackLayout(BoolBit(m.flag1), m.packetId, BoolBit(m.lengthMoreThan20), BoolBit(m.expectResponse), BoolBit(m.flag4));
    128 * BoolBit(m.flag1) + 8 * m.packetId + 4 * BoolBit(m.lengthMoreThan20)
      + 2 * BoolBit(m.expectResponse) + BoolBit(m.flag4)
  }

  /** Where each field of a packed byte can be read back from. */
  lemma PackLayout(hi: nat, id: Nibble, c: nat, d: nat, e: nat)
    requires hi < 2 && c < 2 && d < 2 && e < 2
    ensures var b := 128 * hi + 8 * id + 4 * c + 2 * d + e;
      b < 256 && b / 128 == hi && (b / 8) % 16 == id && (b / 4) % 2 == c && (b / 2) % 2 == d && b % 2 == e
  {
    var b := 128 * hi + 8 * id + 4 * c + 2 * d + e;
    var q, low := 16 * hi + id, 4 * c + 2 * d + e;
    assert b == 8 * q + low && 0 <= low < 8;
    assert b / 8 == q;
    assert q / 16 == hi && q % 16 == id;
    assert b / 128 == hi;
    assert b / 4 == 2 * q + c;
    assert b / 2 == 4 * q + 2 * c + d;
  }

  /** Every byte is the sum of its fields at their place values. */
  lemma ByteDecomposition(b: u8)
    ensures b == 128 * BoolBit(Bit(b, 7)) + 8 * ((b / 8) % 16) + 4 * BoolBit(Bit(b, 2))
      + 2 * BoolBit(Bit(b, 1)) + BoolBit(Bit(b, 0))
  {
    var q, r := b / 8, b % 8;
    assert b == 8 * q + r;
    assert b / 128 == q / 16;
    assert q == 16 * (q / 16) + q % 16;
    assert b / 4 == 2 * q + r / 4;
    assert b / 2 == 4 * q + r / 2;
    assert r == 4 * (r / 4) + 2 * ((r / 2) % 2) + r % 2;
  }

  /** `from_bits`: reads every field back; no byte is rejected. */
  function FromByte(b: u8): (m: PacketMetadata)
    ensures ToByte(m) == b
  {
    ByteDecomposition(b);
    PacketMetadata(Bit(b, 7), (b / 8) % 16, Bit(b, 2), Bit(b, 1), Bit(b, 0))
  }

  /** Packing then unpacking gives back every field. */
  lemma MetadataRoundTrip(m: PacketMetadata)
    ensures FromByte(ToByte(m)) == m
  {
  }

  /** Two metadata values with the same byte are the same value. */
  lemma ToByteInjective(m1: PacketMetadata, m2: PacketMetadata)
    requires ToByte(m1) == ToByte(m2)
    ensures m1 == m2
  {
    MetadataRoundTrip(m1);
    MetadataRoundTrip(m2);
  }

  /** The bit-layout unit test: id 12 with only expect_response set is 0x62. */
  lemma MetadataExample()
    ensures ToByte(PacketMetadata(false, 12, false, true, false)) == 0x62
  {
  }

  // ---------------------------------------------------------------------------
  // Frame encoder: `command_data`
  // ---------------------------------------------------------------------------

  /** The metadata every outbound command carries. */
  function OutboundMetadata(packetId: Nibble, dataLength: nat): PacketMetadata
  {
    PacketMetadata(false, packetId, dataLength + 6 > 20, true, false)
  }

  /** Byte-by-byte description of the frame sent for `command` with `data`. */
  predicate IsCommandFrame(packetId: Nibble, command: u8, data: seq<u8>, frame: seq<u8>)
  {
    |frame| == |data| + 6
    && frame[0] == Common.CommandMark
    && frame[1] == Util.WrappingSum(frame[2..])
    && FromByte(frame[2]) == OutboundMetadata(packetId, |data|)
    && frame[3] == command
    && frame[4] == |data| % 256
    && frame[5] == (|data| / 256) % 256
    && frame[6..] == data
  }

  /**
   * `command_data`: builds the header bytes, appends the data, checksums that
   * vector and splices the mark and the checksum onto its front. The length
   * bytes are truncating casts of the data length.
   */
  method CommandData(packetId: u8, command: u8, data: seq<u8>) returns (bytes: seq<u8>)
    requires packetId < 16
    ensures IsCommandFrame(packetId, command, data, bytes)
  {
    var totalLength := |data| + 6;
    var metadata := PacketMetadata(false, packetId, totalLength > 20, true, false);
    bytes := [ToByte(metadata), command, |data| % 256, (|data| / 256) % 256];
    bytes := bytes + data;
    var checksum := Util.Checksum(bytes);
    bytes := [Common.CommandMark, checksum] + bytes;
    assert bytes[2..] == [ToByte(metadata), command, |data| % 256, (|data| / 256) % 256] + data;
    MetadataRoundTrip(metadata);
    assert bytes[6..] == data;
    assert FromByte(bytes[2]) == OutboundMetadata(packetId, |data|);
  }

  /** The description leaves no freedom: at most one frame meets it. */
  lemma CommandFrameUnique(packetId: Nibble, command: u8, data: seq<u8>, f1: seq<u8>, f2: seq<u8>)
    requires IsCommandFrame(packetId, command, data, f1)
    requires IsCommandFrame(packetId, command, data, f2)
    ensures f1 == f2
  {
    assert f1[2] == ToByte(FromByte(f1[2])) == ToByte(FromByte(f2[2])) == f2[2];
    assert f1[2..] == [f1[2], f1[3], f1[4], f1[5]] + f1[6..];
    assert f2[2..] == [f2[2], f2[3], f2[4], f2[5]] + f2[6..];
    assert f1 == [f1[0], f1[1]] + f1[2..];
    assert f2 == [f2[0], f2[1]] + f2[2..];
  }

  /** The badge-info request for packet id 12 is `9E 2A 62 C6 01 00 01`. */
  lemma CommandFrameExample()
    ensures IsCommandFrame(12, Command.RequestBadgeInfo, [1], [0x9E, 0x2A, 0x62, 0xC6, 0x01, 0x00, 0x01])
  {
    var frame: seq<u8> := [0x9E, 0x2A, 0x62, 0xC6, 0x01, 0x00, 0x01];
    assert frame[2..] == [0x62, 0xC6, 0x01, 0x00, 0x01];
    Util.ChecksumExample();
    MetadataExample();
    MetadataRoundTrip(PacketMetadata(false, 12, false, true, false));
  }

  /**
   * The frame-layout comment writes the length field of that request high byte
   * first (`00 01`); the encoder never emits that sequence.
   */
  lemma CommentFrameDisagrees()
    ensures !IsCommandFrame(12, Command.RequestBadgeInfo, [1], [0x9E, 0x2A, 0x62, 0xC6, 0x00, 0x01, 0x01])
  {
    var frame: seq<u8> := [0x9E, 0x2A, 0x62, 0xC6, 0x00, 0x01, 0x01];
    assert frame[4] == 0 != 1 % 256;
  }

  /**
   * The sample frame above the layout comment is neither encoder output (its
   * metadata 0x40 clears expect_response) nor consistent (its checksum 0x01 is
   * not the wrapping sum 0x08 of the bytes after it).
   */
  lemma CommentSampleRejected(packetId: Nibble)
    ensures !IsCommandFrame(packetId, Command.RequestBadgeInfo, [1], [0x9E, 0x01, 0x40, 0xC6, 0x00, 0x01, 0x01])
    ensures !FromByte(0x40).expectResponse
    ensures !FrameConsistent([0x9E, 0x01, 0x40, 0xC6, 0x00, 0x01, 0x01])
  {
    var frame: seq<u8> := [0x9E, 0x01, 0x40, 0xC6, 0x00, 0x01, 0x01];
    assert Bit(0x40, 1) == false;
    assert frame[2..] == [0x40, 0xC6, 0x00, 0x01, 0x01];
    assert Util.ByteSum([0x40, 0xC6, 0x00, 0x01, 0x01]) == 0x108;
  }

  // ---------------------------------------------------------------------------
  // Frame fields as the decoder reads them
  // ---------------------------------------------------------------------------

  /** The little-endian length field of a frame header. */
  function ReportedLength(bytes: seq<u8>): (n: u16)
    requires |bytes| >= 6
    ensures n % 256 == bytes[4] && n / 256 == bytes[5]
  {
    bytes[4] as int + 256 * bytes[5] as int
  }

  /** A frame whose length field and checksum agree with its contents. */
  predicate FrameConsistent(bytes: seq<u8>)
  {
    |bytes| >= 6
    && ReportedLength(bytes) == |bytes| - 6
    && bytes[1] == Util.WrappingSum(bytes[2..])
  }

  /** An encoded frame is consistent whenever its data length fits the 16-bit field. */
  lemma CommandFrameConsistent(packetId: Nibble, command: u8, data: seq<u8>, frame: seq<u8>)
    requires IsCommandFrame(packetId, command, data, frame)
    requires |data| < 0x1_0000
    ensures FrameConsistent(frame)
    ensures ReportedLength(frame) == |data|
  {
    LengthBytes(|data|);
    assert ReportedLength(frame) == frame[4] as int + 256 * frame[5] as int;
  }

  /** The two truncated length bytes recompose a length below 65536. */
  lemma LengthBytes(n: nat)
    requires n < 0x1_0000
    ensures n % 256 + 256 * ((n / 256) % 256) == n
  {
    assert n == n % 256 + 256 * (n / 256);
    assert n / 256 < 256;
  }

  // ---------------------------------------------------------------------------
  // BadgeInfo: five little-endian integers
  // ---------------------------------------------------------------------------

  datatype BadgeInfo = BadgeInfo(
    width: u16,
    height: u16,
    pictureWidth: u16,
    pictureHeight: u16,
    memory: u32)

  /** Number of bytes `BadgeInfo` occupies on the wire. */
  const BadgeInfoSize := 12

  function ReadU16Le(s: seq<u8>, i: nat): (x: u16)
    requires i + 2 <= |s|
    ensures x % 256 == s[i] && x / 256 == s[i + 1]
  {
    s[i] as int + 256 * s[i + 1] as int
  }

  function ReadU32Le(s: seq<u8>, i: nat): (x: u32)
    requires i + 4 <= |s|
    ensures x % 0x1_0000 == ReadU16Le(s, i) && x / 0x1_0000 == ReadU16Le(s, i + 2)
  {
    ReadU16Le(s, i) as int + 0x1_0000 * ReadU16Le(s, i + 2) as int
  }

  function WriteU16Le(x: u16): (s: seq<u8>)
    ensures |s| == 2 && ReadU16Le(s, 0) == x
  {
    [x % 256, x / 256]
  }

  function WriteU32Le(x: u32): (s: seq<u8>)
    ensures |s| == 4 && ReadU32Le(s, 0) == x
  {
    var s := WriteU16Le(x % 0x1_0000) + WriteU16Le(x / 0x1_0000);
    assert ReadU16Le(s, 0) == ReadU16Le(WriteU16Le(x % 0x1_0000), 0);
    assert ReadU16Le(s, 2) == ReadU16Le(WriteU16Le(x / 0x1_0000), 0);
    s
  }

  /** The wire image of a `BadgeInfo`: the partner of `ReadBadgeInfo`. */
  function WriteBadgeInfo(info: BadgeInfo): (s: seq<u8>)
  {
    WriteU16Le(info.width) + WriteU16Le(info.height) + WriteU16Le(info.pictureWidth)
      + WriteU16Le(info.pictureHeight) + WriteU32Le(info.memory)
  }

  /** `BadgeInfo::read`: fails when fewer than 12 bytes remain; extra bytes are not read. */
  function ReadBadgeInfo(s: seq<u8>): (r: Option<BadgeInfo>)
    ensures r.Some? <==> |s| >= BadgeInfoSize
  {
    if |s| < BadgeInfoSize then None
    else Some(BadgeInfo(ReadU16Le(s, 0), ReadU16Le(s, 2), ReadU16Le(s, 4), ReadU16Le(s, 6), ReadU32Le(s, 8)))
  }

  /** Reading back a written `BadgeInfo`, whatever follows it, gives the same value. */
  lemma BadgeInfoRoundTrip(info: BadgeInfo, rest: seq<u8>)
    ensures |WriteBadgeInfo(info)| == BadgeInfoSize
    ensures ReadBadgeInfo(WriteBadgeInfo(info) + rest) == Some(info)
  {
    var s := WriteBadgeInfo(info) + rest;
    assert s[0..2] == WriteU16Le(info.width);
    assert s[2..4] == WriteU16Le(info.height);
    assert s[4..6] == WriteU16Le(info.pictureWidth);
    assert s[6..8] == WriteU16Le(info.pictureHeight);
    assert s[8..12] == WriteU32Le(info.memory);
  }

  /** A successful read determines the first 12 bytes: they are the value's wire image. */
  lemma ReadBadgeInfoExact(s: seq<u8>, info: BadgeInfo)
    requires ReadBadgeInfo(s) == Some(info)
    ensures |s| >= BadgeInfoSize && s[..BadgeInfoSize] == WriteBadgeInfo(info)
  {
    ReadU16Exact(s, 0);
    ReadU16Exact(s, 2);
    ReadU16Exact(s, 4);
    ReadU16Exact(s, 6);
    ReadU32Exact(s, 8);
    assert s[..BadgeInfoSize] == s[0..2] + s[2..4] + s[4..6] + s[6..8] + s[8..12];
  }

  lemma ReadU16Exact(s: seq<u8>, i: nat)
    requires i + 2 <= |s|
    ensures s[i..i + 2] == WriteU16Le(ReadU16Le(s, i))
  {
  }

  lemma ReadU32Exact(s: seq<u8>, i: nat)
    requires i + 4 <= |s|
    ensures s[i..i + 4] == WriteU32Le(ReadU32Le(s, i))
  {
    var x := ReadU32Le(s, i);
    assert x % 0x1_0000 == ReadU16Le(s, i);
    assert x / 0x1_0000 == ReadU16Le(s, i + 2);
    ReadU16Exact(s, i);
    ReadU16Exact(s, i + 2);
    assert s[i..i + 4] == s[i..i + 2] + s[i + 2..i + 4];
  }

  // ---------------------------------------------------------------------------
  // Frame decoder: `parse_response`
  // ---------------------------------------------------------------------------

  /**
   * Whether `debug_assert!`s run. They are compiled out of release builds, and
   * with them the 16-bit conversion of the actual length that sits inside one.
   */
  datatype BuildProfile = Debug | Release

  /** Errors the decoder returns. */
  datatype ParseError =
    | TooShort                      // at most the 6 header bytes
    | LengthOverflow                // actual length does not fit a u16 (debug only)
    | EmptyInfo                     // status byte of a badge-info response is not 1
    | Truncated                     // fewer than 12 bytes for BadgeInfo
    | UnknownCommand(command: u8)   // any command other than the badge-info response

  /** Places where the decoder panics instead of returning. */
  datatype Panic =
    | LengthMismatch                // debug_assert on the length field
    | ChecksumMismatch              // debug_assert on the checksum
    | AckRequested                  // `todo!` on frames that set expect_response

  datatype Outcome = Parsed(info: BadgeInfo) | Failed(error: ParseError) | Panicked(panic: Panic)

  /**
   * `parse_response`: the mark byte is never inspected; length and checksum are
   * compared only in debug builds; a frame asking for an acknowledgement stops
   * at `todo!`; the only command understood is the badge-info response.
   */
  function ParseResponse(bytes: seq<u8>, profile: BuildProfile): (r: Outcome)
    ensures r == Failed(TooShort) <==> |bytes| <= 6
    ensures r.Parsed? ==>
      (|bytes| > 6 && bytes[3] == Command.ResponseBadgeInfo && bytes[6] == 1
       && !FromByte(bytes[2]).expectResponse)
  {
    if |bytes| <= 6 then Failed(TooShort)
    else
      var reportedChecksum := bytes[1];
      var metadata := FromByte(bytes[2]);
      var command := bytes[3];
      var reportedLength := ReportedLength(bytes);
      var actualLength := |bytes| - 6;
      if profile == Debug && actualLength >= 0x1_0000 then Failed(LengthOverflow)
      else if profile == Debug && reportedLength != actualLength then Panicked(LengthMismatch)
      else if profile == Debug && reportedChecksum != Util.WrappingSum(bytes[2..]) then Panicked(ChecksumMismatch)
      else
        var data := bytes[6..];
        if metadata.expectResponse then Panicked(AckRequested)
        else if command != Command.ResponseBadgeInfo then Failed(UnknownCommand(command))
        else if data[0] != 1 then Failed(EmptyInfo)
        else
          match ReadBadgeInfo(data[1..])
          case None => Failed(Truncated)
          case Some(info) => Parsed(info)
  }

  /** The frames the decoder accepts, described field by field. */
  predicate Accepted(bytes: seq<u8>, profile: BuildProfile)
  {
    |bytes| >= 6 + 1 + BadgeInfoSize
    && (profile == Debug ==> FrameConsistent(bytes))
    && !FromByte(bytes[2]).expectResponse
    && bytes[3] == Command.ResponseBadgeInfo
    && bytes[6] == 1
  }

  /** A frame is decoded exactly when it is accepted, and then into the badge info its bytes 7..18 encode. */
  lemma ParseResponseParsed(bytes: seq<u8>, profile: BuildProfile)
    ensures ParseResponse(bytes, profile).Parsed? <==> Accepted(bytes, profile)
    ensures ParseResponse(bytes, profile).Parsed? ==>
      bytes[7..7 + BadgeInfoSize] == WriteBadgeInfo(ParseResponse(bytes, profile).info)
  {
    if ParseResponse(bytes, profile).Parsed? {
      var info := ParseResponse(bytes, profile).info;
      ReadBadgeInfoExact(bytes[7..], info);
      assert bytes[7..][..BadgeInfoSize] == bytes[7..7 + BadgeInfoSize];
    }
  }

  /** The error paths past the header checks, in the order the decoder takes them. */
  lemma ParseResponseErrors(bytes: seq<u8>, profile: BuildProfile)
    requires |bytes| > 6
    requires profile == Debug ==> FrameConsistent(bytes)
    requires !FromByte(bytes[2]).expectResponse
    ensures bytes[3] != Command.ResponseBadgeInfo ==>
      ParseResponse(bytes, profile) == Failed(UnknownCommand(bytes[3]))
    ensures bytes[3] == Command.ResponseBadgeInfo && bytes[6] != 1 ==>
      ParseResponse(bytes, profile) == Failed(EmptyInfo)
    ensures bytes[3] == Command.ResponseBadgeInfo && bytes[6] == 1 && |bytes| < 6 + 1 + BadgeInfoSize ==>
      ParseResponse(bytes, profile) == Failed(Truncated)
  {
  }

  /**
   * Which debug-build outcome an inconsistent frame gets: the u16 conversion of
   * the actual length returns an error first, then the length assertion
   * panics, then the checksum assertion panics.
   */
  lemma DebugHeaderOutcomes(bytes: seq<u8>)
    requires |bytes| > 6
    ensures |bytes| - 6 >= 0x1_0000 ==> ParseResponse(bytes, Debug) == Failed(LengthOverflow)
    ensures |bytes| - 6 < 0x1_0000 && ReportedLength(bytes) != |bytes| - 6 ==>
      ParseResponse(bytes, Debug) == Panicked(LengthMismatch)
    ensures ReportedLength(bytes) == |bytes| - 6 && bytes[1] != Util.WrappingSum(bytes[2..]) ==>
      ParseResponse(bytes, Debug) == Panicked(ChecksumMismatch)
  {
  }

  /** In a debug build, getting past the header checks means the frame was consistent. */
  lemma DebugChecksEnforceConsistency(bytes: seq<u8>)
    ensures |bytes| > 6
      && ParseResponse(bytes, Debug) !in {Failed(LengthOverflow), Panicked(LengthMismatch), Panicked(ChecksumMismatch)}
      ==> FrameConsistent(bytes)
  {
  }

  /** On a consistent frame the debug checks change nothing: both builds give the same outcome. */
  lemma DebugChecksOnlyDiagnose(bytes: seq<u8>)
    requires FrameConsistent(bytes)
    ensures ParseResponse(bytes, Debug) == ParseResponse(bytes, Release)
  {
  }

  /** A release build never looks at the mark, checksum or length bytes. */
  lemma ReleaseIgnoresHeaderChecks(a: seq<u8>, b: seq<u8>)
    requires |a| == |b| && |a| >= 6
    requires a[2] == b[2] && a[3] == b[3] && a[6..] == b[6..]
    ensures ParseResponse(a, Release) == ParseResponse(b, Release)
  {
    if |a| > 6 {
      assert a[6..][0] == b[6..][0];
      assert a[6..][1..] == b[6..][1..];
    }
  }

  /** A frame that asks for an acknowledgement never decodes: it reaches `todo!`. */
  lemma AckRequestUnhandled(bytes: seq<u8>, profile: BuildProfile)
    requires |bytes| > 6
    requires profile == Debug ==> FrameConsistent(bytes)
    requires FromByte(bytes[2]).expectResponse
    ensures ParseResponse(bytes, profile) == Panicked(AckRequested)
  {
  }

  /**
   * The decoder accepts none of the encoder's frames: they always set
   * expect_response, so at best they reach `todo!`.
   */
  lemma EncodedFrameRejected(packetId: Nibble, command: u8, data: seq<u8>, frame: seq<u8>, profile: BuildProfile)
    requires IsCommandFrame(packetId, command, data, frame)
    ensures ParseResponse(frame, profile) ==
      if |data| == 0 then Failed(TooShort)
      else if profile == Debug && |data| >= 0x1_0000 then Failed(LengthOverflow)
      else Panicked(AckRequested)
  {
    if |data| < 0x1_0000 {
      CommandFrameConsistent(packetId, command, data, frame);
    }
  }

  /** The badge-info response recorded beside `request_device_info`. */
  lemma ResponseExample(profile: BuildProfile)
    ensures ParseResponse(
      [0x9E, 0x18, 0x00, 0xC7, 0x0D, 0x00, 0x01, 0x68, 0x01, 0x68, 0x01, 0x70, 0x01, 0x70, 0x01, 0x80, 0x0F, 0x00, 0x00],
      profile)
      == Parsed(BadgeInfo(0x168, 0x168, 0x170, 0x170, 0xF80))
  {
    var frame: seq<u8> := [0x9E, 0x18, 0x00, 0xC7, 0x0D, 0x00, 0x01, 0x68, 0x01, 0x68, 0x01, 0x70, 0x01, 0x70, 0x01, 0x80, 0x0F, 0x00, 0x00];
    ResponseExampleConsistent(frame);
    DebugChecksOnlyDiagnose(frame);
    ResponseExampleRelease(frame);
  }

  lemma ResponseExampleConsistent(frame: seq<u8>)
    requires frame == [0x9E, 0x18, 0x00, 0xC7, 0x0D, 0x00, 0x01, 0x68, 0x01, 0x68, 0x01, 0x70, 0x01, 0x70, 0x01, 0x80, 0x0F, 0x00, 0x00]
    ensures FrameConsistent(frame)
  {
    assert frame[2..] == [0x00, 0xC7, 0x0D, 0x00, 0x01, 0x68, 0x01, 0x68, 0x01, 0x70, 0x01, 0x70, 0x01, 0x80, 0x0F, 0x00, 0x00];
    ResponseExampleChecksum(frame[2..]);
  }

  lemma ResponseExampleRelease(frame: seq<u8>)
    requires frame == [0x9E, 0x18, 0x00, 0xC7, 0x0D, 0x00, 0x01, 0x68, 0x01, 0x68, 0x01, 0x70, 0x01, 0x70, 0x01, 0x80, 0x0F, 0x00, 0x00]
    ensures ParseResponse(frame, Release) == Parsed(BadgeInfo(0x168, 0x168, 0x170, 0x170, 0xF80))
  {
    assert !FromByte(frame[2]).expectResponse by {
      assert Bit(0, 1) == false;
    }
    assert frame[6..][1..] == [0x68, 0x01, 0x68, 0x01, 0x70, 0x01, 0x70, 0x01, 0x80, 0x0F, 0x00, 0x00];
    ResponseExampleBody(frame[6..][1..]);
  }

  lemma ResponseExampleChecksum(body: seq<u8>)
    requires body == [0x00, 0xC7, 0x0D, 0x00, 0x01, 0x68, 0x01, 0x68, 0x01, 0x70, 0x01, 0x70, 0x01, 0x80, 0x0F, 0x00, 0x00]
    ensures Util.WrappingSum(body) == 0x18
  {
    assert body == [0x00, 0xC7, 0x0D, 0x00, 0x01, 0x68] + [0x01, 0x68, 0x01, 0x70, 0x01, 0x70] + [0x01, 0x80, 0x0F, 0x00, 0x00];
    assert Util.ByteSum([0x00, 0xC7, 0x0D, 0x00, 0x01, 0x68]) == 0x13D;
    assert Util.ByteSum([0x01, 0x68, 0x01, 0x70, 0x01, 0x70]) == 0x14B;
    assert Util.ByteSum([0x01, 0x80, 0x0F, 0x00, 0x00]) == 0x90;
    Util.ByteSumConcat([0x00, 0xC7, 0x0D, 0x00, 0x01, 0x68], [0x01, 0x68, 0x01, 0x70, 0x01, 0x70]);
    Util.ByteSumConcat([0x00, 0xC7, 0x0D, 0x00, 0x01, 0x68] + [0x01, 0x68, 0x01, 0x70, 0x01, 0x70], [0x01, 0x80, 0x0F, 0x00, 0x00]);
  }

  lemma ResponseExampleBody(info: seq<u8>)
    requires info == [0x68, 0x01, 0x68, 0x01, 0x70, 0x01, 0x70, 0x01, 0x80, 0x0F, 0x00, 0x00]
    ensures ReadBadgeInfo(info) == Some(BadgeInfo(0x168, 0x168, 0x170, 0x170, 0xF80))
  {
  }
}
