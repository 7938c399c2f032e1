# E87 badge command framing, in Dafny

A model of the framing layer of the proprietary BLE command protocol spoken by
the E87 e-ink/LED badge, as implemented by the Rust client in `src/device/e87.rs`
and `src/util.rs`. A command frame on the wire is

    mark (0x9E) | checksum | metadata | command | length (u16, little-endian) | data

where the checksum is the 8-bit wrapping sum of everything after it and the
metadata byte is a bit field (MSB first): `flag1 | packet_id (4 bits) |
length_more_than_20 | expect_response | flag4`.

Files:

- `bytes.dfy` — module `Bytes`: `u8`, `u16`, `u32` as bounded integers, and `Option`.
- `common.dfy` — modules `Common` (`CommandMark = 0x9E`) and `Command` (the opcodes
  `RequestBadgeInfo = 0xC6` and `ResponseBadgeInfo = 0xC7`).
- `util.dfy` — module `Util`: the checksum. `Checksum` is the accumulator loop
  of `checksum` (a `for` loop doing `wrapping_add`), proved equal to
  `WrappingSum`, the unbounded byte sum reduced modulo 256.
- `e87.dfy` — module `E87`: `PacketMetadata` with `ToByte`/`FromByte`; the
  encoder `CommandData` (a method building the header, appending the data,
  checksumming and splicing the mark and checksum onto the front), specified by
  the field-by-field predicate `IsCommandFrame`; the decoder `ParseResponse`;
  and `BadgeInfo` with its little-endian reader and writer.

The decoder takes a `BuildProfile` (`Debug` or `Release`). The length and
checksum comparisons in `parse_response` are `debug_assert_eq!`s: they panic
in debug builds and are compiled out of release builds, together with the
`try_into()?` (u16 conversion of the actual length) that sits inside one of
them. The outcome is `Parsed(info)`, `Failed(error)` for the `Err` returns, or
`Panicked(p)` for the debug assertions and the `todo!` reached by frames that
set `expect_response`. Where `parse_response` reads a `BadgeInfo` it only
prints it and returns `()`; the model returns the value read.

Behaviour of the code worth knowing:

- The checksum is an unsigned `u8` `wrapping_add` over the bytes, so it is the
  byte sum modulo 256.
- A frame from the encoder never decodes: the encoder always sets
  `expect_response` and the decoder stops at `todo!` on such frames
  (`EncodedFrameRejected`). Whole frames therefore do not round-trip through
  encoder and decoder; what round-trips is the metadata byte, the frame
  fields, and `BadgeInfo`.
- The decoder knows only command `0xC7` and returns an error for every other
  command. It does not inspect the mark byte.
- In a debug build a length-field or checksum mismatch panics, and a frame
  with 65536 or more data bytes returns an error from the u16 conversion of
  its length (`Failed(LengthOverflow)`). In a release build none of these
  three is checked, whatever the frame length.
- The encoder's length bytes are truncating casts of `data.len()`
  (`len % 256`, `(len >> 8) % 256`), so no bound on the data length is
  required. The length field equals the data length when that is below 65536
  (`CommandFrameConsistent`).
- The frame-layout comment at src/device/e87.rs:66 writes the length field of
  the badge-info request as `00 01`. The code at src/device/e87.rs:93-94 emits
  the low byte first, `01 00`. The model follows the code
  (`CommandFrameExample`, `CommentFrameDisagrees`). The checksum 0x2A is the
  same for both byte orders. The sample frame at src/device/e87.rs:65,
  `9E 01 40 C6 00 01 01`, is not what the encoder emits for any packet id (its
  metadata byte 0x40 clears `expect_response`) and its checksum 0x01 is not the
  wrapping sum 0x08 of the bytes after it (`CommentSampleRejected`).

## Model

| member | source | states |
|---|---|---|
| `Util.Checksum` | src/util.rs:1-8 | the loop's result is the byte sum modulo 256, always in 0..255; its invariant is the checksum of the prefix read so far |
| `Util.ChecksumSnoc` | src/util.rs:4-6 | one `wrapping_add` step: checksum(s + [x]) == (checksum(s) + x) % 256 |
| `Util.ChecksumConcat` | src/util.rs:3-7 | checksum(a + b) == (checksum(a) + checksum(b)) % 256 |
| `Util.ChecksumEmpty` | src/util.rs:3-7 | the checksum of no bytes is 0 |
| `Util.ChecksumWraps` | src/util.rs:5 | addition wraps rather than saturates: [0xFF, 0x02] sums to 0x01 |
| `Util.ChecksumExample` | src/device/e87.rs:66 | checksum([0x62, 0xC6, 0x01, 0x00, 0x01]) == 0x2A, the checksum in the frame comment |
| `E87.ToByte` | src/device/e87.rs:41-62 | MSB-first layout: flag1 is bit 7, packet_id bits 6..3, length_more_than_20 bit 2, expect_response bit 1, flag4 bit 0 |
| `E87.PackLayout` | src/device/e87.rs:41-62 | each field of a packed byte is recovered by its own shift and mask, and the packed value fits one byte |
| `E87.FromByte` | src/device/e87.rs:222 | every byte is accepted and repacks to itself: ToByte(FromByte(b)) == b |
| `E87.MetadataRoundTrip` | src/device/e87.rs:41-62 | FromByte(ToByte(m)) == m for every metadata value with a 4-bit packet id |
| `E87.ToByteInjective` | src/device/e87.rs:41-62 | distinct metadata values pack to distinct bytes |
| `E87.MetadataExample` | src/device/e87.rs:69-79 | packet id 12 with only expect_response set packs to 0x62 |
| `E87.CommandData` | src/device/e87.rs:81-106 | the frame is `|data| + 6` bytes: mark 0x9E, the checksum of bytes 2.., metadata with flag1 = flag4 = false, expect_response = true and length_more_than_20 iff `|data| + 6 > 20`, the command, the truncated length bytes, then the data unchanged |
| `E87.CommandFrameUnique` | src/device/e87.rs:81-106 | the encoder's description fixes every byte of the frame |
| `E87.CommandFrameExample` | src/device/e87.rs:81-106 | id 12, command 0xC6, data [1] gives the frame 9E 2A 62 C6 01 00 01: the checksum and metadata of the comment at line 66, with the length bytes in the code's low-byte-first order |
| `E87.CommentFrameDisagrees` | src/device/e87.rs:66 | the comment's byte sequence 9E 2A 62 C6 00 01 01, whose length field is written high byte first, is not what the encoder emits for that request |
| `E87.CommentSampleRejected` | src/device/e87.rs:65 | the sample frame 9E 01 40 C6 00 01 01 is no encoder output for any packet id (its metadata clears expect_response) and is not consistent (checksum 0x01, wrapping sum 0x08) |
| `E87.CommandFrameConsistent` | src/device/e87.rs:90-101 | for data shorter than 65536 bytes the length field reads back as `|data|` and the frame passes both decoder consistency checks |
| `E87.ReportedLength` | src/device/e87.rs:224 | `u16::from_le_bytes`: byte 4 is the low byte and byte 5 the high byte of the length field |
| `E87.ReadBadgeInfo` | src/device/e87.rs:204-213 | `BadgeInfo::read` succeeds exactly when at least 12 bytes remain; what it reads is pinned by `BadgeInfoRoundTrip` and `ReadBadgeInfoExact` |
| `E87.ReadU16Le` | src/device/e87.rs:204-213 | a little-endian u16 field read: its low byte is the first byte and its high byte the second |
| `E87.ReadU32Le` | src/device/e87.rs:204-213 | a little-endian u32 field read: its low 16 bits are the first u16 and its high 16 bits the second |
| `E87.WriteU16Le` | src/device/e87.rs:204-213 | a little-endian u16 is two bytes that read back to the value |
| `E87.WriteU32Le` | src/device/e87.rs:204-213 | a little-endian u32 is four bytes that read back to the value |
| `E87.BadgeInfoRoundTrip` | src/device/e87.rs:204-213 | the 12-byte little-endian image of a BadgeInfo reads back to it, whatever bytes follow |
| `E87.ReadBadgeInfoExact` | src/device/e87.rs:249 | a successful read means the first 12 bytes are exactly the image of the value read |
| `E87.ParseResponse` | src/device/e87.rs:215-256 | `parse_response`: it fails as too short exactly when the frame has at most 6 bytes, and it decodes only badge-info responses with status byte 1 and no ack request; the outcome of every frame is pinned down by `DebugHeaderOutcomes` (debug header checks), `AckRequestUnhandled` (the `todo!`), `ParseResponseErrors` (command, status and truncation errors) and `ParseResponseParsed` (success) |
| `E87.ParseResponseParsed` | src/device/e87.rs:215-256 | a frame decodes iff it has at least 19 bytes, no ack request, command 0xC7 and status byte 1 (and, in debug builds, a matching length and checksum); the result is the BadgeInfo encoded in bytes 7..18 |
| `E87.ParseResponseErrors` | src/device/e87.rs:242-253 | past the header checks: any command other than 0xC7 fails as unknown, status byte not 1 fails as empty info, fewer than 12 info bytes fails as truncated |
| `E87.DebugHeaderOutcomes` | src/device/e87.rs:228-231 | in a debug build: 65536 or more data bytes return the u16-conversion error; otherwise a wrong length field panics; otherwise a wrong checksum panics |
| `E87.DebugChecksEnforceConsistency` | src/device/e87.rs:228-231 | in a debug build, getting past the length and checksum assertions implies the frame is consistent |
| `E87.DebugChecksOnlyDiagnose` | src/device/e87.rs:228-231 | on a consistent frame, debug and release builds give the same outcome |
| `E87.ReleaseIgnoresHeaderChecks` | src/device/e87.rs:220-231 | a release build's outcome does not depend on the mark, checksum or length bytes |
| `E87.AckRequestUnhandled` | src/device/e87.rs:235-238 | a frame with expect_response set reaches `todo!` and never decodes |
| `E87.EncodedFrameRejected` | src/device/e87.rs:82-88 | the decoder accepts no encoder output: empty data is too short, oversize data overflows in debug, everything else hits the ack `todo!` |
| `E87.ResponseExample` | src/device/e87.rs:142 | the recorded response frame is consistent and decodes to width = height = 0x168, picture width = height = 0x170, memory = 0xF80 in both builds |

## Left out

- BLE plumbing: adapter setup, scanning, `connect`/`disconnect`, characteristic lookup and the notify/write orchestration of `request_device_info` (src/ble_controller.rs, src/device/e87.rs:27-39, 115-162, 195-201) are asynchronous I/O over external libraries.
- `src/main.rs` is process entry and console flow only.
- The `Counter` type that supplies packet ids is not part of this model (its definition is not among the source files); `CommandData` takes the id as a parameter and requires it to be below 16, the range `Counter::new(0, 1, 16)` produces.
- UUID constants, `Connectable` and `BleDevice` are connection identifiers and trait glue; only the command mark constant is kept.
- `println!` logging is not modelled; `eyre` error payloads are collapsed into the `ParseError` cases, and panics into the `Panic` cases.
- `binrw`'s cursor reader is replaced by explicit little-endian arithmetic; its error is the single `Truncated` case.
- `CommandData` returns the frame directly: the source's `Result` wrapper is always `Ok`, and its `debug_assert!` on the total length is the length clause of the postcondition.
