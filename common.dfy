/** Protocol constants shared by the badge devices (src/device/common.rs). */
module Common {
  import opened Bytes

  /** First byte of every command frame. */
  const CommandMark: u8 := 0x9E
}

/** Command opcodes (src/device/command.rs). */
module Command {
  import opened Bytes

  const RequestBadgeInfo: u8 := 0xC6
  const ResponseBadgeInfo: u8 := 0xC7
}
