/** One indexed log record: byte coordinates and the integers the filters compare. */
module Records {

  /** Severity levels, least severe first; Unknown is an unparsed line's level. */
  datatype Priority = Unknown | Trace | Debug | Info | Warn | Error | Fatal {
    function Level(): nat {
      match this
      case Unknown => 0
      case Trace => 1
      case Debug => 2
      case Info => 3
      case Warn => 4
      case Error => 5
      case Fatal => 6
    }
  }

  /** The absent timestamp: the least 64-bit value. */
  const NO_TIMESTAMP: int := -0x8000_0000_0000_0000

  /** An offset no record has: the greatest 64-bit value. */
  const MAX_OFFSET: int := 0x7FFF_FFFF_FFFF_FFFF

  const MAX_LINE_COUNT: nat := 65535
  const MAX_LENGTH: nat := 0xFFFF_FFFF

  datatype Record = Record(
    offset: int,
    timestamp: int,
    length: nat,
    loggerId: nat,
    threadId: nat,
    lineCount: nat,
    priority: Priority)
}
